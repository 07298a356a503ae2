/** File-name arithmetic as Python's `pathlib` does it, and the output names of both compositors. */
module Paths {
  import opened Outcomes

  /** Lower-casing as `str.lower()` does it for ASCII letters. */
  function LowerChar(c: char): char
  {
    if 'A' <= c <= 'Z' then (c as int + 32) as char else c
  }

  function Lower(s: string): string
  {
    if s == [] then [] else [LowerChar(s[0])] + Lower(s[1..])
  }

  lemma {:induction false} LowerSpec(s: string)
    ensures |Lower(s)| == |s|
    ensures forall i :: 0 <= i < |s| ==> Lower(s)[i] == LowerChar(s[i])
  {
    if s != [] {
      LowerSpec(s[1..]);
    }
  }

  /** `str.rfind`: the last position of `c` in `s`, or -1. */
  function RFind(s: string, c: char): (r: int)
    ensures -1 <= r < |s|
  {
    if s == [] then -1
    else if s[|s| - 1] == c then |s| - 1
    else RFind(s[..|s| - 1], c)
  }

  lemma {:induction false} RFindSpec(s: string, c: char)
    ensures RFind(s, c) >= 0 ==> s[RFind(s, c)] == c
    ensures forall j :: RFind(s, c) < j < |s| ==> s[j] != c
  {
    if s != [] && s[|s| - 1] != c {
      RFindSpec(s[..|s| - 1], c);
    }
  }

  /** `PurePath.suffix` of a final path component: from its last dot to the end, provided that
      dot is neither the first nor the last character; otherwise empty. */
  function Suffix(name: string): (r: string)
    ensures |r| < |name| || r == ""
  {
    var i := RFind(name, '.');
    if 0 < i < |name| - 1 then name[i..] else ""
  }

  /** A non-empty suffix starts at a dot, has at least one more character, holds no other dot,
      and ends the name. */
  lemma SuffixSpec(name: string)
    ensures var r := Suffix(name);
      r == "" || (r[0] == '.' && 2 <= |r| < |name| && r == name[|name| - |r|..])
    ensures var r := Suffix(name);
      r != "" ==> forall i :: 1 <= i < |r| ==> r[i] != '.'
  {
    RFindSpec(name, '.');
  }

  /** A name built as `stem + "." + tail` with no dot in `tail` has suffix `"." + tail`. */
  lemma SuffixOfDotted(stem: string, tail: string)
    requires stem != [] && tail != []
    requires forall i :: 0 <= i < |tail| ==> tail[i] != '.'
    ensures Suffix(stem + "." + tail) == "." + tail
  {
    var name := stem + "." + tail;
    var i := RFind(name, '.');
    RFindSpec(name, '.');
    assert name[|stem|] == '.';
    assert i == |stem|;
    assert name[i..] == "." + tail;
  }

  /** `PurePath.stem`: the name without its suffix. */
  function Stem(name: string): string
  {
    name[..|name| - |Suffix(name)|]
  }

  /** `PurePath.with_suffix(suffix)` on a final component: the old suffix, if any, is replaced. */
  function WithSuffix(name: string, suffix: string): (r: string)
    ensures r == Stem(name) + suffix
    ensures Suffix(name) == "" ==> r == name + suffix
  {
    var oldSuffix := Suffix(name);
    if oldSuffix == "" then name + suffix else name[..|name| - |oldSuffix|] + suffix
  }

  /** For a well-formed suffix `.tail`, `with_suffix` makes it the name's suffix and keeps the stem:
      an old suffix is replaced, not extended. */
  lemma WithSuffixSpec(name: string, tail: string)
    requires name != [] && tail != []
    requires forall i :: 0 <= i < |tail| ==> tail[i] != '.'
    ensures Suffix(WithSuffix(name, "." + tail)) == "." + tail
    ensures Stem(WithSuffix(name, "." + tail)) == Stem(name)
  {
    SuffixSpec(name);
    var stem := Stem(name);
    assert stem != [];
    var r := WithSuffix(name, "." + tail);
    assert r == stem + "." + tail;
    SuffixOfDotted(stem, tail);
    assert r[..|r| - |"." + tail|] == stem;
  }

  /** An output file: a directory and a final component, joined with `/` by `pathlib`. */
  datatype OutPath = OutPath(dir: string, name: string)

  /** The stem shared by every output of one request: the caller's file name when it is given
      and non-empty (Python truthiness), else `counter_<number>`. */
  function BaseName(number: string, filename: Option<string>): (b: string)
    ensures filename.Some? && filename.value != "" ==> b == filename.value
    ensures filename.None? || filename.value == "" ==> b == "counter_" + number
  {
    match filename
    case Some(f) => if f != "" then f else "counter_" + number
    case None => "counter_" + number
  }

  /** The SVG written by the static compositor: `<base>.svg` appended to the base name. */
  function StaticOutputPath(outDir: string, number: string, filename: Option<string>): OutPath
  {
    OutPath(outDir, BaseName(number, filename) + ".svg")
  }

  /** The GIF and SVG paths of the animated compositor as written: `with_suffix` on the base name. */
  function GifPathsAsWritten(outDir: string, base: string): (OutPath, OutPath)
  {
    (OutPath(outDir, WithSuffix(base, ".gif")), OutPath(outDir, WithSuffix(base, ".svg")))
  }

  /** The GIF and SVG paths of the animated compositor with the suffixes appended to the base name,
      as for the static compositor. */
  function GifPaths(outDir: string, base: string): (p: (OutPath, OutPath))
    ensures p.0.dir == p.1.dir == outDir
    ensures |p.0.name| == |p.1.name| == |base| + 4
    ensures p.0.name[..|base|] == p.1.name[..|base|] == base
    ensures p.0.name[|base|..] == ".gif" && p.1.name[|base|..] == ".svg"
  {
    (OutPath(outDir, base + ".gif"), OutPath(outDir, base + ".svg"))
  }

  /** As written, the two paths still share one stem with each other: the base name's stem. */
  lemma AsWrittenSharesStem(outDir: string, base: string)
    ensures var (g, s) := GifPathsAsWritten(outDir, base);
      g.dir == s.dir == outDir &&
      g.name == Stem(base) + ".gif" && s.name == Stem(base) + ".svg"
  {
  }

  /** When the base name has no suffix, `with_suffix` appends, and both definitions agree. */
  lemma AsWrittenAgreesWithoutSuffix(outDir: string, base: string)
    requires Suffix(base) == ""
    ensures GifPathsAsWritten(outDir, base) == GifPaths(outDir, base)
  {
  }

  /** A base name whose last component holds a dot loses the text after that dot in the
      animated compositor's paths, while the static compositor keeps it. */
  lemma DottedBaseLosesSuffix()
    ensures GifPathsAsWritten("out", "7_v1.2").0.name == "7_v1.gif"
    ensures GifPathsAsWritten("out", "7_v1.2").1.name == "7_v1.svg"
    ensures StaticOutputPath("out", "7", Some("7_v1.2")).name == "7_v1.2.svg"
  {
    var base := "7_v1.2";
    assert base == "7_v1" + "." + "2";
    SuffixOfDotted("7_v1", "2");
    assert Stem(base) == "7_v1" by {
      assert Suffix(base) == ".2";
      assert base[..4] == "7_v1";
    }
  }

  /** With the corrected definition the animated compositor's SVG has the very path the static
      compositor gives the same request. */
  lemma GifSvgMatchesStaticPath(outDir: string, number: string, filename: Option<string>)
    ensures GifPaths(outDir, BaseName(number, filename)).1 == StaticOutputPath(outDir, number, filename)
  {
  }
}
