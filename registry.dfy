/** The theme registry and dispatcher of Generator.py. */
module Registry {
  import opened Outcomes
  import opened Seqs
  import opened FileSystem
  import opened Paths
  import StaticCompositor
  import AnimatedCompositor

  /** `theme_path.glob('*.*')`: the names in a theme directory that contain a dot. */
  function Glob(files: seq<File>): seq<string>
  {
    if files == [] then []
    else
      var rest := Glob(files[..|files| - 1]);
      var name := files[|files| - 1].name;
      if '.' in name then rest + [name] else rest
  }

  lemma {:induction false} GlobSpec(files: seq<File>)
    ensures forall n :: n in Glob(files) <==> '.' in n && exists i :: 0 <= i < |files| && files[i].name == n
  {
    if files != [] {
      var p := files[..|files| - 1];
      GlobSpec(p);
      assert forall i :: 0 <= i < |p| ==> p[i] == files[i];
    }
  }

  /** `f.suffix.lower()`. */
  function Extension(name: string): string
  {
    Lower(Suffix(name))
  }

  /** `_get_theme_file_type`: the lower-cased extension of the first matched file when every
      matched file has it, and nothing when no file matches or two extensions differ. */
  function ThemeFileType(files: seq<File>): Option<string>
  {
    var matched := Glob(files);
    if matched == [] then None
    else
      var ext := Extension(matched[0]);
      if forall k :: 0 <= k < |matched| ==> Extension(matched[k]) == ext then Some(ext) else None
  }

  /** The type is found exactly when some file matches and all matched files share one extension,
      which is then the type; so it does not depend on the order of the listing. */
  lemma ThemeFileTypeSpec(files: seq<File>, t: string)
    ensures ThemeFileType(files) == Some(t) <==>
      Glob(files) != [] && forall n :: n in Glob(files) ==> Extension(n) == t
    ensures ThemeFileType(files) == None <==>
      Glob(files) == [] || exists m, n :: m in Glob(files) && n in Glob(files) && Extension(m) != Extension(n)
  {
    var matched := Glob(files);
    if matched != [] {
      assert matched[0] in matched;
      if ThemeFileType(files).None? {
        var k :| 0 <= k < |matched| && Extension(matched[k]) != Extension(matched[0]);
        assert matched[k] in matched;
      }
    }
  }

  /** `if d.is_dir()` and `if theme_type:`: a directory with a type that is not the empty string. */
  predicate Qualifies(e: Entry)
  {
    e.Directory? && ThemeFileType(e.files).Some? && ThemeFileType(e.files).value != ""
  }

  function TypeOf(e: Entry): string
    requires Qualifies(e)
  {
    ThemeFileType(e.files).value
  }

  /** The `themes` dict after the listing `root`: each qualifying directory's name mapped to its
      type, a later entry of the same name overwriting an earlier one. */
  function Themes(root: Root): map<string, string>
  {
    if root == [] then map[]
    else
      var m := Themes(root[..|root| - 1]);
      var e := root[|root| - 1];
      if Qualifies(e) then m[e.name := TypeOf(e)] else m
  }

  /** The dict's keys in insertion order. */
  function ThemeOrder(root: Root): seq<string>
  {
    if root == [] then []
    else
      var o := ThemeOrder(root[..|root| - 1]);
      var e := root[|root| - 1];
      if Qualifies(e) && e.name !in o then o + [e.name] else o
  }

  /** A name is registered exactly when a qualifying directory has it. */
  lemma {:induction false} ThemesMembers(root: Root)
    ensures forall n :: n in Themes(root) <==> exists i :: 0 <= i < |root| && Qualifies(root[i]) && root[i].name == n
  {
    if root != [] {
      var p := root[..|root| - 1];
      ThemesMembers(p);
      assert forall i :: 0 <= i < |p| ==> p[i] == root[i];
    }
  }

  /** In a listing without repeated names, each registered name maps to its directory's type. */
  lemma {:induction false} ThemesValues(root: Root)
    requires DistinctNames(root)
    ensures forall i :: 0 <= i < |root| && Qualifies(root[i]) ==>
      root[i].name in Themes(root) && Themes(root)[root[i].name] == TypeOf(root[i])
  {
    if root != [] {
      var p := root[..|root| - 1];
      assert forall i :: 0 <= i < |p| ==> p[i] == root[i];
      assert DistinctNames(p);
      ThemesValues(p);
    }
  }

  /** The order lists every registered name once. */
  lemma {:induction false} ThemeOrderSpec(root: Root)
    ensures forall n :: n in ThemeOrder(root) <==> n in Themes(root)
    ensures NoDuplicates(ThemeOrder(root))
  {
    if root != [] {
      ThemeOrderSpec(root[..|root| - 1]);
    }
  }

  /** `_get_available_themes`: the loop over the listing that fills the dict. */
  method AvailableThemes(root: Root) returns (themes: map<string, string>, order: seq<string>)
    ensures themes == Themes(root) && order == ThemeOrder(root)
  {
    themes, order := map[], [];
    var i := 0;
    while i < |root|
      invariant 0 <= i <= |root|
      invariant themes == Themes(root[..i]) && order == ThemeOrder(root[..i])
      invariant forall n :: n in order <==> n in themes
    {
      var d := root[i];
      assert root[..i + 1][..i] == root[..i];
      if d.Directory? {
        var themeType := ThemeFileType(d.files);
        if themeType.Some? && themeType.value != "" {
          if d.name !in themes {
            order := order + [d.name];
          }
          themes := themes[d.name := themeType.value];
        }
      }
      i := i + 1;
    }
    assert root[..i] == root;
  }

  /** What `generate_counter` hands back: the animated compositor's GIF and SVG, or the static
      compositor's SVG. */
  datatype CounterOutput =
    | Animated(gif: AnimatedCompositor.GifOutput)
    | Static(svg: StaticCompositor.StaticOutput)

  function LiftAnimated(r: Result<AnimatedCompositor.GifOutput>): Result<CounterOutput>
  {
    match r
    case Ok(out) => Ok(Animated(out))
    case Err(e) => Err(e)
  }

  function LiftStatic(r: Result<StaticCompositor.StaticOutput>): Result<CounterOutput>
  {
    match r
    case Ok(out) => Ok(Static(out))
    case Err(e) => Err(e)
  }

  /** `CounterGenerator`: the themes directory's listing and the registry built from it. */
  class CounterGenerator {
    const root: Root
    var themes: map<string, string>
    var order: seq<string>

    /** The registry always describes the listing it was built from. */
    ghost predicate Valid()
      reads this
    {
      themes == Themes(root) && order == ThemeOrder(root)
    }

    constructor(root: Root)
      ensures this.root == root
      ensures themes == Themes(root) && order == ThemeOrder(root)
      ensures Valid()
    {
      this.root := root;
      var t, o := AvailableThemes(root);
      themes, order := t, o;
    }

    /** `generate_counter`: unknown themes are rejected, `.gif` themes go to the animated
        compositor with its default multiplier, every other type to the static one. */
    function GenerateCounter(number: string, themeName: string, outDir: string,
                             filename: Option<string>): Result<CounterOutput>
      reads this
    {
      if themeName !in themes then Err(UnknownTheme(themeName))
      else if themes[themeName] == ".gif" then
        LiftAnimated(AnimatedCompositor.GifCounter(number, themeName, root, outDir, filename,
                                                   AnimatedCompositor.DefaultSpeed))
      else
        LiftStatic(StaticCompositor.StaticCounter(number, themeName, root, outDir, filename))
    }

    /** The dispatch, case by case: only an unregistered name yields `UnknownTheme`; a `.gif`
        theme gives the animated result at the default multiplier; any other the static one. */
    lemma DispatchSpec(number: string, themeName: string, outDir: string, filename: Option<string>)
      ensures GenerateCounter(number, themeName, outDir, filename) == Err(UnknownTheme(themeName)) <==>
        themeName !in themes
      ensures themeName in themes && themes[themeName] == ".gif" ==>
        GenerateCounter(number, themeName, outDir, filename) ==
          LiftAnimated(AnimatedCompositor.GifCounter(number, themeName, root, outDir, filename,
                                                     AnimatedCompositor.Speed(1, 2)))
      ensures themeName in themes && themes[themeName] != ".gif" ==>
        GenerateCounter(number, themeName, outDir, filename) ==
          LiftStatic(StaticCompositor.StaticCounter(number, themeName, root, outDir, filename))
    {
      var r := GenerateCounter(number, themeName, outDir, filename);
      if themeName in themes {
        if themes[themeName] == ".gif" {
          AnimatedCompositor.GifCounterOutcome(number, themeName, root, outDir, filename,
                                               AnimatedCompositor.DefaultSpeed);
          assert r != Err(UnknownTheme(themeName));
        } else {
          StaticCompositor.StaticCounterOutcome(number, themeName, root, outDir, filename);
          assert r != Err(UnknownTheme(themeName));
        }
      }
    }
  }

  /** Without repeated names, looking a qualifying directory up by its name finds it. */
  lemma LookupFindsDirectory(root: Root, i: nat)
    requires DistinctNames(root) && i < |root|
    ensures FindEntry(root, root[i].name) == Some(root[i])
  {
    var e := FindEntry(root, root[i].name);
    var k :| 0 <= k < |root| && root[k] == e.value && e.value.name == root[i].name;
    assert k == i;
  }

  /** Without repeated names, a registered theme is the directory the compositors read, and
      that directory has the registered type. */
  lemma RegisteredDirectory(root: Root, themeName: string)
    requires DistinctNames(root) && themeName in Themes(root)
    ensures FindEntry(root, themeName).Some? && FindEntry(root, themeName).value.Directory?
    ensures ThemeFileType(FilesOf(FindEntry(root, themeName))) == Some(Themes(root)[themeName])
  {
    ThemesMembers(root);
    var i :| 0 <= i < |root| && Qualifies(root[i]) && root[i].name == themeName;
    ThemesValues(root);
    LookupFindsDirectory(root, i);
  }

  /** A registered theme of a listing without repeated names never fails for a missing or
      unknown theme or for the multiplier. */
  lemma RegisteredThemeResolves(g: CounterGenerator, number: string, themeName: string,
                                outDir: string, filename: Option<string>)
    requires g.Valid() && DistinctNames(g.root) && themeName in g.themes
    ensures var r := g.GenerateCounter(number, themeName, outDir, filename);
      r.Err? ==> r.error != ThemeNotFound(themeName) && r.error != NonPositiveSpeed &&
                 r.error != UnknownTheme(themeName)
  {
    RegisteredDirectory(g.root, themeName);
    if g.themes[themeName] == ".gif" {
      AnimatedCompositor.GifCounterOutcome(number, themeName, g.root, outDir, filename,
                                           AnimatedCompositor.DefaultSpeed);
    } else {
      StaticCompositor.StaticCounterOutcome(number, themeName, g.root, outDir, filename);
    }
  }

  /** `0.GIF` has the lower-cased extension `.gif`. */
  lemma UpperCaseGifExtension()
    ensures Extension("0.GIF") == ".gif"
  {
    assert "0.GIF" == "0" + "." + "GIF";
    SuffixOfDotted("0", "GIF");
    assert Lower(".GIF") == [LowerChar('.')] + Lower("GIF");
    assert Lower("GIF") == [LowerChar('G')] + Lower("IF");
    assert Lower("IF") == [LowerChar('I')] + Lower("F");
    assert Lower("F") == [LowerChar('F')] + Lower("");
  }

  /** A directory holding only `0.GIF` has the type `.gif`. */
  lemma UpperCaseGifType(img: Image)
    ensures ThemeFileType([File("0.GIF", img)]) == Some(".gif")
  {
    var files := [File("0.GIF", img)];
    UpperCaseGifExtension();
    assert files[..0] == [];
    assert Glob(files) == ["0.GIF"];
  }

  /** A directory holding only `0.GIF` has no `0.gif`. */
  lemma UpperCaseGifHidden(img: Image)
    ensures !AnimatedCompositor.HasGif([File("0.GIF", img)], '0')
  {
    var files := [File("0.GIF", img)];
    var name := AnimatedCompositor.GifName('0');
    assert name[2] == 'g' && files[0].name[2] == 'G';
    assert files[1..] == [];
    assert FindFile(files, name) == FindFile([], name);
  }

  /** Registration lower-cases the extension, but the animated compositor looks files up by their
      exact lower-case name: a theme of upper-case `.GIF` files registers as a `.gif` theme whose
      every digit is then reported missing where names are matched case-sensitively. */
  lemma UpperCaseGifTheme(img: Image, outDir: string, filename: Option<string>)
    ensures var root := [Directory("fire", [File("0.GIF", img)])];
      Themes(root) == map["fire" := ".gif"] &&
      AnimatedCompositor.GifCounter("0", "fire", root, outDir, filename, AnimatedCompositor.DefaultSpeed) ==
        Err(DigitGifMissing('0'))
  {
    var files := [File("0.GIF", img)];
    var root := [Directory("fire", files)];
    UpperCaseGifType(img);
    assert Qualifies(root[0]);
    assert root[..0] == [];
    assert Themes(root) == map["fire" := ".gif"];
    assert FilesOf(FindEntry(root, "fire")) == files;
    UpperCaseGifHidden(img);
    assert AnimatedCompositor.FirstMissingGif(files, "0") == Some(0);
  }
}
