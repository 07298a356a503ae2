/** The static compositor of png.py: per-digit asset lookup, layout, and the SVG it writes. */
module StaticCompositor {
  import opened Outcomes
  import opened Seqs
  import opened FileSystem
  import opened Paths
  import opened DataUris

  /** The extensions tried for each digit, in priority order. */
  const Extensions: seq<string> := [".png", ".gif", ".jpg", ".jpeg"]

  /** The asset chosen for a digit: the position of its extension in the list, and the image. */
  datatype Found = Found(index: nat, image: Image)

  /** A digit's reusable `<image id="d<digit>">` definition inside `<defs>`. */
  datatype ImageDef = ImageDef(digit: char, width: nat, height: nat, href: DataUri)
  {
    function Id(): string { "d" + [digit] }
  }

  /** One `<use class="digit" xlink:href="#d<digit>">` placement; its animation delay is
      `delayTenths` tenths of a second. */
  datatype Use = Use(x: nat, y: int, digit: char, delayTenths: nat)
  {
    function Href(): string { "#d" + [digit] }
  }

  /** The SVG document: `viewBox="0 0 width height"`, the fixed `<style>` keyframe block (not
      modelled), the definitions, then the placements. */
  datatype Svg = Svg(width: nat, height: nat, defs: seq<ImageDef>, uses: seq<Use>)

  datatype StaticOutput = StaticOutput(path: OutPath, svg: Svg)

  /** A `digit_info` entry: the image's size and the file whose data URI the definition embeds. */
  datatype DigitInfo = DigitInfo(width: nat, height: nat, file: string)

  /** The first extension of `exts` for which `<digit><ext>` exists in the theme directory. */
  function FindDigitFile(files: seq<File>, digit: char, exts: seq<string>): (r: Option<Found>)
    ensures r.Some? ==> r.value.index < |exts|
  {
    if exts == [] then None
    else
      match FindFile(files, [digit] + exts[0])
      case Some(img) => Some(Found(0, img))
      case None =>
        match FindDigitFile(files, digit, exts[1..])
        case None => None
        case Some(f) => Some(Found(f.index + 1, f.image))
  }

  /** The search yields the first extension whose file exists, or nothing when none does. */
  lemma {:induction false} FindDigitFileSpec(files: seq<File>, digit: char, exts: seq<string>)
    ensures var r := FindDigitFile(files, digit, exts);
      r.Some? ==>
        && r.value.index < |exts|
        && FindFile(files, [digit] + exts[r.value.index]) == Some(r.value.image)
        && forall j :: 0 <= j < r.value.index ==> FindFile(files, [digit] + exts[j]).None?
    ensures FindDigitFile(files, digit, exts).None? <==>
      forall j :: 0 <= j < |exts| ==> FindFile(files, [digit] + exts[j]).None?
  {
    if exts != [] {
      FindDigitFileSpec(files, digit, exts[1..]);
      assert forall j :: 1 <= j < |exts| ==> exts[j] == exts[1..][j - 1];
    }
  }

  /** When the first `j` extensions are missing and the `j`-th exists, the search stops there. */
  lemma {:induction false} FindDigitFileAt(files: seq<File>, digit: char, exts: seq<string>, j: nat)
    requires j < |exts| && FindFile(files, [digit] + exts[j]).Some?
    requires forall k :: 0 <= k < j ==> FindFile(files, [digit] + exts[k]).None?
    ensures FindDigitFile(files, digit, exts) == Some(Found(j, FindFile(files, [digit] + exts[j]).value))
  {
    if j > 0 {
      assert forall k :: 0 <= k < j - 1 ==> exts[1..][k] == exts[k + 1];
      FindDigitFileAt(files, digit, exts[1..], j - 1);
    }
  }

  /** When every extension is missing, the search finds nothing. */
  lemma {:induction false} FindDigitFileNone(files: seq<File>, digit: char, exts: seq<string>)
    requires forall k :: 0 <= k < |exts| ==> FindFile(files, [digit] + exts[k]).None?
    ensures FindDigitFile(files, digit, exts) == None
  {
    if exts != [] {
      assert forall k :: 0 <= k < |exts| - 1 ==> exts[1..][k] == exts[k + 1];
      FindDigitFileNone(files, digit, exts[1..]);
    }
  }

  /** What the compositor records for a digit: its size and its data URI. */
  function Resolve(files: seq<File>, digit: char): Option<DigitInfo>
  {
    match FindDigitFile(files, digit, Extensions)
    case None => None
    case Some(f) =>
      Some(DigitInfo(f.image.width, f.image.height, [digit] + Extensions[f.index]))
  }

  predicate AllResolved(files: seq<File>, number: string)
  {
    forall c :: c in number ==> Resolve(files, c).Some?
  }

  /** The position of the first digit with no asset under any extension. */
  function FirstUnresolved(files: seq<File>, number: string): (r: Option<nat>)
    ensures r.None? <==> AllResolved(files, number)
    ensures r.Some? ==>
      && r.value < |number|
      && Resolve(files, number[r.value]).None?
      && forall j :: 0 <= j < r.value ==> Resolve(files, number[j]).Some?
  {
    if number == [] then None
    else if Resolve(files, number[0]).None? then Some(0)
    else
      match FirstUnresolved(files, number[1..])
      case None =>
        assert forall c :: c in number ==> c == number[0] || c in number[1..];
        None
      case Some(i) => Some(i + 1)
  }

  /** The `digit_info` dict once every digit has been looked up. */
  function InfoMap(files: seq<File>, number: string): (m: map<char, DigitInfo>)
    requires AllResolved(files, number)
    ensures forall c :: c in m <==> c in number
    ensures forall c :: c in m ==> Resolve(files, c) == Some(m[c])
  {
    map c | c in number :: Resolve(files, c).value
  }

  /** `info` records every digit of `number`. */
  predicate Covers(info: map<char, DigitInfo>, number: string)
  {
    forall c :: c in number ==> c in info
  }

  /** `total_width`: the widths of all positions, repeats included. */
  function TotalWidth(number: string, info: map<char, DigitInfo>): nat
    requires Covers(info, number)
  {
    if number == [] then 0
    else
      var n := |number| - 1;
      assert Covers(info, number[..n]) by { assert forall c :: c in number[..n] ==> c in number; }
      TotalWidth(number[..n], info) + info[number[n]].width
  }

  /** `max_height`: the greatest height over all positions, starting from 0. */
  function MaxHeight(number: string, info: map<char, DigitInfo>): nat
    requires Covers(info, number)
  {
    if number == [] then 0
    else
      var n := |number| - 1;
      assert Covers(info, number[..n]) by { assert forall c :: c in number[..n] ==> c in number; }
      var h := MaxHeight(number[..n], info);
      if info[number[n]].height > h then info[number[n]].height else h
  }

  function DefOf(info: map<char, DigitInfo>, digit: char): ImageDef
    requires digit in info
  {
    ImageDef(digit, info[digit].width, info[digit].height, ImageToDataUri(info[digit].file))
  }

  /** The placement of position `i`: after the widths of all earlier positions, centred
      vertically, delayed by `i` tenths. */
  function UseAt(number: string, info: map<char, DigitInfo>, height: nat, i: nat): Use
    requires Covers(info, number) && i < |number|
  {
    assert Covers(info, number[..i]) by { assert forall c :: c in number[..i] ==> c in number; }
    Use(TotalWidth(number[..i], info), (height - info[number[i]].height) / 2, number[i], i)
  }

  /** The document for a digit string, given the recorded size and data of each digit. */
  function Layout(number: string, info: map<char, DigitInfo>): Svg
    requires Covers(info, number)
  {
    var height := MaxHeight(number, info);
    var order := Distinct(number);
    DistinctSpec(number);
    Svg(TotalWidth(number, info), height,
        seq(|order|, k requires 0 <= k < |order| => DefOf(info, order[k])),
        seq(|number|, i requires 0 <= i < |number| => UseAt(number, info, height, i)))
  }

  /** `_generate_svg_counter`: the error it raises or the file it writes. */
  function StaticCounter(number: string, themeName: string, root: Root, outDir: string,
                         filename: Option<string>): Result<StaticOutput>
  {
    match FindEntry(root, themeName)
    case None => Err(ThemeNotFound(themeName))
    case Some(entry) =>
      var files := FilesOf(Some(entry));
      match FirstUnresolved(files, number)
      case Some(i) => Err(DigitImageMissing(themeName, number[i]))
      case None =>
        Ok(StaticOutput(StaticOutputPath(outDir, number, filename), Layout(number, InfoMap(files, number))))
  }

  /** The inner `for ext in [...]` search with its `else` branch: the first extension for which
      the digit's file exists. */
  method FindAsset(files: seq<File>, digit: char) returns (found: Option<Found>)
    ensures found == FindDigitFile(files, digit, Extensions)
  {
    found := None;
    var j := 0;
    while j < |Extensions| && found.None?
      invariant 0 <= j <= |Extensions|
      invariant found.None? ==> forall k :: 0 <= k < j ==> FindFile(files, [digit] + Extensions[k]).None?
      invariant found.Some? ==> found == FindDigitFile(files, digit, Extensions)
    {
      var img := FindFile(files, [digit] + Extensions[j]);
      if img.Some? {
        FindDigitFileAt(files, digit, Extensions, j);
        found := Some(Found(j, img.value));
      }
      j := j + 1;
    }
    if found.None? {
      FindDigitFileNone(files, digit, Extensions);
    }
  }

  /** The first pass over the digits: fills `digit_info` (its keys in insertion order in `keys`)
      and the accumulators `total_width` and `max_height`, or stops at the first digit that has
      no asset. */
  method CollectDigits(files: seq<File>, number: string)
    returns (missing: Option<nat>, digitInfo: map<char, DigitInfo>, keys: seq<char>,
             totalWidth: nat, maxHeight: nat)
    ensures missing == FirstUnresolved(files, number)
    ensures missing.None? ==> Collected(files, number, digitInfo, keys, totalWidth, maxHeight)
  {
    digitInfo, keys, totalWidth, maxHeight := map[], [], 0, 0;
    var i := 0;
    ghost var done: string := [];
    while i < |number|
      invariant 0 <= i <= |number|
      invariant done == number[..i]
      invariant Collected(files, done, digitInfo, keys, totalWidth, maxHeight)
    {
      var digit := number[i];
      var found := FindAsset(files, digit);
      if found.None? {
        FirstUnresolvedAt(files, number, i, digitInfo);
        return Some(i), digitInfo, keys, totalWidth, maxHeight;
      }
      var f := found.value;
      var info := DigitInfo(f.image.width, f.image.height, [digit] + Extensions[f.index]);
      assert Resolve(files, digit) == Some(info);
      CollectStep(files, done, digitInfo, keys, totalWidth, maxHeight, digit, info);
      if digit !in digitInfo {
        keys := keys + [digit];
      }
      digitInfo := digitInfo[digit := info];
      totalWidth := totalWidth + info.width;
      maxHeight := if info.height > maxHeight then info.height else maxHeight;
      TakeStep(number, i);
      done := done + [digit];
      i := i + 1;
    }
    assert done == number;
    FirstUnresolvedNone(files, number, digitInfo);
    missing := None;
  }

  /** What the first pass knows after the digits of `s`: `digitInfo` holds exactly those digits,
      each with what `Resolve` finds for it; `keys` is its insertion order; the accumulators hold
      the total width and the maximum height over every position. */
  predicate Collected(files: seq<File>, s: string, digitInfo: map<char, DigitInfo>, keys: seq<char>,
                      totalWidth: nat, maxHeight: nat)
  {
    && (forall c :: c in digitInfo <==> c in s)
    && (forall c :: c in digitInfo ==> Resolve(files, c) == Some(digitInfo[c]))
    && keys == Distinct(s)
    && totalWidth == TotalWidth(s, digitInfo)
    && maxHeight == MaxHeight(s, digitInfo)
  }

  /** One iteration of the first pass keeps `Collected`. */
  lemma CollectStep(files: seq<File>, s: string, digitInfo: map<char, DigitInfo>, keys: seq<char>,
                    totalWidth: nat, maxHeight: nat, digit: char, info: DigitInfo)
    requires Collected(files, s, digitInfo, keys, totalWidth, maxHeight)
    requires Resolve(files, digit) == Some(info)
    ensures Collected(files, s + [digit], digitInfo[digit := info],
                      if digit in digitInfo then keys else keys + [digit],
                      totalWidth + info.width,
                      if info.height > maxHeight then info.height else maxHeight)
  {
    StepMembers(s, digitInfo, digit, info);
    StepKeys(s, digitInfo, keys, digit);
    StepLayout(s, digitInfo, digit, info);
  }

  lemma StepMembers(s: string, digitInfo: map<char, DigitInfo>, digit: char, info: DigitInfo)
    requires forall c :: c in digitInfo <==> c in s
    ensures forall c :: c in digitInfo[digit := info] <==> c in s + [digit]
  {
    assert forall c :: c in s + [digit] <==> c in s || c == digit;
  }

  lemma StepKeys(s: string, digitInfo: map<char, DigitInfo>, keys: seq<char>, digit: char)
    requires forall c :: c in digitInfo <==> c in s
    requires keys == Distinct(s)
    ensures (if digit in digitInfo then keys else keys + [digit]) == Distinct(s + [digit])
  {
    DistinctSpec(s);
    StepDistinct(s, digit);
  }

  lemma FirstUnresolvedNone(files: seq<File>, number: string, digitInfo: map<char, DigitInfo>)
    requires Covers(digitInfo, number)
    requires forall c :: c in digitInfo ==> Resolve(files, c) == Some(digitInfo[c])
    ensures FirstUnresolved(files, number) == None
  {
    assert AllResolved(files, number);
  }

  lemma FirstUnresolvedAt(files: seq<File>, number: string, i: nat, digitInfo: map<char, DigitInfo>)
    requires i < |number| && Resolve(files, number[i]).None?
    requires Covers(digitInfo, number[..i])
    requires forall c :: c in digitInfo ==> Resolve(files, c) == Some(digitInfo[c])
    ensures FirstUnresolved(files, number) == Some(i)
  {
    assert forall j :: 0 <= j < i ==> number[j] in number[..i];
    assert !AllResolved(files, number);
  }

  /** The `<defs>` pass over the dict's items, in insertion order. */
  method EmitDefs(digitInfo: map<char, DigitInfo>, keys: seq<char>) returns (defs: seq<ImageDef>)
    requires forall c :: c in keys ==> c in digitInfo
    ensures |defs| == |keys|
    ensures forall k :: 0 <= k < |keys| ==> defs[k] == DefOf(digitInfo, keys[k])
  {
    defs := [];
    var k := 0;
    while k < |keys|
      invariant 0 <= k <= |keys|
      invariant |defs| == k
      invariant forall m :: 0 <= m < k ==> defs[m] == DefOf(digitInfo, keys[m])
    {
      var d := keys[k];
      var info := digitInfo[d];
      defs := defs + [ImageDef(d, info.width, info.height, ImageToDataUri(info.file))];
      k := k + 1;
    }
  }

  /** The placement pass: `x` runs over the widths of the positions already placed. */
  method EmitUses(number: string, digitInfo: map<char, DigitInfo>, maxHeight: nat)
    returns (uses: seq<Use>)
    requires Covers(digitInfo, number)
    ensures |uses| == |number|
    ensures forall i :: 0 <= i < |number| ==> uses[i] == UseAt(number, digitInfo, maxHeight, i)
  {
    uses := [];
    var x: nat := 0;
    var i := 0;
    while i < |number|
      invariant 0 <= i <= |number|
      invariant |uses| == i
      invariant forall m :: 0 <= m < i ==> uses[m] == UseAt(number, digitInfo, maxHeight, m)
      invariant Covers(digitInfo, number[..i]) && x == TotalWidth(number[..i], digitInfo)
    {
      var digit := number[i];
      var info := digitInfo[digit];
      var y := (maxHeight - info.height) / 2;
      uses := uses + [Use(x, y, digit, i)];
      TotalWidthStep(number, digitInfo, i);
      x := x + info.width;
      i := i + 1;
    }
  }

  /** `_generate_svg_counter` as the source runs it: the theme check, the three passes, and the
      output path. */
  method GenerateSvgCounter(number: string, themeName: string, root: Root, outDir: string,
                            filename: Option<string>) returns (r: Result<StaticOutput>)
    ensures r == StaticCounter(number, themeName, root, outDir, filename)
  {
    var entry := FindEntry(root, themeName);
    if entry.None? {
      return Err(ThemeNotFound(themeName));
    }
    var files := FilesOf(entry);
    var missing, digitInfo, keys, totalWidth, maxHeight := CollectDigits(files, number);
    if missing.Some? {
      return Err(DigitImageMissing(themeName, number[missing.value]));
    }
    CollectedIsInfoMap(files, number, digitInfo, keys, totalWidth, maxHeight);
    DistinctSpec(number);
    var defs := EmitDefs(digitInfo, keys);
    var uses := EmitUses(number, digitInfo, maxHeight);
    var svg := Svg(totalWidth, maxHeight, defs, uses);
    AssembleLayout(number, digitInfo, keys, totalWidth, maxHeight, defs, uses);
    r := Ok(StaticOutput(StaticOutputPath(outDir, number, filename), svg));
  }

  /** After a complete first pass, the recorded dict is the one `InfoMap` describes. */
  lemma CollectedIsInfoMap(files: seq<File>, number: string, digitInfo: map<char, DigitInfo>,
                           keys: seq<char>, totalWidth: nat, maxHeight: nat)
    requires Collected(files, number, digitInfo, keys, totalWidth, maxHeight)
    ensures AllResolved(files, number)
    ensures digitInfo == InfoMap(files, number)
  {
  }

  /** The accumulators and the two emitted lists make up exactly the specified document. */
  lemma AssembleLayout(number: string, info: map<char, DigitInfo>, keys: seq<char>, totalWidth: nat,
                       maxHeight: nat, defs: seq<ImageDef>, uses: seq<Use>)
    requires Covers(info, number)
    requires keys == Distinct(number) && forall c :: c in keys ==> c in info
    requires totalWidth == TotalWidth(number, info) && maxHeight == MaxHeight(number, info)
    requires |defs| == |keys| && forall k :: 0 <= k < |keys| ==> defs[k] == DefOf(info, keys[k])
    requires |uses| == |number| && forall i :: 0 <= i < |number| ==> uses[i] == UseAt(number, info, maxHeight, i)
    ensures Svg(totalWidth, maxHeight, defs, uses) == Layout(number, info)
  {
  }

  lemma StepDistinct(s: string, digit: char)
    ensures Distinct(s + [digit]) == if digit in Distinct(s) then Distinct(s) else Distinct(s) + [digit]
  {
    assert (s + [digit])[..|s|] == s;
  }

  /** Recording one more digit adds its width to the total and may raise the maximum height,
      provided it leaves the earlier digits' records unchanged. */
  lemma StepLayout(s: string, info: map<char, DigitInfo>, digit: char, d: DigitInfo)
    requires Covers(info, s)
    requires digit in info ==> info[digit] == d
    ensures Covers(info[digit := d], s + [digit])
    ensures TotalWidth(s + [digit], info[digit := d]) == TotalWidth(s, info) + d.width
    ensures MaxHeight(s + [digit], info[digit := d]) ==
      if d.height > MaxHeight(s, info) then d.height else MaxHeight(s, info)
  {
    var t := s + [digit];
    var m := info[digit := d];
    assert forall c :: c in t ==> c in s || c == digit;
    assert t[..|s|] == s;
    AccumulatorsFrame(s, info, m);
  }

  /** The accumulators depend only on the records of the digits that occur. */
  lemma {:induction false} AccumulatorsFrame(s: string, info: map<char, DigitInfo>, other: map<char, DigitInfo>)
    requires Covers(info, s) && Covers(other, s)
    requires forall c :: c in s ==> info[c] == other[c]
    ensures TotalWidth(s, info) == TotalWidth(s, other)
    ensures MaxHeight(s, info) == MaxHeight(s, other)
  {
    if s != [] {
      var n := |s| - 1;
      assert forall c :: c in s[..n] ==> c in s;
      AccumulatorsFrame(s[..n], info, other);
    }
  }

  /** The running `x` after position `i` is the one before it plus that digit's width. */
  lemma TotalWidthStep(number: string, info: map<char, DigitInfo>, i: nat)
    requires Covers(info, number) && i < |number|
    ensures Covers(info, number[..i]) && Covers(info, number[..i + 1])
    ensures TotalWidth(number[..i + 1], info) == TotalWidth(number[..i], info) + info[number[i]].width
  {
    assert forall c :: c in number[..i + 1] ==> c in number;
    assert number[..i + 1][..i] == number[..i];
  }

  // Properties of the specification.

  /** `Resolve` succeeds exactly when some extension's file exists, and then it records the first
      such file, with that image's size. */
  lemma ResolveSpec(files: seq<File>, digit: char)
    ensures Resolve(files, digit).None? <==>
      forall j :: 0 <= j < |Extensions| ==> FindFile(files, [digit] + Extensions[j]).None?
    ensures Resolve(files, digit).Some? ==>
      exists j :: 0 <= j < |Extensions| && ResolvedAt(files, digit, j, Resolve(files, digit).value)
  {
    FindDigitFileSpec(files, digit, Extensions);
    var r := FindDigitFile(files, digit, Extensions);
    if r.Some? {
      assert ResolvedAt(files, digit, r.value.index, Resolve(files, digit).value);
    }
  }

  /** The digit's file is `<digit><Extensions[j]>`, it exists, the recorded size is its image's,
      and no earlier extension's file exists. */
  predicate ResolvedAt(files: seq<File>, digit: char, j: nat, d: DigitInfo)
    requires j < |Extensions|
  {
    var img := FindFile(files, [digit] + Extensions[j]);
    && img.Some?
    && d == DigitInfo(img.value.width, img.value.height, [digit] + Extensions[j])
    && forall k :: 0 <= k < j ==> FindFile(files, [digit] + Extensions[k]).None?
  }

  /** The MIME type each candidate extension gets, position by position. */
  const ExtensionMimes: seq<string> := ["image/png", "image/gif", "image/jpeg", "image/jpeg"]

  /** A digit file found under the `j`-th extension is embedded with that extension's MIME type. */
  lemma ExtensionMime(digit: char, j: nat)
    requires j < |Extensions|
    ensures ImageToDataUri([digit] + Extensions[j]).mime == ExtensionMimes[j]
  {
    var tail := Extensions[j][1..];
    assert Extensions[j] == "." + tail;
    MimeOfDottedName([digit], tail);
    assert [digit] + Extensions[j] == [digit] + "." + tail;
    assert Lower("." + tail) == Extensions[j] by {
      LowerSpec("." + tail);
    }
  }

  /** The outcome of the compositor: a missing theme is reported whatever the digits; otherwise the
      first digit without an asset is reported; otherwise it succeeds. */
  lemma StaticCounterOutcome(number: string, themeName: string, root: Root, outDir: string,
                             filename: Option<string>)
    ensures var r := StaticCounter(number, themeName, root, outDir, filename);
      FindEntry(root, themeName).None? ==> r == Err(ThemeNotFound(themeName))
    ensures var r := StaticCounter(number, themeName, root, outDir, filename);
      var files := FilesOf(FindEntry(root, themeName));
      r.Ok? <==> FindEntry(root, themeName).Some? && AllResolved(files, number)
    ensures var r := StaticCounter(number, themeName, root, outDir, filename);
      var files := FilesOf(FindEntry(root, themeName));
      r.Err? && FindEntry(root, themeName).Some? ==>
        exists i :: 0 <= i < |number| && r.error == DigitImageMissing(themeName, number[i]) &&
          Resolve(files, number[i]).None? &&
          forall j :: 0 <= j < i ==> Resolve(files, number[j]).Some?
    ensures var r := StaticCounter(number, themeName, root, outDir, filename);
      r.Ok? ==> r.value.path == OutPath(outDir, BaseName(number, filename) + ".svg")
  {
    var files := FilesOf(FindEntry(root, themeName));
    var m := FirstUnresolved(files, number);
    if FindEntry(root, themeName).Some? && m.Some? {
      assert StaticCounter(number, themeName, root, outDir, filename).error ==
        DigitImageMissing(themeName, number[m.value]);
    }
  }

  /** The tallest recorded height bounds every position's and, on a non-empty string, is attained. */
  lemma {:induction false} MaxHeightSpec(number: string, info: map<char, DigitInfo>)
    requires Covers(info, number)
    ensures forall i :: 0 <= i < |number| ==> info[number[i]].height <= MaxHeight(number, info)
    ensures number == [] ==> MaxHeight(number, info) == 0
    ensures number != [] ==>
      exists i :: 0 <= i < |number| && info[number[i]].height == MaxHeight(number, info)
  {
    if number != [] {
      var n := |number| - 1;
      var p := number[..n];
      assert forall c :: c in p ==> c in number;
      MaxHeightSpec(p, info);
      assert forall i :: 0 <= i < n ==> p[i] == number[i];
    }
  }

  /** The running width never decreases along the string. */
  lemma {:induction false} TotalWidthMonotone(number: string, info: map<char, DigitInfo>, i: nat)
    requires Covers(info, number) && i <= |number|
    ensures Covers(info, number[..i])
    ensures TotalWidth(number[..i], info) <= TotalWidth(number, info)
    decreases |number| - i
  {
    assert forall c :: c in number[..i] ==> c in number;
    if i < |number| {
      TotalWidthStep(number, info, i);
      TotalWidthMonotone(number, info, i + 1);
    } else {
      assert number[..i] == number;
    }
  }

  /** One placement per position, left to right: each references its own digit's definition and
      is delayed by its position in tenths of a second. */
  lemma LayoutUses(number: string, info: map<char, DigitInfo>)
    requires Covers(info, number)
    ensures var svg := Layout(number, info);
      |svg.uses| == |number| &&
      forall i :: 0 <= i < |number| ==>
        svg.uses[i].digit == number[i] && svg.uses[i].Href() == "#d" + [number[i]] &&
        svg.uses[i].delayTenths == i
  {
  }

  /** The placements tile the canvas: the first starts at 0, each starts where the one before it
      ends, every one fits in the width, and the last ends exactly at the width. */
  lemma LayoutTiling(number: string, info: map<char, DigitInfo>)
    requires Covers(info, number)
    ensures var svg := Layout(number, info);
      number != [] ==> svg.uses[0].x == 0
    ensures var svg := Layout(number, info);
      forall i :: 0 <= i < |number| - 1 ==> svg.uses[i + 1].x == svg.uses[i].x + info[number[i]].width
    ensures var svg := Layout(number, info);
      forall i :: 0 <= i < |number| ==> svg.uses[i].x + info[number[i]].width <= svg.width
    ensures var svg := Layout(number, info);
      number != [] ==> svg.uses[|number| - 1].x + info[number[|number| - 1]].width == svg.width
    ensures number == [] ==> Layout(number, info).width == 0
  {
    var svg := Layout(number, info);
    forall i | 0 <= i < |number|
      ensures svg.uses[i].x + info[number[i]].width == TotalWidth(number[..i + 1], info)
      ensures svg.uses[i].x + info[number[i]].width <= svg.width
    {
      TotalWidthStep(number, info, i);
      TotalWidthMonotone(number, info, i + 1);
    }
    if number != [] {
      assert number[..0] == [];
      assert number[..|number|] == number;
    }
  }

  /** Each placement is centred vertically: its offset is the lower half of the free space, which
      is never negative and never pushes the image below the canvas. */
  lemma LayoutCentering(number: string, info: map<char, DigitInfo>)
    requires Covers(info, number)
    ensures var svg := Layout(number, info);
      forall i :: 0 <= i < |number| ==>
        var h := info[number[i]].height;
        && 0 <= svg.uses[i].y
        && svg.uses[i].y + h <= svg.height
        && 2 * svg.uses[i].y <= svg.height - h <= 2 * svg.uses[i].y + 1
    ensures var svg := Layout(number, info);
      forall i :: 0 <= i < |number| ==> info[number[i]].height <= svg.height
    ensures var svg := Layout(number, info);
      number != [] ==> exists i :: 0 <= i < |number| && info[number[i]].height == svg.height
  {
    MaxHeightSpec(number, info);
  }

  /** One definition per distinct digit, in order of first appearance, each carrying that digit's
      size and the data URI of its file; no two share an id. */
  lemma LayoutDefs(number: string, info: map<char, DigitInfo>)
    requires Covers(info, number)
    ensures var defs := Layout(number, info).defs;
      forall c :: c in number <==> exists k :: 0 <= k < |defs| && defs[k].digit == c
    ensures var defs := Layout(number, info).defs;
      forall k, m :: 0 <= k < m < |defs| ==> defs[k].Id() != defs[m].Id()
    ensures var defs := Layout(number, info).defs;
      forall k, m :: 0 <= k < m < |defs| ==>
        FirstIndex(number, defs[k].digit) < FirstIndex(number, defs[m].digit)
    ensures var defs := Layout(number, info).defs;
      forall k :: 0 <= k < |defs| ==>
        var d := defs[k].digit;
        d in info && defs[k] == ImageDef(d, info[d].width, info[d].height, ImageToDataUri(info[d].file))
  {
    var order := Distinct(number);
    var defs := Layout(number, info).defs;
    DistinctSpec(number);
    DistinctFirstAppearanceOrder(number);
    assert forall k :: 0 <= k < |defs| ==> defs[k].digit == order[k];
    forall c | c in number
      ensures exists k :: 0 <= k < |defs| && defs[k].digit == c
    {
      var k :| 0 <= k < |order| && order[k] == c;
      assert defs[k].digit == c;
    }
    forall k, m | 0 <= k < m < |defs|
      ensures defs[k].Id() != defs[m].Id()
    {
      assert defs[k].Id()[1] == order[k] && defs[m].Id()[1] == order[m];
    }
  }

  /** Every placement's reference names a definition of its own digit. */
  lemma UsesReferenceDefs(number: string, info: map<char, DigitInfo>)
    requires Covers(info, number)
    ensures var svg := Layout(number, info);
      forall i :: 0 <= i < |svg.uses| ==>
        svg.uses[i].digit in number &&
        exists k :: 0 <= k < |svg.defs| && svg.defs[k].digit == svg.uses[i].digit &&
          svg.uses[i].Href() == "#" + svg.defs[k].Id()
  {
    var svg := Layout(number, info);
    var order := Distinct(number);
    DistinctSpec(number);
    forall i | 0 <= i < |svg.uses|
      ensures svg.uses[i].digit in number
      ensures exists k :: 0 <= k < |svg.defs| && svg.defs[k].digit == svg.uses[i].digit &&
                          svg.uses[i].Href() == "#" + svg.defs[k].Id()
    {
      assert svg.uses[i] == UseAt(number, info, svg.height, i);
      assert number[i] in number;
      var k :| 0 <= k < |order| && order[k] == number[i];
      assert svg.defs[k] == DefOf(info, number[i]);
      assert "#" + svg.defs[k].Id() == svg.uses[i].Href();
    }
  }
}
