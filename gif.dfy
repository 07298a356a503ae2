/** The animated compositor of gif.py: one `<digit>.gif` per position, merged frame by frame into
    a single animation, plus an SVG wrapper that embeds it. */
module AnimatedCompositor {
  import opened Outcomes
  import opened Seqs
  import opened FileSystem
  import opened Paths
  import opened DataUris

  type Positive = n: int | n > 0 witness 1

  /** The speed multiplier as the rational `num / den`. */
  datatype Speed = Speed(num: int, den: Positive)

  /** The default multiplier 0.5 of `_generate_gif_counter`. */
  const DefaultSpeed: Speed := Speed(1, 2)

  /** The duration PIL reports for a frame, 100 ms when the file gives none. */
  function DurationOf(f: SourceFrame): nat
  {
    match f.duration
    case Some(d) => d
    case None => 100
  }

  /** `int(original / speed)`: the duration divided by the multiplier, truncated. */
  function Adjusted(original: nat, speed: Speed): nat
    requires speed.num > 0
  {
    original * speed.den / speed.num
  }

  /** One digit's image placed in an output frame: the source frame it shows and where. */
  datatype Placement = Placement(frame: Frame, x: nat, y: nat)

  /** The SVG wrapper: an `<svg>` of the canvas size holding one `<image>` of that size whose
      reference is the GIF file as a `data:image/gif;base64,` URI. */
  datatype GifSvg = GifSvg(width: nat, height: nat, imageWidth: nat, imageHeight: nat, image: DataUri)

  /** What the compositor writes: the canvas size, the output frames, the one duration applied to
      every frame, and the two paths with the SVG written to the second. */
  datatype GifOutput = GifOutput(width: nat, height: nat, frames: seq<seq<Placement>>,
                                 duration: nat, gifPath: OutPath, svgPath: OutPath, svg: GifSvg)

  /** The file a digit needs. */
  function GifName(digit: char): string
  {
    [digit] + ".gif"
  }

  predicate HasGif(files: seq<File>, digit: char)
  {
    FindFile(files, GifName(digit)).Some?
  }

  /** The position of the first digit whose GIF is missing. */
  function FirstMissingGif(files: seq<File>, number: string): (r: Option<nat>)
    ensures r.None? <==> forall j :: 0 <= j < |number| ==> HasGif(files, number[j])
    ensures r.Some? ==>
      && r.value < |number|
      && !HasGif(files, number[r.value])
      && forall j :: 0 <= j < r.value ==> HasGif(files, number[j])
  {
    if number == [] then None
    else if !HasGif(files, number[0]) then Some(0)
    else
      match FirstMissingGif(files, number[1..])
      case None => None
      case Some(i) => Some(i + 1)
  }

  /** `digit_gifs`: the opened GIF of each position, repeats included. */
  function Gifs(files: seq<File>, number: string): seq<Image>
    requires forall j :: 0 <= j < |number| ==> HasGif(files, number[j])
  {
    if number == [] then []
    else
      var n := |number| - 1;
      assert HasGif(files, number[n]);
      Gifs(files, number[..n]) + [FindFile(files, GifName(number[n])).value]
  }

  /** `max_width`: the widths of all GIFs side by side. */
  function CanvasWidth(gifs: seq<Image>): nat
  {
    if gifs == [] then 0 else CanvasWidth(gifs[..|gifs| - 1]) + gifs[|gifs| - 1].width
  }

  /** `max_height`: the tallest GIF, starting from 0. */
  function CanvasHeight(gifs: seq<Image>): nat
  {
    if gifs == [] then 0
    else
      var h := CanvasHeight(gifs[..|gifs| - 1]);
      if gifs[|gifs| - 1].height > h then gifs[|gifs| - 1].height else h
  }

  /** `n_frames`: the largest frame count among the GIFs. */
  function FrameCount(gifs: seq<Image>): nat
  {
    if gifs == [] then 0
    else
      var n := FrameCount(gifs[..|gifs| - 1]);
      if |gifs[|gifs| - 1].frames| > n then |gifs[|gifs| - 1].frames| else n
  }

  /** `durations`: each GIF's first-frame duration, adjusted by the multiplier, in string order. */
  function Durations(gifs: seq<Image>, speed: Speed): (d: seq<nat>)
    requires speed.num > 0
    ensures |d| == |gifs|
  {
    if gifs == [] then []
    else
      var n := |gifs| - 1;
      Durations(gifs[..n], speed) + [Adjusted(DurationOf(gifs[n].frames[0]), speed)]
  }

  /** Where digit `k` goes in output frame `f`: its source frame `f mod n_k`, after the widths of
      the digits before it, at the top. */
  function PlacementAt(gifs: seq<Image>, f: nat, k: nat): Placement
    requires k < |gifs|
  {
    var src := gifs[k].frames;
    Placement(src[f % |src|].content, CanvasWidth(gifs[..k]), 0)
  }

  /** Output frame `f`: every digit's placement, in string order. */
  function OutputFrame(gifs: seq<Image>, f: nat): seq<Placement>
  {
    seq(|gifs|, k requires 0 <= k < |gifs| => PlacementAt(gifs, f, k))
  }

  /** The output frames: one per index below the largest frame count. */
  function Timeline(gifs: seq<Image>): seq<seq<Placement>>
  {
    seq(FrameCount(gifs), f requires 0 <= f => OutputFrame(gifs, f))
  }

  /** The merged animation for a non-empty list of GIFs. */
  function Compose(gifs: seq<Image>, speed: Speed, paths: (OutPath, OutPath)): GifOutput
    requires gifs != [] && speed.num > 0
  {
    var w, h := CanvasWidth(gifs), CanvasHeight(gifs);
    GifOutput(w, h, Timeline(gifs),
              Min(Durations(gifs, speed)), paths.0, paths.1,
              GifSvg(w, h, w, h, DataUri("image/gif", paths.0.name)))
  }

  /** The error `_generate_gif_counter` raises, or the files it writes at `paths`. */
  function GifOutcome(number: string, themeName: string, root: Root, speed: Speed,
                      paths: (OutPath, OutPath)): Result<GifOutput>
  {
    if speed.num <= 0 then Err(NonPositiveSpeed)
    else
      var files := FilesOf(FindEntry(root, themeName));
      match FirstMissingGif(files, number)
      case Some(i) => Err(DigitGifMissing(number[i]))
      case None =>
        if number == [] then Err(NoDigits)
        else Ok(Compose(Gifs(files, number), speed, paths))
  }

  /** `_generate_gif_counter` as written: the output paths come from `with_suffix` on the base name. */
  function GifCounter(number: string, themeName: string, root: Root, outDir: string,
                      filename: Option<string>, speed: Speed): Result<GifOutput>
  {
    GifOutcome(number, themeName, root, speed, GifPathsAsWritten(outDir, BaseName(number, filename)))
  }

  /** The compositor with `.gif` and `.svg` appended to the base name, as the static compositor
      appends `.svg`; it differs from `GifCounter` only in the paths. */
  function GifCounterCorrected(number: string, themeName: string, root: Root, outDir: string,
                               filename: Option<string>, speed: Speed): Result<GifOutput>
  {
    GifOutcome(number, themeName, root, speed, GifPaths(outDir, BaseName(number, filename)))
  }

  /** The first loop: opens each digit's GIF in turn, keeping the running width and the maximum
      height, or stops at the first digit whose GIF is missing. */
  method CollectGifs(files: seq<File>, number: string)
    returns (missing: Option<nat>, gifs: seq<Image>, maxWidth: nat, maxHeight: nat)
    ensures missing == FirstMissingGif(files, number)
    ensures missing.None? ==>
      && (forall j :: 0 <= j < |number| ==> HasGif(files, number[j]))
      && gifs == Gifs(files, number)
      && maxWidth == CanvasWidth(gifs) && maxHeight == CanvasHeight(gifs)
  {
    gifs, maxWidth, maxHeight := [], 0, 0;
    var i := 0;
    ghost var done: string := [];
    while i < |number|
      invariant 0 <= i <= |number|
      invariant done == number[..i]
      invariant forall j :: 0 <= j < i ==> HasGif(files, number[j])
      invariant gifs == Gifs(files, done)
      invariant maxWidth == CanvasWidth(gifs) && maxHeight == CanvasHeight(gifs)
    {
      var digit := number[i];
      var gif := FindFile(files, GifName(digit));
      if gif.None? {
        return Some(i), gifs, maxWidth, maxHeight;
      }
      GifsStep(files, done, digit);
      ImagesStep(gifs, gif.value);
      gifs := gifs + [gif.value];
      maxWidth := maxWidth + gif.value.width;
      maxHeight := if gif.value.height > maxHeight then gif.value.height else maxHeight;
      TakeStep(number, i);
      done := done + [digit];
      i := i + 1;
    }
    assert done == number;
    missing := None;
  }

  /** The inner loop for output frame `f`: pastes every GIF's current frame at the running offset
      and, in frame 0 only, records each GIF's adjusted duration. */
  method ComposeFrame(gifs: seq<Image>, f: nat, speed: Speed)
    returns (frame: seq<Placement>, durations: seq<nat>)
    requires speed.num > 0
    ensures frame == OutputFrame(gifs, f)
    ensures durations == if f == 0 then Durations(gifs, speed) else []
  {
    frame, durations := [], [];
    var xOffset: nat := 0;
    var k := 0;
    while k < |gifs|
      invariant 0 <= k <= |gifs|
      invariant |frame| == k
      invariant forall m :: 0 <= m < k ==> frame[m] == PlacementAt(gifs, f, m)
      invariant xOffset == CanvasWidth(gifs[..k])
      invariant durations == if f == 0 then Durations(gifs[..k], speed) else []
    {
      var gif := gifs[k];
      var current := f % |gif.frames|;
      frame := frame + [Placement(gif.frames[current].content, xOffset, 0)];
      PrefixStep(gifs, k, speed);
      xOffset := xOffset + gif.width;
      if f == 0 {
        durations := durations + [Adjusted(DurationOf(gif.frames[0]), speed)];
      }
      k := k + 1;
    }
    assert gifs[..k] == gifs;
  }

  /** The outer loop: one output frame per index below `nFrames`, and the durations of frame 0. */
  method ComposeFrames(gifs: seq<Image>, nFrames: nat, speed: Speed)
    returns (frames: seq<seq<Placement>>, durations: seq<nat>)
    requires speed.num > 0
    ensures |frames| == nFrames
    ensures forall f :: 0 <= f < nFrames ==> frames[f] == OutputFrame(gifs, f)
    ensures durations == if nFrames > 0 then Durations(gifs, speed) else []
  {
    frames, durations := [], [];
    var f := 0;
    while f < nFrames
      invariant 0 <= f <= nFrames
      invariant |frames| == f
      invariant forall g :: 0 <= g < f ==> frames[g] == OutputFrame(gifs, g)
      invariant durations == if f > 0 then Durations(gifs, speed) else []
    {
      var frame, ds := ComposeFrame(gifs, f, speed);
      durations := durations + ds;
      frames := frames + [frame];
      f := f + 1;
    }
  }

  /** `_generate_gif_counter` with its loops. */
  method GenerateGifCounter(number: string, themeName: string, root: Root, outDir: string,
                            filename: Option<string>, speed: Speed) returns (r: Result<GifOutput>)
    ensures r == GifCounter(number, themeName, root, outDir, filename, speed)
  {
    if speed.num <= 0 {
      return Err(NonPositiveSpeed);
    }
    var files := FilesOf(FindEntry(root, themeName));
    var missing, gifs, maxWidth, maxHeight := CollectGifs(files, number);
    if missing.Some? {
      return Err(DigitGifMissing(number[missing.value]));
    }
    if gifs == [] {
      assert number == [] by { GifsLength(files, number); }
      return Err(NoDigits);
    }
    GifsLength(files, number);
    var nFrames := FrameCount(gifs);
    FrameCountPositive(gifs);
    var frames, durations := ComposeFrames(gifs, nFrames, speed);
    var paths := GifPathsAsWritten(outDir, BaseName(number, filename));
    var gifPath, svgPath := paths.0, paths.1;
    var svg := GifSvg(maxWidth, maxHeight, maxWidth, maxHeight, DataUri("image/gif", gifPath.name));
    r := Ok(GifOutput(maxWidth, maxHeight, frames, Min(durations), gifPath, svgPath, svg));
    AssembleGif(gifs, speed, paths, frames);
  }

  /** The computed frames and durations make up exactly the specified animation. */
  lemma AssembleGif(gifs: seq<Image>, speed: Speed, paths: (OutPath, OutPath), frames: seq<seq<Placement>>)
    requires gifs != [] && speed.num > 0
    requires |frames| == FrameCount(gifs)
    requires forall f :: 0 <= f < |frames| ==> frames[f] == OutputFrame(gifs, f)
    ensures Compose(gifs, speed, paths) ==
      GifOutput(CanvasWidth(gifs), CanvasHeight(gifs), frames, Min(Durations(gifs, speed)),
                paths.0, paths.1,
                GifSvg(CanvasWidth(gifs), CanvasHeight(gifs), CanvasWidth(gifs), CanvasHeight(gifs),
                       DataUri("image/gif", paths.0.name)))
  {
  }

  // Step lemmas for the loops.

  lemma GifsStep(files: seq<File>, s: string, digit: char)
    requires forall j :: 0 <= j < |s| ==> HasGif(files, s[j])
    requires HasGif(files, digit)
    ensures forall j :: 0 <= j < |s + [digit]| ==> HasGif(files, (s + [digit])[j])
    ensures Gifs(files, s + [digit]) == Gifs(files, s) + [FindFile(files, GifName(digit)).value]
  {
    assert (s + [digit])[..|s|] == s;
  }

  lemma ImagesStep(gifs: seq<Image>, g: Image)
    ensures CanvasWidth(gifs + [g]) == CanvasWidth(gifs) + g.width
    ensures CanvasHeight(gifs + [g]) == if g.height > CanvasHeight(gifs) then g.height else CanvasHeight(gifs)
  {
    assert (gifs + [g])[..|gifs|] == gifs;
  }

  lemma PrefixStep(gifs: seq<Image>, k: nat, speed: Speed)
    requires k < |gifs| && speed.num > 0
    ensures CanvasWidth(gifs[..k + 1]) == CanvasWidth(gifs[..k]) + gifs[k].width
    ensures Durations(gifs[..k + 1], speed) ==
      Durations(gifs[..k], speed) + [Adjusted(DurationOf(gifs[k].frames[0]), speed)]
  {
    assert gifs[..k + 1][..k] == gifs[..k];
  }

  lemma {:induction false} GifsLength(files: seq<File>, number: string)
    requires forall j :: 0 <= j < |number| ==> HasGif(files, number[j])
    ensures |Gifs(files, number)| == |number|
    ensures forall k :: 0 <= k < |number| ==>
      Gifs(files, number)[k] == FindFile(files, GifName(number[k])).value
  {
    if number != [] {
      var n := |number| - 1;
      GifsLength(files, number[..n]);
    }
  }

  lemma FrameCountPositive(gifs: seq<Image>)
    requires gifs != []
    ensures FrameCount(gifs) > 0
  {
  }

  // Properties of the specification.

  /** The outcome of the compositor: a non-positive multiplier is rejected whatever the theme and
      the digits; then the first digit without a GIF is reported; then an empty string fails
      (`max()` of nothing); otherwise it succeeds. */
  lemma GifCounterOutcome(number: string, themeName: string, root: Root, outDir: string,
                          filename: Option<string>, speed: Speed)
    ensures speed.num <= 0 ==>
      GifCounter(number, themeName, root, outDir, filename, speed) == Err(NonPositiveSpeed)
    ensures var r := GifCounter(number, themeName, root, outDir, filename, speed);
      var files := FilesOf(FindEntry(root, themeName));
      r.Err? && r.error.DigitGifMissing? ==>
        speed.num > 0 &&
        exists i :: 0 <= i < |number| && r.error == DigitGifMissing(number[i]) &&
          !HasGif(files, number[i]) && forall j :: 0 <= j < i ==> HasGif(files, number[j])
    ensures speed.num > 0 ==>
      GifCounter(number, themeName, root, outDir, filename, speed) != Err(NonPositiveSpeed)
    ensures var r := GifCounter(number, themeName, root, outDir, filename, speed);
      var files := FilesOf(FindEntry(root, themeName));
      var m := FirstMissingGif(files, number);
      speed.num > 0 && m.Some? ==> m.value < |number| && r == Err(DigitGifMissing(number[m.value]))
    ensures var r := GifCounter(number, themeName, root, outDir, filename, speed);
      r == Err(NoDigits) <==> speed.num > 0 && number == []
    ensures var r := GifCounter(number, themeName, root, outDir, filename, speed);
      var files := FilesOf(FindEntry(root, themeName));
      r.Ok? <==> speed.num > 0 && number != [] && forall j :: 0 <= j < |number| ==> HasGif(files, number[j])
  {
    var files := FilesOf(FindEntry(root, themeName));
    var m := FirstMissingGif(files, number);
    if speed.num > 0 && m.Some? {
      assert GifCounter(number, themeName, root, outDir, filename, speed).error == DigitGifMissing(number[m.value]);
    }
  }

  /** The corrected compositor fails exactly as the one as written does and draws the same
      animation; its SVG lands where the static compositor's would, its GIF beside it, and the
      two agree whenever the base name has no suffix. */
  lemma GifCounterCorrectedSpec(number: string, themeName: string, root: Root, outDir: string,
                                filename: Option<string>, speed: Speed)
    ensures var r := GifCounter(number, themeName, root, outDir, filename, speed);
      var c := GifCounterCorrected(number, themeName, root, outDir, filename, speed);
      && (r.Err? <==> c.Err?)
      && (r.Err? ==> r == c)
      && (c.Ok? ==> c.value.frames == r.value.frames && c.value.duration == r.value.duration)
      && (c.Ok? ==> c.value.svgPath == StaticOutputPath(outDir, number, filename))
      && (c.Ok? ==> c.value.gifPath == OutPath(outDir, BaseName(number, filename) + ".gif"))
      && (Suffix(BaseName(number, filename)) == "" ==> r == c)
  {
    var base := BaseName(number, filename);
    if Suffix(base) == "" {
      AsWrittenAgreesWithoutSuffix(outDir, base);
    }
  }

  /** A request whose digits all have GIFs succeeds, as written and corrected, at the paths each
      definition builds. */
  lemma GifCounterPaths(number: string, themeName: string, root: Root, outDir: string,
                        filename: Option<string>, speed: Speed)
    requires speed.num > 0 && number != []
    requires FirstMissingGif(FilesOf(FindEntry(root, themeName)), number) == None
    ensures var r := GifCounter(number, themeName, root, outDir, filename, speed);
      r.Ok? && (r.value.gifPath, r.value.svgPath) == GifPathsAsWritten(outDir, BaseName(number, filename))
    ensures var c := GifCounterCorrected(number, themeName, root, outDir, filename, speed);
      c.Ok? && (c.value.gifPath, c.value.svgPath) == GifPaths(outDir, BaseName(number, filename))
  {
  }

  /** A file name `stem.tail`, such as `7_v1.2` for theme `v1.2`: as written the outputs are
      `stem.gif` and `stem.svg`, losing `.tail`; corrected they are `stem.tail.gif` and
      `stem.tail.svg`. */
  lemma DottedBaseGifCounter(number: string, themeName: string, root: Root, outDir: string,
                             stem: string, tail: string, speed: Speed)
    requires speed.num > 0 && number != []
    requires FirstMissingGif(FilesOf(FindEntry(root, themeName)), number) == None
    requires stem != [] && tail != [] && forall i :: 0 <= i < |tail| ==> tail[i] != '.'
    ensures var base := stem + "." + tail;
      var r := GifCounter(number, themeName, root, outDir, Some(base), speed);
      var c := GifCounterCorrected(number, themeName, root, outDir, Some(base), speed);
      && r.Ok? && r.value.gifPath.name == stem + ".gif" && r.value.svgPath.name == stem + ".svg"
      && c.Ok? && c.value.gifPath.name == base + ".gif" && c.value.svgPath.name == base + ".svg"
  {
    var base := stem + "." + tail;
    GifCounterPaths(number, themeName, root, outDir, Some(base), speed);
    SuffixOfDotted(stem, tail);
    assert Stem(base) == stem by {
      assert base[..|stem|] == stem;
    }
  }

  /** The canvas is as tall as the tallest GIF: none is taller, one is exactly that tall. */
  lemma {:induction false} CanvasHeightSpec(gifs: seq<Image>)
    ensures forall k :: 0 <= k < |gifs| ==> gifs[k].height <= CanvasHeight(gifs)
    ensures gifs != [] ==> exists k :: 0 <= k < |gifs| && gifs[k].height == CanvasHeight(gifs)
  {
    if gifs != [] {
      var n := |gifs| - 1;
      var p := gifs[..n];
      CanvasHeightSpec(p);
      assert forall k :: 0 <= k < n ==> p[k] == gifs[k];
      if gifs[n].height < CanvasHeight(gifs) {
        assert CanvasHeight(p) == CanvasHeight(gifs) > 0;
        assert p != [];
        var k :| 0 <= k < |p| && p[k].height == CanvasHeight(p);
        assert gifs[k].height == CanvasHeight(gifs);
      } else {
        assert gifs[n].height == CanvasHeight(gifs);
      }
    }
  }

  /** The canvas is as wide as the GIFs side by side: each ends within it, the last at its edge. */
  lemma {:induction false} CanvasWidthSpec(gifs: seq<Image>)
    ensures forall k :: 0 <= k < |gifs| ==> CanvasWidth(gifs[..k]) + gifs[k].width <= CanvasWidth(gifs)
    ensures gifs != [] ==> CanvasWidth(gifs[..|gifs| - 1]) + gifs[|gifs| - 1].width == CanvasWidth(gifs)
  {
    if gifs != [] {
      var n := |gifs| - 1;
      var p := gifs[..n];
      CanvasWidthSpec(p);
      assert forall k :: 0 <= k < n ==> p[k] == gifs[k] && p[..k] == gifs[..k];
    }
  }

  /** The output has as many frames as the longest GIF: no GIF has more, one has exactly that. */
  lemma {:induction false} FrameCountSpec(gifs: seq<Image>)
    ensures forall k :: 0 <= k < |gifs| ==> |gifs[k].frames| <= FrameCount(gifs)
    ensures gifs != [] ==> exists k :: 0 <= k < |gifs| && |gifs[k].frames| == FrameCount(gifs)
  {
    if gifs != [] {
      var n := |gifs| - 1;
      var p := gifs[..n];
      FrameCountSpec(p);
      assert forall k :: 0 <= k < |p| ==> p[k] == gifs[k];
      if |gifs[n].frames| < FrameCount(gifs) {
        assert FrameCount(p) == FrameCount(gifs) > 0;
        assert p != [];
        var k :| 0 <= k < |p| && |p[k].frames| == FrameCount(p);
        assert |gifs[k].frames| == FrameCount(gifs);
      } else {
        assert |gifs[n].frames| == FrameCount(gifs);
      }
    }
  }

  /** Each output frame shows every digit once, in string order, and digit `k` shows its source
      frame `f mod n_k` (an index the ensures itself needs to be in range). */
  lemma TimelineCycling(gifs: seq<Image>)
    ensures |Timeline(gifs)| == FrameCount(gifs)
    ensures forall f :: 0 <= f < |Timeline(gifs)| ==> |Timeline(gifs)[f]| == |gifs|
    ensures forall f, k :: 0 <= f < |Timeline(gifs)| && 0 <= k < |gifs| ==>
      Timeline(gifs)[f][k].frame == gifs[k].frames[f % |gifs[k].frames|].content
  {
    forall f, k | 0 <= f < |Timeline(gifs)| && 0 <= k < |gifs|
      ensures Timeline(gifs)[f][k].frame == gifs[k].frames[f % |gifs[k].frames|].content
    {
      assert Timeline(gifs)[f] == OutputFrame(gifs, f);
      assert Timeline(gifs)[f][k] == PlacementAt(gifs, f, k);
    }
  }

  /** A digit whose GIF has the most frames is never cycled: at output frame `f` it shows its
      own frame `f`. */
  lemma LongestDigitNotCycled(gifs: seq<Image>, f: nat, k: nat)
    requires f < |Timeline(gifs)| && k < |gifs| && |gifs[k].frames| == FrameCount(gifs)
    ensures Timeline(gifs)[f][k].frame == gifs[k].frames[f].content
  {
    TimelineCycling(gifs);
    ModSmall(f, |gifs[k].frames|);
  }

  lemma ModSmall(f: nat, n: nat)
    requires f < n
    ensures f % n == f
  {
  }

  /** A frame whose digits tile the canvas left to right along the top edge: the first at 0,
      each where the one before it ends, every one within the width, the last ending at it. */
  predicate TilesCanvas(gifs: seq<Image>, frame: seq<Placement>)
    requires gifs != []
  {
    && |frame| == |gifs|
    && frame[0].x == 0
    && (forall k :: 0 <= k < |gifs| ==> frame[k].y == 0)
    && (forall k :: 0 <= k < |gifs| - 1 ==> frame[k + 1].x == frame[k].x + gifs[k].width)
    && (forall k :: 0 <= k < |gifs| ==> frame[k].x + gifs[k].width <= CanvasWidth(gifs))
    && frame[|gifs| - 1].x + gifs[|gifs| - 1].width == CanvasWidth(gifs)
  }

  lemma FrameTiling(gifs: seq<Image>, f: nat)
    requires gifs != []
    ensures TilesCanvas(gifs, OutputFrame(gifs, f))
  {
    var frame := OutputFrame(gifs, f);
    forall k | 0 <= k < |gifs|
      ensures frame[k].x == CanvasWidth(gifs[..k]) && frame[k].y == 0
    {
      assert frame[k] == PlacementAt(gifs, f, k);
    }
    forall k | 0 <= k < |gifs| - 1
      ensures frame[k + 1].x == frame[k].x + gifs[k].width
    {
      assert gifs[..k + 1][..k] == gifs[..k];
    }
    CanvasWidthSpec(gifs);
    assert gifs[..0] == [];
  }

  /** Within every output frame the digits tile the canvas. */
  lemma TimelineTiling(gifs: seq<Image>)
    requires gifs != []
    ensures forall f :: 0 <= f < |Timeline(gifs)| ==> TilesCanvas(gifs, Timeline(gifs)[f])
  {
    forall f | 0 <= f < |Timeline(gifs)|
      ensures TilesCanvas(gifs, Timeline(gifs)[f])
    {
      assert Timeline(gifs)[f] == OutputFrame(gifs, f);
      FrameTiling(gifs, f);
    }
  }

  /** One duration per digit: that digit's first-frame duration (100 ms when absent), adjusted. */
  lemma {:induction false} DurationsSpec(gifs: seq<Image>, speed: Speed)
    requires speed.num > 0
    ensures forall k :: 0 <= k < |gifs| ==>
      Durations(gifs, speed)[k] == Adjusted(DurationOf(gifs[k].frames[0]), speed)
  {
    if gifs != [] {
      var p := gifs[..|gifs| - 1];
      DurationsSpec(p, speed);
      assert forall k :: 0 <= k < |p| ==> p[k] == gifs[k];
    }
  }

  /** The one duration of the output is the shortest adjusted duration among the digits. */
  lemma ComposeDuration(gifs: seq<Image>, speed: Speed, paths: (OutPath, OutPath))
    requires gifs != [] && speed.num > 0
    ensures var out := Compose(gifs, speed, paths);
      forall k :: 0 <= k < |gifs| ==> out.duration <= Adjusted(DurationOf(gifs[k].frames[0]), speed)
    ensures var out := Compose(gifs, speed, paths);
      exists k :: 0 <= k < |gifs| && out.duration == Adjusted(DurationOf(gifs[k].frames[0]), speed)
  {
    DurationsSpec(gifs, speed);
    MinSpec(Durations(gifs, speed));
  }

  /** Only frame 0 of each GIF is consulted for durations: GIFs that agree on it agree on the
      durations, whatever their other frames. */
  lemma {:induction false} DurationsOnlyFirstFrames(gifs: seq<Image>, others: seq<Image>, speed: Speed)
    requires speed.num > 0 && |gifs| == |others|
    requires forall k :: 0 <= k < |gifs| ==> gifs[k].frames[0].duration == others[k].frames[0].duration
    ensures Durations(gifs, speed) == Durations(others, speed)
  {
    if gifs != [] {
      var n := |gifs| - 1;
      DurationsOnlyFirstFrames(gifs[..n], others[..n], speed);
    }
  }

  /** `q * b <= a` bounds `q` by the floor of `a / b`. */
  lemma FloorBound(a: int, b: int, q: int)
    requires b > 0 && q * b <= a
    ensures q <= a / b
  {
    if q > a / b {
      assert q * b >= (a / b + 1) * b by {
        assert q >= a / b + 1;
        MulMonotone(a / b + 1, q, b);
      }
    }
  }

  lemma MulMonotone(x: int, y: int, b: int)
    requires x <= y && b >= 0
    ensures x * b <= y * b
  {
  }

  /** The adjusted duration is the floor of `original * den / num`. */
  lemma AdjustedSpec(original: nat, speed: Speed)
    requires speed.num > 0
    ensures var r := Adjusted(original, speed);
      r * speed.num <= original * speed.den < (r + 1) * speed.num
  {
  }

  /** Cancelling a positive factor keeps an inequality. */
  lemma CancelPositive(x: int, y: int, c: int)
    requires c > 0 && x * c <= y * c
    ensures x <= y
  {
    if x > y {
      MulMonotone(y + 1, x, c);
    }
  }

  /** A faster multiplier never lengthens a frame. */
  lemma AdjustedAntitone(original: nat, slow: Speed, fast: Speed)
    requires slow.num > 0 && fast.num > 0
    requires slow.num * fast.den <= fast.num * slow.den
    ensures Adjusted(original, fast) <= Adjusted(original, slow)
  {
    var r := Adjusted(original, fast);
    AdjustedSpec(original, fast);
    ScaledBound(original, slow.num, slow.den, fast.num, fast.den, r);
    FloorBound(original * slow.den, slow.num, r);
  }

  /** From `r * n2 <= a * d2` and `d2 / n2 <= d1 / n1` follows `r * n1 <= a * d1`. */
  lemma ScaledBound(a: nat, n1: int, d1: int, n2: int, d2: int, r: int)
    requires n1 > 0 && n2 > 0 && n1 * d2 <= n2 * d1 && r * n2 <= a * d2
    ensures r * n1 <= a * d1
  {
    MulMonotone(r * n2, a * d2, n1);
    MulMonotone(n1 * d2, n2 * d1, a);
    calc {
      (r * n1) * n2;
      == (r * n2) * n1;
      <= (a * d2) * n1;
      == (n1 * d2) * a;
      <= (n2 * d1) * a;
      == (a * d1) * n2;
    }
    CancelPositive(r * n1, a * d1, n2);
  }

  /** A multiplier of at least 1 never lengthens a frame; one of at most 1 never shortens it; the
      default 0.5 doubles it. */
  lemma AdjustedAgainstOriginal(original: nat, speed: Speed)
    requires speed.num > 0
    ensures speed.num >= speed.den ==> Adjusted(original, speed) <= original
    ensures speed.num <= speed.den ==> Adjusted(original, speed) >= original
    ensures Adjusted(original, DefaultSpeed) == 2 * original
  {
    AdjustedSpec(original, speed);
    var r := Adjusted(original, speed);
    if speed.num >= speed.den && r > original {
      MulMonotone(original + 1, r, speed.num);
      MulMonotone(speed.den, speed.num, original);
    }
    if speed.num <= speed.den && r < original {
      MulMonotone(r + 1, original, speed.num);
      MulMonotone(speed.num, speed.den, original);
    }
  }

  /** The GIF and the SVG share one stem, and the SVG and its image are sized to the canvas and
      embed the GIF file as a GIF data URI. */
  lemma ComposeWrapper(gifs: seq<Image>, speed: Speed, outDir: string, base: string)
    requires gifs != [] && speed.num > 0
    ensures var out := Compose(gifs, speed, GifPathsAsWritten(outDir, base));
      && out.frames == Timeline(gifs)
      && out.width == CanvasWidth(gifs) && out.height == CanvasHeight(gifs)
      && out.gifPath.dir == out.svgPath.dir == outDir
      && out.gifPath.name == Stem(base) + ".gif" && out.svgPath.name == Stem(base) + ".svg"
      && out.svg.width == out.svg.imageWidth == out.width
      && out.svg.height == out.svg.imageHeight == out.height
      && out.svg.image == DataUri("image/gif", out.gifPath.name)
      && Header(out.svg.image) == "data:image/gif;base64,"
  {
  }

  /** Digits whose GIFs all have `n` frames and the same first-frame duration `d` give `n` output
      frames at the adjusted `d`; at multiplier 2, 100 ms become 50 ms. */
  lemma UniformDigits(gifs: seq<Image>, speed: Speed, paths: (OutPath, OutPath), n: nat, d: nat)
    requires gifs != [] && speed.num > 0
    requires forall k :: 0 <= k < |gifs| ==> |gifs[k].frames| == n && DurationOf(gifs[k].frames[0]) == d
    ensures |Compose(gifs, speed, paths).frames| == n
    ensures Compose(gifs, speed, paths).duration == Adjusted(d, speed)
    ensures speed == Speed(2, 1) && d == 100 ==> Compose(gifs, speed, paths).duration == 50
  {
    FrameCountSpec(gifs);
    ComposeDuration(gifs, speed, paths);
    TimelineCycling(gifs);
  }
}
