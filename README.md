# Digit-counter image generator, modelled in Dafny

The generator turns a string of digits into an image of that number drawn with a theme. Each
theme is a directory with one picture per digit. There are two compositors and one front end:

- **Static compositor** (png.py).
  - It finds each digit's picture under `.png`, `.gif`, `.jpg` and `.jpeg`, in that order.
  - It writes one SVG:
    - a `<defs>` block with one base64 data-URI `<image>` per distinct digit, in order of first appearance;
    - one `<use>` per position, laid out left to right, centred vertically, and delayed by a tenth of a second per position.
- **Animated compositor** (gif.py).
  - It opens `<digit>.gif` for each position.
  - It merges the GIFs frame by frame. There are as many output frames as the longest GIF; a shorter GIF cycles `f mod n`.
  - It re-times the result with a speed multiplier, which divides each digit's first-frame duration. The output uses the shortest of these adjusted durations.
  - It writes the GIF and an SVG wrapper that embeds it.
- **Registry** (Generator.py).
  - Its constructor scans the themes directory. A theme is a sub-directory whose dotted files share one lower-cased extension, and that extension is not empty.
  - `generate_counter` dispatches `.gif` themes to the animated compositor at its default multiplier 0.5. It dispatches every other theme to the static one.
- **Front end** (main.py).
  - It checks that the number is at most 1000 digits.
  - It turns a 1-based menu choice into a theme.
  - It builds the output file name `<first ten digits>_<theme>`.

The file system is a value, modelled in `FileSystem`:
- The themes root is a listing of entries, each a directory of files or a plain file.
- A file carries its decoded image: width, height, and a non-empty list of frames, each with an optional duration.
- Output is a value too. Each compositor returns `Result<...>`, holding the error it would raise or a description of the files it would write.

Modules:
- `Seqs` — minimum and first-appearance deduplication (the key order of a Python dict).
- `Paths` — ASCII `lower()`, `PurePath.suffix`, `stem` and `with_suffix`, and the output names.
- `DataUris` — the MIME table of `_image_to_data_uri`.
- `StaticCompositor` and `AnimatedCompositor` — the two compositors. Each has:
  - a specification function (`StaticCounter`, `GifCounter`);
  - imperative methods with the source's loops, proved equal to that function (`GenerateSvgCounter`, `GenerateGifCounter`);
  - lemmas about the specification.
  - `GifCounter` follows gif.py as written, including the output paths that `with_suffix` gives. `GifCounterCorrected` differs from it only in the paths (see "## Findings"). `Registry` dispatches to `GifCounter`.
- `Registry` — the `CounterGenerator` class, whose field `themes` is a `map` and whose field `order` is its key order.
- `Cli` — the front-end checks.

Behaviour of the code worth knowing:
- The output has as many frames as the longest GIF (`max` of the frame counts, cycled by modulo), not their least common multiple.
- A directory qualifies as a theme only through `glob('*.*')`. So only names containing a dot count. A directory whose common extension is empty, for example files named `a.`, is dropped by the truthiness test `if theme_type:`.
- The animated compositor never checks that the theme directory exists. A missing theme shows up as the first digit's GIF being missing, or as an error for an empty digit string.

## Model

| member | source | states |
|---|---|---|
| Seqs.MinSpec | gif.py:111 | `min` of a non-empty list is below every element and is one of them |
| Seqs.DistinctSpec | png.py:49-53 | the dict's keys after assigning each digit in turn are exactly the digits, each once |
| Seqs.DistinctFirstAppearanceOrder | png.py:79 | the keys come in increasing order of each digit's first position in the string |
| Paths.LowerSpec | png.py:14 | lower-casing keeps the length and maps each character independently |
| Paths.SuffixSpec | png.py:14 | a non-empty suffix starts at a dot, holds no other dot, is shorter than the name, and ends it |
| Paths.SuffixOfDotted | png.py:14 | `stem.tail` with a dot-free tail has suffix `.tail` |
| Paths.WithSuffixSpec | gif.py:103-104 | for a non-empty name and a suffix `.tail` with a dot-free `tail`, the result's suffix is `.tail` and its stem is the name's stem: an old suffix is replaced |
| Paths.BaseName | png.py:99-102 | a given non-empty file name is the base name; otherwise it is `counter_<number>` |
| Paths.GifPaths | gif.py:103-104 | corrected: both paths are in the output directory and are the base name followed by `.gif` and `.svg` |
| Paths.AsWrittenSharesStem | gif.py:103-104 | as written, the two paths are the base name's stem followed by `.gif` and `.svg` |
| Paths.AsWrittenAgreesWithoutSuffix | gif.py:103-104 | a base name without a suffix gets identical paths as written and corrected |
| Paths.DottedBaseLosesSuffix | gif.py:103-104 | as written, base name `7_v1.2` becomes `7_v1.gif` and `7_v1.svg`, while the static SVG is `7_v1.2.svg` |
| Paths.GifSvgMatchesStaticPath | gif.py:96-104 | corrected, the animated SVG has the same path the static compositor gives the same request |
| FileSystem.FindFileSpec | png.py:45-46 | a file is found exactly when one has that exact name, and the first such file's image is returned |
| FileSystem.FindEntry | png.py:32-34 | a theme entry is found exactly when the listing has that name, and it is an entry of the listing |
| DataUris.MimeTypeSpec | png.py:15-20 | JPEG exactly for `.jpg` and `.jpeg`, GIF exactly for `.gif`, and PNG for `.png` and for every unlisted extension |
| DataUris.MimeOfDottedName | png.py:14-21 | a file `stem.tail` is typed by its lower-cased tail, and the URI embeds that file |
| StaticCompositor.FindDigitFileSpec | png.py:44-56 | the search returns the first extension whose `<digit><ext>` exists, with its image, or nothing when none exists |
| StaticCompositor.FindAsset | png.py:44-58 | the inner `for ext` loop with its `else` is that first-match search |
| StaticCompositor.ResolveSpec | png.py:44-53 | a digit resolves exactly when one of its four files exists; then it records the first such file and its image's size |
| StaticCompositor.ExtensionMime | png.py:15-20 | a digit file found under the j-th extension is embedded as PNG, GIF, JPEG or JPEG respectively |
| StaticCompositor.FirstUnresolved | png.py:57-58 | reports nothing exactly when every digit resolves; otherwise the first position that does not |
| StaticCompositor.InfoMap | png.py:49-53 | `digit_info` has exactly the digits of the number as keys, each with what the lookup found |
| StaticCompositor.CollectDigits | png.py:42-58 | the first loop stops at the first unresolved digit; otherwise it leaves the dict, its key order, the summed width and the maximum height as specified |
| StaticCompositor.EmitDefs | png.py:78-82 | one definition per key, in key order, with the digit's size and data URI |
| StaticCompositor.EmitUses | png.py:85-93 | one placement per position, at the running `x` and the centred `y` |
| StaticCompositor.GenerateSvgCounter | png.py:32-111 | the method with the source's loops returns exactly the specified outcome |
| StaticCompositor.StaticCounterOutcome | png.py:32-58 | a missing theme is reported first; success holds iff the theme exists and every digit resolves; otherwise the first unresolved digit is reported; the output is `<base>.svg` |
| StaticCompositor.MaxHeightSpec | png.py:55 | the canvas height bounds every digit's height, is 0 for an empty number, and is attained otherwise |
| StaticCompositor.TotalWidthMonotone | png.py:54 | the running width never decreases along the string |
| StaticCompositor.LayoutUses | png.py:86-92 | one `<use>` per position, referencing `#d<digit>`, delayed by its position in tenths of a second |
| StaticCompositor.LayoutTiling | png.py:85-93 | placements start at 0, each starts where the previous ends, all fit, the last ends at the width, and an empty number gives width 0 |
| StaticCompositor.LayoutCentering | png.py:88 | each `y` is the floor of half the free height: never negative, never off the canvas; the tallest digit fills the height |
| StaticCompositor.LayoutDefs | png.py:79-81 | one definition per distinct digit, with distinct ids, in first-appearance order, carrying the digit's size and data URI |
| StaticCompositor.UsesReferenceDefs | png.py:79-92 | every placement's reference names the id of a definition of its own digit |
| AnimatedCompositor.FirstMissingGif | gif.py:49-52 | reports nothing exactly when every digit has its `<digit>.gif`; otherwise the first position that lacks one |
| AnimatedCompositor.CollectGifs | gif.py:48-59 | the first loop stops at the first missing GIF; otherwise it holds every digit's GIF, the summed width and the maximum height |
| AnimatedCompositor.ComposeFrame | gif.py:72-91 | the inner loop builds output frame `f` and, in frame 0 only, one adjusted duration per GIF |
| AnimatedCompositor.ComposeFrames | gif.py:69-93 | the outer loop builds every output frame and frame 0's durations |
| AnimatedCompositor.GenerateGifCounter | gif.py:40-111 | the method with the source's loops returns exactly `GifCounter`, the paths `with_suffix` gives included |
| AnimatedCompositor.GifCounterOutcome | gif.py:40-66 | `NonPositiveSpeed` iff the multiplier is not positive; otherwise a missing GIF gives `DigitGifMissing` of the first digit lacking one; an empty string fails; success iff none of these |
| AnimatedCompositor.CanvasWidthSpec | gif.py:58 | each GIF ends within the canvas width and the last ends at it |
| AnimatedCompositor.CanvasHeightSpec | gif.py:59 | the canvas is as tall as the tallest GIF: no GIF is taller, one is exactly that tall |
| AnimatedCompositor.FrameCountSpec | gif.py:66 | the frame count is the longest GIF's: none has more frames, one has exactly that many |
| AnimatedCompositor.TimelineCycling | gif.py:69-76 | one output frame per index below the frame count, each with every digit, and digit `k` shows its source frame `f mod n_k` |
| AnimatedCompositor.LongestDigitNotCycled | gif.py:75 | a digit with the most frames shows its own frame `f` at output frame `f` |
| AnimatedCompositor.FrameTiling | gif.py:72-86 | within an output frame the GIFs are pasted at the top, left to right, from 0 to the canvas width |
| AnimatedCompositor.TimelineTiling | gif.py:69-86 | every output frame tiles the canvas that way |
| AnimatedCompositor.DurationsSpec | gif.py:88-91 | each digit's duration is its first frame's duration, 100 ms when absent, adjusted |
| AnimatedCompositor.ComposeDuration | gif.py:111 | the output's one duration is at most every adjusted duration and equals one of them |
| AnimatedCompositor.DurationsOnlyFirstFrames | gif.py:88-89 | only frame 0 durations are read: GIFs agreeing on them give the same durations |
| AnimatedCompositor.AdjustedSpec | gif.py:90 | the adjusted duration is the truncated quotient of the duration by the multiplier |
| AnimatedCompositor.AdjustedAntitone | gif.py:90 | a larger multiplier never gives a longer duration |
| AnimatedCompositor.AdjustedAgainstOriginal | gif.py:90 | a multiplier of at least 1 never lengthens a frame; one of at most 1 never shortens it; the default 0.5 doubles it |
| AnimatedCompositor.ComposeWrapper | gif.py:103-128 | the frames and canvas are as specified; the GIF and SVG are the base name's stem followed by `.gif` and `.svg`; the SVG and its image have the canvas size and embed the GIF as `data:image/gif;base64,` |
| AnimatedCompositor.GifCounterCorrectedSpec | gif.py:96-104 | corrected: the same errors and animation as written; the SVG has the static compositor's path and the GIF is `<base>.gif` beside it; both agree when the base name has no suffix |
| AnimatedCompositor.GifCounterPaths | gif.py:96-104 | a request whose digits all have GIFs succeeds, as written at the `with_suffix` paths and corrected at the appended ones |
| AnimatedCompositor.DottedBaseGifCounter | gif.py:103-104 | as written, a file name `stem.tail` (such as `7_v1.2`) gives `stem.gif` and `stem.svg`; corrected, `stem.tail.gif` and `stem.tail.svg` |
| AnimatedCompositor.UniformDigits | gif.py:66-111 | GIFs with `n` frames each and one first-frame duration give `n` frames at that duration adjusted; 100 ms at multiplier 2 gives 50 ms |
| Registry.GlobSpec | Generator.py:28 | the matched names are exactly the directory's names that contain a dot |
| Registry.ThemeFileTypeSpec | Generator.py:26-34 | the type is `t` iff some name matches and all matched names have extension `t`; there is no type iff nothing matches or two extensions differ |
| Registry.ThemesMembers | Generator.py:19-23 | a name is registered iff some directory of that name qualifies |
| Registry.ThemesValues | Generator.py:19-23 | with unique names, each qualifying directory is registered with its own type |
| Registry.ThemeOrderSpec | Generator.py:18-24 | the key order lists every registered name exactly once |
| Registry.AvailableThemes | Generator.py:16-24 | the scanning loop builds exactly the registry and its key order |
| Registry.CounterGenerator.constructor | Generator.py:10-14 | a new generator's registry is the one built from the listing |
| Registry.CounterGenerator.DispatchSpec | Generator.py:42-51 | `UnknownTheme` iff the name is unregistered; a `.gif` theme gets the animated outcome at multiplier 1/2; any other theme gets the static outcome |
| Registry.RegisteredDirectory | Generator.py:19-23 | with unique names, a registered theme's lookup finds its directory, whose files have the registered type |
| Registry.RegisteredThemeResolves | Generator.py:44-51 | a registered theme never fails as missing or unknown, nor for the multiplier |
| Registry.UpperCaseGifTheme | Generator.py:31-33 | a theme of `0.GIF` registers as `.gif`, yet with exact name matching its digit `0` is reported missing |
| Cli.IsDigitStringSpec | main.py:27 | the recursive check is "non-empty, and every character is `0`..`9`" |
| Cli.ValidateNumber | main.py:24-32 | accepts iff the input is non-empty, all ASCII digits, and at most 1000 long |
| Cli.GenerateOutputFilename | main.py:18-22 | the name is the number's first ten characters (all of a shorter one), `_`, then the theme name |
| Cli.SelectTheme | main.py:41-48 | accepts iff the input parses and 1 <= choice <= number of themes, giving the choice-th key; otherwise `InvalidThemeChoice` |
| Cli.MenuOffersRegisteredThemes | main.py:45 | every accepted choice names a registered theme; every registered theme has a choice; distinct choices give distinct themes |
| Cli.AcceptedRequest | main.py:41-48 | a request the front end accepts uses its own file name as base name and never fails as unknown, for an empty number or for the multiplier; with unique names, never as missing either |
| Cli.DottedThemeLosesSuffix | main.py:18-22 | a theme named `stem.tail` gives a file name with suffix `.tail`, so the animated paths as written differ from the corrected ones |

## Left out

- Pixel work is not modelled: decoding, RGBA conversion, palette mode, transparent pasting, and the GIF encoder's options (`loop`, `optimize`, `transparency`, `disposal`). A frame is a token; a placement records which frame goes where.
- Base64 and file contents: a data URI is its MIME type plus the name of the embedded file.
- The multiplier is a rational `num/den` rather than a float. The `float()` coercion of non-numeric input is not modelled, and neither is float rounding in `int(original / speed)`.
- File-system effects: `mkdir` of the output directory, the writes, and the `open` of each file. `iterdir()` on a missing themes root is left out, because the listing is an input.
- The order of `iterdir()` and `glob()` is the listing's order. The theme type does not depend on that order (see `ThemeFileTypeSpec`).
- Entries inside a theme directory are files only. File names are final path components; separators inside names and sub-directories matched by `glob` are not modelled.
- The fixed `<style>` block of the static SVG, the XML text, and the formatting of `animation-delay` seconds (kept as tenths).
- The commented-out markdown output at the end of gif.py (dead code inside a string).
- `list_themes` printing and all `input()`/`print()` in main.py. The parse of `int(theme_choice)` is an `Option<int>`, and the output-path prompt with its default directory is out of scope.
- `str.isdigit()` also accepts non-ASCII digits, and `str.lower()` lower-cases non-ASCII letters. The model covers ASCII only.
- File names are matched exactly, as on a case-sensitive file system.
- `Image.open` failing on an unreadable file is not modelled; every listed file decodes.
- `gif.seek` state is not modelled; each output frame reads the source frame it needs directly.
- AnimatedCompositor.TimelineCycling: it does not state separately that `f mod n_k` is below `n_k`. That bound is implied only by the lemma's well-formedness.

## Findings

| source | as written | input that shows it | evidently intended | confidence | as-written member | corrected member |
|---|---|---|---|---|---|---|
| gif.py:103-104 | `base_path.with_suffix('.gif')` replaces any suffix the base name already has | file name `7_v1.2`, as main.py builds for number `7` and a theme named `v1.2`: the outputs are `7_v1.gif` and `7_v1.svg` | append `.gif`/`.svg` to the base name, as png.py:100 does (`7_v1.2.gif`, `7_v1.2.svg`) | not executed | AnimatedCompositor.DottedBaseGifCounter | AnimatedCompositor.GifCounterCorrectedSpec |
