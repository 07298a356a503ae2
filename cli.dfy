/** The command-line front end of main.py: theme selection, number validation and the output
    file name. */
module Cli {
  import opened Outcomes
  import opened Seqs
  import opened FileSystem
  import opened Paths
  import opened Registry
  import StaticCompositor
  import AnimatedCompositor

  /** `str.isdigit()` over the ASCII digits: a non-empty string of them. */
  predicate IsDigitString(s: string)
  {
    s != [] && '0' <= s[0] <= '9' && (|s| == 1 || IsDigitString(s[1..]))
  }

  lemma {:induction false} IsDigitStringSpec(s: string)
    ensures IsDigitString(s) <==> s != [] && forall i :: 0 <= i < |s| ==> '0' <= s[i] <= '9'
  {
    if |s| > 1 {
      IsDigitStringSpec(s[1..]);
      assert forall i :: 1 <= i < |s| ==> s[i] == s[1..][i - 1];
    }
  }

  /** The longest number accepted. */
  const MaxDigits := 1000

  /** `validate_number`: accepted exactly when the input is a non-empty run of digits no longer
      than the limit. */
  function ValidateNumber(number: string): (ok: bool)
    ensures ok <==> number != [] && |number| <= MaxDigits &&
                    forall i :: 0 <= i < |number| ==> '0' <= number[i] <= '9'
  {
    IsDigitStringSpec(number);
    IsDigitString(number) && |number| <= MaxDigits
  }

  /** `generate_output_filename`: the first ten characters of the number (all of a shorter one),
      an underscore, and the theme's name. */
  function GenerateOutputFilename(number: string, themeName: string): (r: string)
    ensures var k := if |number| < 10 then |number| else 10;
      && |r| == k + 1 + |themeName|
      && r[..k] == number[..k]
      && r[k] == '_'
      && r[k + 1..] == themeName
    ensures |number| <= 10 ==> r == number + "_" + themeName
  {
    var prefix := if |number| > 10 then number[..10] else number;
    prefix + "_" + themeName
  }

  /** The menu choice as `int(theme_choice)` reads it; `None` is input that raises `ValueError`. */
  type Choice = Option<int>

  /** The theme picked by a 1-based menu choice, or `InvalidThemeChoice` for unparsable input,
      for a number below one and for one past the end of the list. */
  function SelectTheme(order: seq<string>, choice: Choice): (r: Result<string>)
    ensures r.Ok? <==> choice.Some? && 1 <= choice.value <= |order|
    ensures r.Ok? ==> r.value == order[choice.value - 1]
    ensures r.Err? ==> r.error == InvalidThemeChoice
  {
    match choice
    case None => Err(InvalidThemeChoice)
    case Some(c) =>
      var index := c - 1;
      if index < 0 then Err(InvalidThemeChoice)
      else if index >= |order| then Err(InvalidThemeChoice)
      else Ok(order[index])
  }

  /** The menu of a registry built from a listing offers exactly the registered themes, each under
      one number. */
  lemma MenuOffersRegisteredThemes(g: CounterGenerator)
    requires g.Valid()
    ensures forall c :: SelectTheme(g.order, Some(c)).Ok? ==> SelectTheme(g.order, Some(c)).value in g.themes
    ensures forall t :: t in g.themes ==> exists c :: SelectTheme(g.order, Some(c)) == Ok(t)
    ensures forall c, d :: c != d && SelectTheme(g.order, Some(c)).Ok? && SelectTheme(g.order, Some(d)).Ok? ==>
      SelectTheme(g.order, Some(c)).value != SelectTheme(g.order, Some(d)).value
  {
    ThemeOrderSpec(g.root);
    forall t | t in g.themes
      ensures exists c :: SelectTheme(g.order, Some(c)) == Ok(t)
    {
      var i :| 0 <= i < |g.order| && g.order[i] == t;
      assert SelectTheme(g.order, Some(i + 1)) == Ok(t);
    }
  }

  /** A request the front end lets through: a registered theme is named, the number is a non-empty
      run of digits, and the output's base name is the front end's file name; so it never fails for
      an unknown theme or an empty number, nor, without repeated names, for a missing theme. */
  lemma AcceptedRequest(g: CounterGenerator, choice: Choice, number: string, outDir: string)
    requires g.Valid() && SelectTheme(g.order, choice).Ok? && ValidateNumber(number)
    ensures var t := SelectTheme(g.order, choice).value;
      var f := GenerateOutputFilename(number, t);
      var r := g.GenerateCounter(number, t, outDir, Some(f));
      && BaseName(number, Some(f)) == f
      && (r.Err? ==> r.error != UnknownTheme(t) && r.error != NoDigits && r.error != NonPositiveSpeed)
      && (DistinctNames(g.root) ==> r.Err? ==> r.error != ThemeNotFound(t))
  {
    var t := SelectTheme(g.order, choice).value;
    var f := GenerateOutputFilename(number, t);
    MenuOffersRegisteredThemes(g);
    g.DispatchSpec(number, t, outDir, Some(f));
    if g.themes[t] == ".gif" {
      AnimatedCompositor.GifCounterOutcome(number, t, g.root, outDir, Some(f), AnimatedCompositor.DefaultSpeed);
    }
    if DistinctNames(g.root) {
      RegisteredThemeResolves(g, number, t, outDir, Some(f));
    }
  }

  /** Every theme whose name has a suffix gives front-end file names that `with_suffix` cuts: the
      animated compositor's paths as written then differ from the appended ones. */
  lemma DottedThemeLosesSuffix(number: string, stem: string, tail: string, outDir: string)
    requires tail != [] && forall i :: 0 <= i < |tail| ==> tail[i] != '.'
    ensures var f := GenerateOutputFilename(number, stem + "." + tail);
      Suffix(f) == "." + tail &&
      GifPathsAsWritten(outDir, f).0.name != GifPaths(outDir, f).0.name &&
      GifPathsAsWritten(outDir, f).1.name != GifPaths(outDir, f).1.name
  {
    var prefix := if |number| > 10 then number[..10] else number;
    var f := GenerateOutputFilename(number, stem + "." + tail);
    assert f == (prefix + "_" + stem) + "." + tail;
    SuffixOfDotted(prefix + "_" + stem, tail);
  }
}
