/** `parse_caption_and_template`: splits the request's free-text field into a
    template choice and a caption. A text of the form "<digits>-<caption>"
    asks for `public/template<digits>.png`; the template store is consulted
    through the `pathExists` parameter (Python's `os.path.exists`). */
module Caption {
  import opened Wrappers
  import opened Text

  const TemplateDir := "public"
  /** The file name of `DEFAULT_TEMPLATE_PATH`. */
  const DefaultTemplateFile := "template1.png"
  /** `DEFAULT_TEMPLATE_PATH`, "public/template1.png". */
  const DefaultTemplatePath := TemplateDir + "/" + DefaultTemplateFile

  /** `os.path.join(TEMPLATE_DIR, f"template{number}.png")`. */
  function TemplatePath(number: string): string {
    TemplateDir + "/" + "template" + number + ".png"
  }

  /** `\d`, taken as the ASCII digits. */
  predicate IsDigit(c: char) {
    '0' <= c <= '9'
  }

  predicate AllDigits(s: string) {
    forall i :: 0 <= i < |s| ==> IsDigit(s[i])
  }

  /** `(.*)$` accepts `t` as the remainder: either `t` holds no newline, or its
      only newline is the last character (`$` also matches before a final "\n"). */
  predicate RestMatches(t: string) {
    '\n' !in t || (t[|t| - 1] == '\n' && '\n' !in t[..|t| - 1])
  }

  /** Group 2 of the match: the remainder without a final newline. */
  function Group2(t: string): string {
    if |t| > 0 && t[|t| - 1] == '\n' then t[..|t| - 1] else t
  }

  /** `^(\d+)-(.*)$` matches `s` with group 1 ending at `k`, that is `s[k]` is the dash. */
  predicate MatchesAt(s: string, k: int) {
    1 <= k < |s| && AllDigits(s[..k]) && s[k] == '-' && RestMatches(s[k + 1..])
  }

  datatype Match = Match(number: string, rest: string)

  /** The end of the run of digits that starts at `i`. */
  function DigitRunEnd(s: string, i: nat): (j: nat)
    requires i <= |s|
    ensures i <= j <= |s|
    ensures forall t :: i <= t < j ==> IsDigit(s[t])
    ensures j == |s| || !IsDigit(s[j])
    decreases |s| - i
  {
    if i == |s| || !IsDigit(s[i]) then i else DigitRunEnd(s, i + 1)
  }

  /** The first newline of `t` at or after `i`, or `|t|`. */
  function NewlineAt(t: string, i: nat): (j: nat)
    requires i <= |t|
    ensures i <= j <= |t|
    ensures '\n' !in t[i..j]
    ensures j == |t| || t[j] == '\n'
    decreases |t| - i
  {
    if i == |t| || t[i] == '\n' then i
    else
      var j := NewlineAt(t, i + 1);
      assert t[i..j] == [t[i]] + t[i + 1..j];
      j
  }

  /** `re.match(r'^(\d+)-(.*)$', s)`: the digit run, then a dash, then the
      greedy `.*` up to the first newline, which `$` accepts only at the end. */
  function MatchNumbered(s: string): Option<Match> {
    var k := DigitRunEnd(s, 0);
    if 1 <= k < |s| && s[k] == '-' then
      var t := s[k + 1..];
      var n := NewlineAt(t, 0);
      if n == |t| then Some(Match(s[..k], t))
      else if n == |t| - 1 then Some(Match(s[..k], t[..n]))
      else None
    else
      None
  }

  /** The scan above agrees with the regular expression: it matches exactly
      when some split point does, and then yields that split's groups. */
  lemma MatchNumberedSpec(s: string)
    ensures MatchNumbered(s).Some? <==> exists k :: MatchesAt(s, k)
    ensures forall k :: MatchesAt(s, k) ==> MatchNumbered(s) == Some(Match(s[..k], Group2(s[k + 1..])))
  {
    var k := DigitRunEnd(s, 0);
    MatchIsAtDigitRunEnd(s);
    if 1 <= k < |s| && s[k] == '-' {
      var t := s[k + 1..];
      var n := NewlineAt(t, 0);
      assert t[0..n] == t[..n];
      if n == |t| {
        assert MatchesAt(s, k);
      } else if n == |t| - 1 {
        assert t[..|t| - 1] == t[..n];
        assert MatchesAt(s, k);
      } else {
        assert t[n] in t[..|t| - 1];
      }
    }
  }

  lemma {:induction false} DigitRunEndUnique(s: string, i: nat, j: nat)
    requires i <= j <= |s|
    requires forall t :: i <= t < j ==> IsDigit(s[t])
    requires j == |s| || !IsDigit(s[j])
    ensures DigitRunEnd(s, i) == j
    decreases j - i
  {
    if i < j {
      DigitRunEndUnique(s, i + 1, j);
    }
  }

  /** Group 1 of a match is always the whole leading digit run. */
  lemma MatchIsAtDigitRunEnd(s: string)
    ensures forall k :: MatchesAt(s, k) ==> k == DigitRunEnd(s, 0)
  {
    forall k | MatchesAt(s, k) ensures k == DigitRunEnd(s, 0) {
      forall t | 0 <= t < k ensures IsDigit(s[t]) {
        assert s[t] == s[..k][t];
      }
      DigitRunEndUnique(s, 0, k);
    }
  }

  datatype Parsed = Parsed(templatePath: string, caption: string)

  /** `parse_caption_and_template(text)`, with the template store's `os.path.exists` as `pathExists`. */
  function ParseCaptionAndTemplate(text: string, pathExists: string -> bool): Parsed {
    var s := Strip(text);
    if |text| == 0 || s == "" then
      Parsed(DefaultTemplatePath, "")
    else
      match MatchNumbered(s)
      case Some(m) =>
        var path := TemplatePath(m.number);
        if pathExists(path) then Parsed(path, Strip(m.rest)) else Parsed(DefaultTemplatePath, Strip(m.rest))
      case None =>
        Parsed(DefaultTemplatePath, s)
  }

  /** The three outcomes of parsing: blank text, a numbered prefix (whose
      template falls back to the default when the store lacks it), and plain text. */
  lemma ParseCases(text: string, pathExists: string -> bool)
    ensures var r := ParseCaptionAndTemplate(text, pathExists);
            AllSpace(text) ==> r == Parsed(DefaultTemplatePath, "")
    ensures var r := ParseCaptionAndTemplate(text, pathExists);
            var s := Strip(text);
            forall k :: MatchesAt(s, k) ==>
              && r.caption == Strip(s[k + 1..])
              && r.templatePath == (if pathExists(TemplatePath(s[..k])) then TemplatePath(s[..k]) else DefaultTemplatePath)
    ensures var r := ParseCaptionAndTemplate(text, pathExists);
            (forall k :: !MatchesAt(Strip(text), k)) ==> r == Parsed(DefaultTemplatePath, Strip(text))
  {
    StripSpec(text);
    MatchNumberedSpec(Strip(text));
    StrippedRestHasNoNewline(Strip(text));
  }

  /** A stripped text never ends in a newline, so the `$`-before-final-newline
      alternative never fires and group 2 is the whole remainder. */
  lemma StrippedRestHasNoNewline(s: string)
    requires s == [] || !IsSpace(s[|s| - 1])
    ensures forall k :: MatchesAt(s, k) ==> Group2(s[k + 1..]) == s[k + 1..]
  {
    forall k | MatchesAt(s, k) ensures Group2(s[k + 1..]) == s[k + 1..] {
      var t := s[k + 1..];
      if |t| > 0 {
        assert t[|t| - 1] == s[|s| - 1];
      }
    }
  }

  /** The caption never depends on which templates exist. */
  lemma CaptionIndependentOfStore(text: string, pathExists1: string -> bool, pathExists2: string -> bool)
    ensures ParseCaptionAndTemplate(text, pathExists1).caption == ParseCaptionAndTemplate(text, pathExists2).caption
  {
  }

  /** The template chosen is either the default or a numbered template the store holds. */
  lemma ParsedTemplateAvailable(text: string, pathExists: string -> bool)
    ensures var r := ParseCaptionAndTemplate(text, pathExists);
            || r.templatePath == DefaultTemplatePath
            || (pathExists(r.templatePath) && exists n :: |n| > 0 && AllDigits(n) && r.templatePath == TemplatePath(n))
  {
    var s := Strip(text);
    if |text| > 0 && s != "" {
      match MatchNumbered(s)
      case Some(m) =>
        var k := DigitRunEnd(s, 0);
        assert m.number == s[..k];
        assert |m.number| > 0 && AllDigits(m.number);
      case None =>
    }
  }

  /** A numbered prefix whose remainder holds a newline is no match at all:
      the whole stripped text becomes the caption of the default template. */
  lemma NewlineFallsThrough(text: string, k: nat, pathExists: string -> bool)
    requires var s := Strip(text); 1 <= k < |s| && AllDigits(s[..k]) && s[k] == '-' && '\n' in s[k + 1..]
    ensures ParseCaptionAndTemplate(text, pathExists) == Parsed(DefaultTemplatePath, Strip(text))
  {
    var s := Strip(text);
    StripSpec(text);
    forall t | 0 <= t < k ensures IsDigit(s[t]) {
      assert s[t] == s[..k][t];
    }
    DigitRunEndUnique(s, 0, k);
    var rest := s[k + 1..];
    assert rest[|rest| - 1] == s[|s| - 1];
    var n := NewlineAt(rest, 0);
    assert rest[0..n] == rest[..n];
    assert n < |rest| - 1;
    assert MatchNumbered(s) == None;
  }

  /** Writing "<number>-<caption>" and parsing it gives the caption back, and the
      numbered template when the store holds it. */
  lemma ParseRoundTrip(number: string, caption: string, pathExists: string -> bool)
    requires |number| > 0 && AllDigits(number)
    requires Strip(caption) == caption
    requires '\n' !in caption
    ensures ParseCaptionAndTemplate(number + "-" + caption, pathExists)
            == Parsed(if pathExists(TemplatePath(number)) then TemplatePath(number) else DefaultTemplatePath, caption)
  {
    var text := number + "-" + caption;
    var n := |number|;
    assert text[..n] == number;
    assert text[n + 1..] == caption;
    assert MatchesAt(text, n);
    assert !IsSpace(text[0]) by { assert text[0] == number[0]; }
    StripSpec(caption);
    if |caption| > 0 {
      assert text[|text| - 1] == caption[|caption| - 1];
    }
    StripUnchanged(text);
    ParseCases(text, pathExists);
    var r := ParseCaptionAndTemplate(text, pathExists);
    assert r.caption == Strip(text[n + 1..]);
  }
}
