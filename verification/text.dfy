/** The parts of Python's `str` behaviour the service relies on: `isspace`,
    `strip`, `split()` with no separator, ASCII `lower`, `endswith` and
    `os.path.basename` on POSIX paths. */
module Text {

  /** Python's `str.isspace` set: the characters `strip()` and `split()` treat as whitespace. */
  predicate IsSpace(c: char) {
    var n := c as int;
    || (0x09 <= n <= 0x0D)
    || (0x1C <= n <= 0x20)
    || n == 0x85 || n == 0xA0 || n == 0x1680
    || (0x2000 <= n <= 0x200A)
    || n == 0x2028 || n == 0x2029 || n == 0x202F || n == 0x205F || n == 0x3000
  }

  predicate AllSpace(s: string) {
    forall i :: 0 <= i < |s| ==> IsSpace(s[i])
  }

  /** No whitespace at either end: what `strip()` leaves. */
  predicate Trimmed(s: string) {
    s == [] || (!IsSpace(s[0]) && !IsSpace(s[|s| - 1]))
  }

  /** A word as `split()` produces it: non-empty and free of whitespace. */
  predicate IsWord(w: string) {
    |w| > 0 && forall i :: 0 <= i < |w| ==> !IsSpace(w[i])
  }

  /** `s.lstrip()`: drops the leading whitespace. */
  function LStrip(s: string): string
    decreases |s|
  {
    if |s| > 0 && IsSpace(s[0]) then LStrip(s[1..]) else s
  }

  /** `s.rstrip()`: drops the trailing whitespace. */
  function RStrip(s: string): string
    decreases |s|
  {
    if |s| > 0 && IsSpace(s[|s| - 1]) then RStrip(s[..|s| - 1]) else s
  }

  /** `lstrip()` leaves a suffix that starts with a non-space, after a run of whitespace. */
  lemma {:induction false} LStripSpec(s: string)
    ensures var r := LStrip(s);
            && |r| <= |s| && r == s[|s| - |r|..]
            && AllSpace(s[..|s| - |r|])
            && (r == [] || !IsSpace(r[0]))
    decreases |s|
  {
    if |s| > 0 && IsSpace(s[0]) {
      LStripSpec(s[1..]);
      var r := LStrip(s[1..]);
      assert s[..|s| - |r|] == [s[0]] + s[1..][..|s| - 1 - |r|];
    }
  }

  /** `rstrip()` leaves a prefix that ends with a non-space, before a run of whitespace. */
  lemma {:induction false} RStripSpec(s: string)
    ensures var r := RStrip(s);
            && |r| <= |s| && r == s[..|r|]
            && AllSpace(s[|r|..])
            && (r == [] || !IsSpace(r[|r| - 1]))
    decreases |s|
  {
    if |s| > 0 && IsSpace(s[|s| - 1]) {
      RStripSpec(s[..|s| - 1]);
      var r := RStrip(s[..|s| - 1]);
      assert s[|r|..] == s[..|s| - 1][|r|..] + [s[|s| - 1]];
    }
  }

  /** `s.strip()`. */
  function Strip(s: string): string {
    RStrip(LStrip(s))
  }

  /** `strip()` keeps the middle of the text between a leading and a trailing
      run of whitespace, leaves no whitespace at either end, and leaves
      nothing exactly when the text is all whitespace. */
  lemma StripSpec(s: string)
    ensures exists a :: 0 <= a && a + |Strip(s)| <= |s| && Strip(s) == s[a..a + |Strip(s)|]
                         && AllSpace(s[..a]) && AllSpace(s[a + |Strip(s)|..])
    ensures Trimmed(Strip(s))
    ensures Strip(s) == [] <==> AllSpace(s)
  {
    StripMiddle(s);
    StripEnds(s);
  }

  lemma StripMiddle(s: string)
    ensures exists a :: 0 <= a && a + |Strip(s)| <= |s| && Strip(s) == s[a..a + |Strip(s)|]
                         && AllSpace(s[..a]) && AllSpace(s[a + |Strip(s)|..])
  {
    var l := LStrip(s);
    var r := RStrip(l);
    LStripSpec(s);
    RStripSpec(l);
    var a := |s| - |l|;
    assert r == s[a..a + |r|];
    assert s[a + |r|..] == l[|r|..];
  }

  lemma StripEnds(s: string)
    ensures Trimmed(Strip(s))
    ensures Strip(s) == [] <==> AllSpace(s)
  {
    var l := LStrip(s);
    var r := RStrip(l);
    LStripSpec(s);
    RStripSpec(l);
    assert |r| > 0 ==> r[0] == l[0];
    assert |l| > 0 ==> l[0] == s[|s| - |l|];
    assert l[0..] == l;
    assert s[..|s|] == s;
  }

  lemma SplitStrip(s: string)
    ensures Split(Strip(s)) == Split(s)
  {
    SplitLStrip(s);
    SplitRStrip(LStrip(s));
  }

  /** A text with no whitespace at either end is its own strip. */
  lemma StripUnchanged(s: string)
    requires Trimmed(s)
    ensures Strip(s) == s
  {
  }

  /** The end of the word that starts at `i`: the first whitespace at or after `i`, or `|s|`. */
  function WordEnd(s: string, i: nat): (j: nat)
    requires i <= |s|
    ensures i <= j <= |s|
    ensures forall t :: i <= t < j ==> !IsSpace(s[t])
    ensures j == |s| || IsSpace(s[j])
    decreases |s| - i
  {
    if i == |s| || IsSpace(s[i]) then i else WordEnd(s, i + 1)
  }

  /** `s.split()`: the maximal runs of non-whitespace, in order. */
  function Split(s: string): seq<string>
    decreases |s|
  {
    if |s| == 0 then []
    else if IsSpace(s[0]) then Split(s[1..])
    else
      var j := WordEnd(s, 0);
      [s[..j]] + Split(s[j..])
  }

  /** Every piece `split()` yields is a word, and it yields none exactly when
      the text is all whitespace. */
  lemma {:induction false} SplitSpec(s: string)
    ensures forall k :: 0 <= k < |Split(s)| ==> IsWord(Split(s)[k])
    ensures Split(s) == [] <==> AllSpace(s)
    decreases |s|
  {
    if |s| == 0 {
    } else if IsSpace(s[0]) {
      SplitSpec(s[1..]);
      assert AllSpace(s[1..]) ==> AllSpace(s) by {
        if AllSpace(s[1..]) {
          forall i | 0 < i < |s| ensures IsSpace(s[i]) { assert s[i] == s[1..][i - 1]; }
        }
      }
    } else {
      var j := WordEnd(s, 0);
      SplitSpec(s[j..]);
      var r := Split(s);
      assert r == [s[..j]] + Split(s[j..]);
      assert forall k :: 0 < k < |r| ==> r[k] == Split(s[j..])[k - 1];
    }
  }

  /** The words of every line, concatenated in order. */
  function WordsOf(lines: seq<string>): seq<string> {
    if |lines| == 0 then [] else WordsOf(lines[..|lines| - 1]) + Split(lines[|lines| - 1])
  }

  lemma WordsOfAppend(lines: seq<string>, line: string)
    ensures WordsOf(lines + [line]) == WordsOf(lines) + Split(line)
  {
    assert (lines + [line])[..|lines|] == lines;
  }

  lemma {:induction false} WordEndUnique(s: string, i: nat, j: nat)
    requires i <= j <= |s|
    requires forall t :: i <= t < j ==> !IsSpace(s[t])
    requires j == |s| || IsSpace(s[j])
    ensures WordEnd(s, i) == j
    decreases j - i
  {
    if i < j {
      WordEndUnique(s, i + 1, j);
    }
  }

  /** A whitespace character separates: the words of `a + [c] + b` are those of `a` followed by those of `b`. */
  lemma {:induction false} SplitAround(a: string, c: char, b: string)
    requires IsSpace(c)
    ensures Split(a + [c] + b) == Split(a) + Split(b)
    decreases |a|
  {
    var s := a + [c] + b;
    if |a| == 0 {
      assert s[1..] == b;
    } else if IsSpace(a[0]) {
      assert s[1..] == a[1..] + [c] + b;
      SplitAround(a[1..], c, b);
    } else {
      var j := WordEnd(a, 0);
      assert forall t :: 0 <= t < j ==> s[t] == a[t];
      assert IsSpace(s[j]) by {
        if j == |a| { assert s[j] == c; } else { assert s[j] == a[j]; }
      }
      WordEndUnique(s, 0, j);
      assert s[..j] == a[..j];
      assert s[j..] == a[j..] + [c] + b;
      SplitAround(a[j..], c, b);
      assert Split(s) == [a[..j]] + Split(s[j..]);
      assert Split(a) == [a[..j]] + Split(a[j..]);
    }
  }

  lemma SplitWord(w: string)
    requires IsWord(w)
    ensures Split(w) == [w]
  {
    WordEndUnique(w, 0, |w|);
    assert w[..|w|] == w;
  }

  lemma {:induction false} SplitLStrip(s: string)
    ensures Split(LStrip(s)) == Split(s)
    decreases |s|
  {
    if |s| > 0 && IsSpace(s[0]) {
      SplitLStrip(s[1..]);
    }
  }

  lemma {:induction false} SplitRStrip(s: string)
    ensures Split(RStrip(s)) == Split(s)
    decreases |s|
  {
    if |s| > 0 && IsSpace(s[|s| - 1]) {
      var p := s[..|s| - 1];
      assert RStrip(s) == RStrip(p);
      SplitRStrip(p);
      SplitAround(p, s[|s| - 1], []);
      assert p + [s[|s| - 1]] + [] == s;
      assert Split([]) == [];
    }
  }

  /** The test line the wrap loop builds, `f"{current} {word}".strip()`, has the
      words of `current` followed by `word`. */
  lemma SplitJoinedLine(current: string, word: string)
    requires IsWord(word)
    ensures Split(Strip(current + " " + word)) == Split(current) + [word]
  {
    SplitStrip(current + " " + word);
    SplitAround(current, ' ', word);
    assert current + [' '] + word == current + " " + word;
    SplitWord(word);
  }

  /** With nothing before it, the joined test line is the word itself. */
  lemma StripLeadingBlank(word: string)
    requires IsWord(word)
    ensures Strip("" + " " + word) == word
  {
    var s := "" + " " + word;
    assert s[0] == ' ' && s[1..] == word;
    assert LStrip(word) == word;
    assert LStrip(s) == word;
    assert RStrip(word) == word;
  }

  /** ASCII upper case to lower case; every other character is left alone. */
  function LowerChar(c: char): char {
    if 'A' <= c <= 'Z' then (c as int + 32) as char else c
  }

  function Lower(s: string): (r: string)
    ensures |r| == |s|
    ensures forall i :: 0 <= i < |s| ==> r[i] == LowerChar(s[i])
  {
    seq(|s|, i requires 0 <= i < |s| => LowerChar(s[i]))
  }

  predicate EndsWith(s: string, suffix: string) {
    |suffix| <= |s| && s[|s| - |suffix|..] == suffix
  }

  /** `os.path.basename` on a POSIX path: everything after the last '/'. */
  function Basename(p: string): (r: string)
    ensures '/' !in r
    ensures |r| <= |p| && r == p[|p| - |r|..]
    ensures |r| == |p| || p[|p| - |r| - 1] == '/'
    decreases |p|
  {
    if |p| == 0 || p[|p| - 1] == '/' then ""
    else
      var r := Basename(p[..|p| - 1]);
      assert p[|p| - |r| - 1..] == p[..|p| - 1][|p| - 1 - |r|..] + [p[|p| - 1]];
      r + [p[|p| - 1]]
  }

  /** The basename of `dir + "/" + name` is `name` when `name` holds no '/'. */
  lemma {:induction false} BasenameJoin(dir: string, name: string)
    requires '/' !in name
    ensures Basename(dir + "/" + name) == name
    decreases |name|
  {
    var p := dir + "/" + name;
    if |name| > 0 {
      var init := name[..|name| - 1];
      assert p[..|p| - 1] == dir + "/" + init;
      BasenameJoin(dir, init);
      assert init + [name[|name| - 1]] == name;
    }
  }
}
