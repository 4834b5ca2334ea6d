/** The greedy word wrap of `add_text_to_image`. The width of a rendered line
    (`draw.textbbox` right edge minus left edge, in the chosen font) is the
    parameter `measure`: the model states everything for every measure. */
module Wrap {
  import opened Text

  /** `TEXT_BOX_WIDTH`. */
  const TextBoxWidth := 920

  /** The wrap loop with `words` still to place, the finished `lines` and the
      line being built, `current`. A word joins the current line when the
      stripped join fits; otherwise the current line is closed (even when it
      is still empty) and the word starts the next one. */
  function WrapFrom(measure: string -> int, words: seq<string>, lines: seq<string>, current: string): seq<string>
    decreases |words|
  {
    if |words| == 0 then
      if current != "" then lines + [current] else lines
    else
      var test := Strip(current + " " + words[0]);
      if measure(test) <= TextBoxWidth then WrapFrom(measure, words[1..], lines, test)
      else WrapFrom(measure, words[1..], lines + [current], words[0])
  }

  /** The lines `add_text_to_image` draws for `text`. */
  function WrapText(measure: string -> int, text: string): seq<string> {
    WrapFrom(measure, Split(text), [], "")
  }

  /** `" ".join(ws)`. */
  function JoinWords(ws: seq<string>): string {
    if |ws| == 0 then ""
    else if |ws| == 1 then ws[0]
    else JoinWords(ws[..|ws| - 1]) + " " + ws[|ws| - 1]
  }

  /** `next` starts with a word that did not fit after `prev`. */
  predicate Overflows(measure: string -> int, prev: string, next: string) {
    var ws := Split(next);
    |ws| > 0 && measure(Strip(prev + " " + ws[0])) > TextBoxWidth
  }

  /** Every join of two or more leading words of `ws` fits the box. */
  predicate PrefixesFit(measure: string -> int, ws: seq<string>)
    decreases |ws|
  {
    |ws| <= 1 || (PrefixesFit(measure, ws[..|ws| - 1]) && measure(JoinWords(ws)) <= TextBoxWidth)
  }

  /** A line is its words joined by single spaces, and every join of two or
      more of its leading words fits the box. */
  predicate LineFits(measure: string -> int, line: string) {
    line == JoinWords(Split(line)) && PrefixesFit(measure, Split(line))
  }

  /** What a greedy wrap looks like, line by line: every line fits as far as
      it has two words, and every line after the first begins with a word that
      would not fit on the line before. */
  predicate Greedy(measure: string -> int, lines: seq<string>)
    decreases |lines|
  {
    if |lines| == 0 then true
    else
      var init := lines[..|lines| - 1];
      var last := lines[|lines| - 1];
      && Greedy(measure, init)
      && LineFits(measure, last)
      && (|init| > 0 ==> Overflows(measure, init[|init| - 1], last))
  }

  /** The state of the loop after the words `done`. */
  predicate WrapInv(measure: string -> int, done: seq<string>, lines: seq<string>, current: string) {
    var all := lines + [current];
    && WordsOf(all) == done
    && (done == [] ==> lines == [] && current == "")
    && (done != [] ==> Split(current) != [])
    && Trimmed(current)
    && Greedy(measure, all)
    && ((|lines| > 0 && lines[0] == "") <==> (done != [] && measure(done[0]) > TextBoxWidth))
  }

  lemma JoinWordsSnoc(ws: seq<string>, w: string)
    requires |ws| > 0
    ensures JoinWords(ws + [w]) == JoinWords(ws) + " " + w
  {
    assert (ws + [w])[..|ws|] == ws;
  }

  /** The first word, on an empty line. */
  lemma WrapStart(measure: string -> int, w: string)
    requires IsWord(w)
    ensures var test := Strip("" + " " + w);
            if measure(test) <= TextBoxWidth then WrapInv(measure, [w], [], test)
            else WrapInv(measure, [w], [""], w)
  {
    StripLeadingBlank(w);
    SplitWord(w);
    WordsOfAppend([], w);
    WordsOfAppend([], "");
    WordsOfAppend([""], w);
    assert [] + [w] == [w];
    assert [""] + [w] == ["", w];
    assert Split("") == [];
  }

  lemma GreedyPrefix(measure: string -> int, lines: seq<string>, x: string)
    requires Greedy(measure, lines + [x])
    ensures Greedy(measure, lines)
    ensures LineFits(measure, x)
    ensures |lines| > 0 ==> Overflows(measure, lines[|lines| - 1], x)
  {
    assert (lines + [x])[..|lines|] == lines;
  }

  lemma GreedySnoc(measure: string -> int, lines: seq<string>, x: string)
    requires Greedy(measure, lines)
    requires LineFits(measure, x)
    requires |lines| > 0 ==> Overflows(measure, lines[|lines| - 1], x)
    ensures Greedy(measure, lines + [x])
  {
    var all := lines + [x];
    assert all[..|lines|] == lines;
    assert all[|all| - 1] == x;
  }

  /** A trimmed line, a space and a word need no stripping. */
  lemma JoinTrimmed(current: string, w: string)
    requires Trimmed(current) && current != ""
    requires IsWord(w)
    ensures Strip(current + " " + w) == current + " " + w
  {
    var s := current + " " + w;
    assert s[0] == current[0];
    assert s[|s| - 1] == w[|w| - 1];
    StripUnchanged(s);
  }

  /** Joining a fitting word onto a trimmed, fitting line gives a trimmed,
      fitting line with one more word. */
  lemma ExtendLine(measure: string -> int, current: string, w: string)
    requires LineFits(measure, current) && Trimmed(current) && Split(current) != []
    requires IsWord(w)
    requires measure(Strip(current + " " + w)) <= TextBoxWidth
    ensures var test := Strip(current + " " + w);
            && Split(test) == Split(current) + [w]
            && LineFits(measure, test)
            && Trimmed(test)
  {
    var cws := Split(current);
    assert current != "" by { assert Split("") == []; }
    JoinTrimmed(current, w);
    var test := current + " " + w;
    SplitJoinedLine(current, w);
    JoinWordsSnoc(cws, w);
    var ws := cws + [w];
    assert Strip(current + " " + w) == test;
    assert Split(test) == ws;
    assert test == JoinWords(ws);
    assert ws[..|cws|] == cws;
    assert PrefixesFit(measure, ws);
    assert test[0] == current[0];
    assert test[|test| - 1] == w[|w| - 1];
  }

  lemma SnocAssoc(a: seq<string>, b: seq<string>, w: string)
    ensures a + (b + [w]) == (a + b) + [w]
  {
  }

  /** The greedy shape survives the current line growing by a word. */
  lemma GreedyAccept(measure: string -> int, lines: seq<string>, current: string, w: string)
    requires Greedy(measure, lines + [current])
    requires Trimmed(current) && Split(current) != []
    requires IsWord(w)
    requires measure(Strip(current + " " + w)) <= TextBoxWidth
    ensures var test := Strip(current + " " + w);
            && Greedy(measure, lines + [test])
            && Split(test) == Split(current) + [w]
            && Trimmed(test)
  {
    var test := Strip(current + " " + w);
    var cws := Split(current);
    assert Greedy(measure, lines) && (|lines| > 0 ==> Overflows(measure, lines[|lines| - 1], current))
      && LineFits(measure, current) by {
      GreedyPrefix(measure, lines, current);
    }
    assert Split(test) == cws + [w] && LineFits(measure, test) && Trimmed(test) by {
      ExtendLine(measure, current, w);
    }
    assert |lines| > 0 ==> Overflows(measure, lines[|lines| - 1], test) by {
      assert Split(test)[0] == cws[0];
    }
    GreedySnoc(measure, lines, test);
  }

  /** The words placed so far grow by the word just joined. */
  lemma WordsAccept(lines: seq<string>, current: string, test: string, w: string)
    requires Split(test) == Split(current) + [w]
    ensures WordsOf(lines + [test]) == WordsOf(lines + [current]) + [w]
  {
    WordsOfAppend(lines, current);
    WordsOfAppend(lines, test);
    SnocAssoc(WordsOf(lines), Split(current), w);
  }

  /** A later word that fits joins the current line. */
  lemma WrapAccept(measure: string -> int, done: seq<string>, lines: seq<string>, current: string, w: string)
    requires WrapInv(measure, done, lines, current)
    requires done != []
    requires IsWord(w)
    requires measure(Strip(current + " " + w)) <= TextBoxWidth
    ensures WrapInv(measure, done + [w], lines, Strip(current + " " + w))
  {
    var test := Strip(current + " " + w);
    GreedyAccept(measure, lines, current, w);
    WordsAccept(lines, current, test, w);
    assert (done + [w])[0] == done[0];
  }

  /** A later word that does not fit closes the current line and starts the next. */
  lemma WrapReject(measure: string -> int, done: seq<string>, lines: seq<string>, current: string, w: string)
    requires WrapInv(measure, done, lines, current)
    requires done != []
    requires IsWord(w)
    requires measure(Strip(current + " " + w)) > TextBoxWidth
    ensures WrapInv(measure, done + [w], lines + [current], w)
  {
    SplitWord(w);
    assert JoinWords([w]) == w;
    var all := lines + [current];
    GreedySnoc(measure, all, w);
    WordsOfAppend(all, w);
    assert current != "" by { assert Split(current) != []; assert Split("") == []; }
    assert all[0] == (if |lines| > 0 then lines[0] else current);
  }

  /** The line-by-line greedy shape, read as statements about every line. */
  lemma {:induction false} GreedyLines(measure: string -> int, lines: seq<string>)
    requires Greedy(measure, lines)
    ensures forall i :: 0 <= i < |lines| ==> LineFits(measure, lines[i])
    ensures forall i :: 0 < i < |lines| ==> Overflows(measure, lines[i - 1], lines[i])
    decreases |lines|
  {
    if |lines| > 0 {
      var n := |lines| - 1;
      var init := lines[..n];
      assert Greedy(measure, init) && LineFits(measure, lines[n]);
      assert n > 0 ==> Overflows(measure, init[n - 1], lines[n]);
      GreedyLines(measure, init);
      forall i | 0 <= i < |lines| ensures LineFits(measure, lines[i]) {
        if i < n {
          assert LineFits(measure, init[i]);
          assert lines[i] == init[i];
        }
      }
      forall i | 0 < i < |lines| ensures Overflows(measure, lines[i - 1], lines[i]) {
        if i < n {
          assert Overflows(measure, init[i - 1], init[i]);
          assert lines[i] == init[i] && lines[i - 1] == init[i - 1];
        } else {
          assert lines[i - 1] == init[n - 1];
        }
      }
    }
  }

  /** Every join of two or more leading words fits, read as a statement about every prefix. */
  lemma {:induction false} PrefixesFitAll(measure: string -> int, ws: seq<string>)
    requires PrefixesFit(measure, ws)
    ensures forall j :: 2 <= j <= |ws| ==> measure(JoinWords(ws[..j])) <= TextBoxWidth
    decreases |ws|
  {
    if |ws| > 1 {
      var init := ws[..|ws| - 1];
      PrefixesFitAll(measure, init);
      assert ws[..|ws|] == ws;
      assert forall j :: 2 <= j < |ws| ==> ws[..j] == init[..j];
    }
  }

  /** What the wrap produces, given the words `words` it wrapped. */
  predicate WrapResult(measure: string -> int, words: seq<string>, r: seq<string>) {
    && WordsOf(r) == words
    && Greedy(measure, r)
    && (r == [] <==> words == [])
    && (r != [] ==> r[|r| - 1] != "")
    && ((|r| > 0 && r[0] == "") <==> (words != [] && measure(words[0]) > TextBoxWidth))
  }

  lemma {:induction false} WrapFromResult(measure: string -> int, words: seq<string>,
                                          done: seq<string>, lines: seq<string>, current: string)
    requires WrapInv(measure, done, lines, current)
    requires forall k :: 0 <= k < |words| ==> IsWord(words[k])
    ensures WrapResult(measure, done + words, WrapFrom(measure, words, lines, current))
    decreases |words|
  {
    if |words| == 0 {
      assert done + words == done;
      if done != [] {
        assert current != "" by { assert Split(current) != []; assert Split("") == []; }
        assert (lines + [current])[0] == (if |lines| > 0 then lines[0] else current);
      }
    } else {
      var w := words[0];
      var test := Strip(current + " " + w);
      assert done + words == (done + [w]) + words[1..];
      if done == [] {
        WrapStart(measure, w);
        assert done + [w] == [w];
      } else if measure(test) <= TextBoxWidth {
        WrapAccept(measure, done, lines, current, w);
      } else {
        WrapReject(measure, done, lines, current, w);
      }
      WrapFromResult(measure, words[1..], done + [w], if measure(test) <= TextBoxWidth then lines else lines + [current],
                     if measure(test) <= TextBoxWidth then test else w);
    }
  }

  lemma EmptyAppend(ws: seq<string>)
    ensures [] + ws == ws
  {
  }

  lemma WrapTextResult(measure: string -> int, text: string)
    ensures WrapResult(measure, Split(text), WrapText(measure, text))
  {
    assert Split("") == [];
    SplitSpec(text);
    WrapFromResult(measure, Split(text), [], [], "");
    EmptyAppend(Split(text));
  }

  /** The lines hold exactly the words of `text`, in order, each line being its
      words joined by single spaces; there are no lines exactly when the text is blank. */
  lemma WrapKeepsWords(measure: string -> int, text: string)
    ensures var r := WrapText(measure, text);
            && WordsOf(r) == Split(text)
            && (forall i :: 0 <= i < |r| ==> r[i] == JoinWords(Split(r[i])))
            && (r == [] <==> AllSpace(text))
  {
    WrapTextResult(measure, text);
    SplitSpec(text);
    var r := WrapText(measure, text);
    GreedyLines(measure, r);
  }

  /** Every line of two or more words fits the 920-pixel box, and so does
      every join of its leading words. */
  lemma WrapLineWidth(measure: string -> int, text: string)
    ensures var r := WrapText(measure, text);
            && (forall i :: 0 <= i < |r| && |Split(r[i])| >= 2 ==> measure(r[i]) <= TextBoxWidth)
            && (forall i, j :: 0 <= i < |r| && 2 <= j <= |Split(r[i])| ==> measure(JoinWords(Split(r[i])[..j])) <= TextBoxWidth)
  {
    WrapTextResult(measure, text);
    var r := WrapText(measure, text);
    GreedyLines(measure, r);
    forall i | 0 <= i < |r|
      ensures forall j :: 2 <= j <= |Split(r[i])| ==> measure(JoinWords(Split(r[i])[..j])) <= TextBoxWidth
      ensures |Split(r[i])| >= 2 ==> measure(r[i]) <= TextBoxWidth
    {
      var ws := Split(r[i]);
      PrefixesFitAll(measure, ws);
      assert ws[..|ws|] == ws;
    }
  }

  /** Every line after the first starts with a word that did not fit on the
      line before, so no line after the first is empty; the last line is never empty. */
  lemma WrapGreedyBreak(measure: string -> int, text: string)
    ensures var r := WrapText(measure, text);
            && (forall i :: 0 < i < |r| ==> Split(r[i]) != [] && measure(Strip(r[i - 1] + " " + Split(r[i])[0])) > TextBoxWidth)
            && (forall i :: 0 < i < |r| ==> r[i] != "")
            && (r != [] ==> r[|r| - 1] != "")
  {
    WrapTextResult(measure, text);
    var r := WrapText(measure, text);
    assert Split("") == [];
    GreedyLines(measure, r);
    forall i | 0 < i < |r|
      ensures Split(r[i]) != [] && measure(Strip(r[i - 1] + " " + Split(r[i])[0])) > TextBoxWidth
    {
      assert Overflows(measure, r[i - 1], r[i]);
    }
  }

  /** The first line is empty exactly when the first word alone is too wide:
      the loop then closes the still-empty line before placing anything on it. */
  lemma WrapEmptyFirstLine(measure: string -> int, text: string)
    ensures var r := WrapText(measure, text);
            (|r| > 0 && r[0] == "") <==> (Split(text) != [] && measure(Split(text)[0]) > TextBoxWidth)
  {
    WrapTextResult(measure, text);
  }
}
