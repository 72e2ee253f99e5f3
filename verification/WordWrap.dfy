/** Greedy word wrap: cairo_render_text of lib/eink/cairo_helpers.c, for an arbitrary text-width
  * oracle. Texts are C strings, so position |text| holds the terminator.
  */
module WordWrap {
  /** isspace in the C locale. */
  predicate IsSpace(c: char) { c in " \t\n\r" || c == 0x0B as char || c == 0x0C as char }

  /** The blank and the five control characters from tab to carriage return. */
  lemma SpacesAre(c: char)
    ensures IsSpace(c) <==> c as int == 32 || 9 <= c as int <= 13
  {
  }

  /** A printed line, text[start..end]. */
  datatype Line = Line(start: nat, end: nat)

  /** Where the scan for the end of a word can stop. */
  predicate Stop(text: string, i: nat)
    requires i <= |text|
  {
    i == |text| || IsSpace(text[i])
  }

  function NextStop(text: string, i: nat): (j: nat)
    requires i <= |text|
    ensures i <= j <= |text| && Stop(text, j)
    ensures forall k :: i <= k < j ==> !Stop(text, k)
    decreases |text| - i
  {
    if Stop(text, i) then i else NextStop(text, i + 1)
  }

  lemma FirstStop(text: string, i: nat, j: nat)
    requires i <= j <= |text| && Stop(text, j)
    requires forall k :: i <= k < j ==> !Stop(text, k)
    ensures NextStop(text, i) == j
  {
  }

  /** Every way of ending the line at or before `end` fits. */
  predicate AllFit(text: string, fits: string -> bool, start: nat, end: nat)
    requires start <= end <= |text|
  {
    forall e :: start <= e <= end && Stop(text, e) ==> fits(text[start..e])
  }

  /** The line fits, and would not with one more word. */
  predicate Greedy(text: string, fits: string -> bool, l: Line) {
    && l.start < l.end <= |text| && AllFit(text, fits, l.start, l.end)
    && (l.end < |text| ==> l.end + 1 < |text| && !fits(text[l.start..NextStop(text, l.end + 1)]))
  }

  /** The line does not fit and has no break, unless an accepted one at its very start, which the
    * backtracking cannot use. */
  predicate TooLong(text: string, fits: string -> bool, l: Line) {
    && l.start <= l.end <= |text| && !fits(text[l.start..l.end])
    && forall e :: l.start <= e < l.end && Stop(text, e) ==> e == l.start && fits(text[l.start..e])
  }

  predicate LineOk(text: string, fits: string -> bool, l: Line) {
    && l.start <= l.end <= |text| && l.start < |text|
    && Stop(text, l.end) && (l.end == |text| ==> !IsSpace(text[|text| - 1]))
    && (Greedy(text, fits, l) || TooLong(text, fits, l))
  }

  predicate OkAt(text: string, fits: string -> bool, lines: seq<Line>, k: nat)
    requires k < |lines|
  {
    LineOk(text, fits, lines[k])
  }

  ghost predicate AllOk(text: string, fits: string -> bool, lines: seq<Line>) {
    forall k: nat :: k < |lines| ==> OkAt(text, fits, lines, k)
  }

  /** Where the line after the given ones starts: one separator is skipped. */
  function NextStart(lines: seq<Line>): nat {
    if lines == [] then 0 else lines[|lines| - 1].end + 1
  }

  /** Line k starts where it should, and another follows only if there is text left. */
  predicate LinkAt(text: string, lines: seq<Line>, k: nat)
    requires k < |lines|
  {
    && lines[k].start == (if k == 0 then 0 else lines[k - 1].end + 1)
    && (k + 1 < |lines| ==> lines[k].end < |text|)
  }

  /** The lines follow each other, one separator apart. */
  ghost predicate Chained(text: string, lines: seq<Line>) {
    forall k: nat :: k < |lines| ==> LinkAt(text, lines, k)
  }

  /** The whole text has been printed. */
  predicate Complete(text: string, lines: seq<Line>) { NextStart(lines) == |text| + 1 }

  /** The lines are chained, each is well chosen, the scan overruns exactly after a too long line at the
    * end of the text, and whatever is not printed ends in white space and had fitted so far. */
  ghost predicate Wraps(text: string, fits: string -> bool, lines: seq<Line>, overrun: bool) {
    && Chained(text, lines)
    && AllOk(text, fits, lines)
    && (overrun <==> Complete(text, lines) && TooLong(text, fits, lines[|lines| - 1]))
    && (NextStart(lines) < |text| ==> IsSpace(text[|text| - 1]) && AllFit(text, fits, NextStart(lines), |text| - 1))
  }

  lemma AppendLink(text: string, lines: seq<Line>, l: Line)
    requires Chained(text, lines) && NextStart(lines) <= |text| && l.start == NextStart(lines)
    ensures Chained(text, lines + [l])
  {
    forall k: nat | k < |lines| + 1
      ensures LinkAt(text, lines + [l], k)
    {
      if k < |lines| {
        assert LinkAt(text, lines, k);
      }
    }
  }

  lemma AppendLine(text: string, fits: string -> bool, lines: seq<Line>, l: Line)
    requires Chained(text, lines) && NextStart(lines) <= |text| && l.start == NextStart(lines)
    requires AllOk(text, fits, lines)
    requires LineOk(text, fits, l)
    ensures Chained(text, lines + [l])
    ensures AllOk(text, fits, lines + [l])
  {
    AppendLink(text, lines, l);
    forall k: nat | k < |lines + [l]|
      ensures OkAt(text, fits, lines + [l], k)
    {
      if k < |lines| {
        assert OkAt(text, fits, lines, k);
      }
    }
  }

  /** The inner loop: on to the end of the word. */
  method ScanWord(text: string, from: nat) returns (next: nat)
    requires from <= |text|
    ensures next == NextStop(text, from)
  {
    next := from;
    while next < |text| && !IsSpace(text[next])
      invariant from <= next <= |text|
      invariant forall k :: from <= k < next ==> !Stop(text, k)
    {
      next := next + 1;
    }
    FirstStop(text, from, next);
  }

  /** The state of the scan within a line: every stop before `next` fits, and `prev` is the last
    * such stop past the start of the line, if there is one. */
  ghost predicate Scanned(text: string, fits: string -> bool, start: nat, prev: nat, next: nat) {
    && start <= prev <= next <= |text|
    && (forall e :: start <= e < next && Stop(text, e) ==> fits(text[start..e]))
    && (forall e :: prev < e < next ==> !Stop(text, e))
    && (prev == start ==> next <= start + 1)
    && (prev != start ==> Stop(text, prev) && next == prev + 1)
    && (next == start + 1 ==> Stop(text, start))
  }

  /** A line that fits to the end of the text. */
  lemma LastLineOk(text: string, fits: string -> bool, start: nat, prev: nat, from: nat)
    requires Scanned(text, fits, start, prev, from) && from < |text|
    requires NextStop(text, from) == |text| && fits(text[start..|text|])
    ensures LineOk(text, fits, Line(start, |text|)) && Greedy(text, fits, Line(start, |text|))
  {
    assert !Stop(text, |text| - 1);
  }

  /** A line that must end before the word just scanned, or has nowhere to end. */
  lemma BrokenLineOk(text: string, fits: string -> bool, start: nat, prev: nat, from: nat)
    requires Scanned(text, fits, start, prev, from) && from < |text|
    requires !fits(text[start..NextStop(text, from)])
    ensures var l := Line(start, if prev == start then NextStop(text, from) else prev);
      && LineOk(text, fits, l)
      && (if prev == start then TooLong(text, fits, l) else Greedy(text, fits, l) && prev < |text|)
  {
    assert NextStop(text, from) == |text| ==> !Stop(text, |text| - 1);
  }

  lemma ScanExtends(text: string, fits: string -> bool, start: nat, prev: nat, from: nat)
    requires Scanned(text, fits, start, prev, from)
    requires fits(text[start..NextStop(text, from)]) && NextStop(text, from) < |text|
    ensures Scanned(text, fits, start, NextStop(text, from), NextStop(text, from) + 1)
  {
  }

  /** The loop invariant: between lines or within one; at the end of the text; or past it. */
  ghost predicate LoopInv(text: string, fits: string -> bool, lines: seq<Line>, start: nat, prev: nat, next: nat) {
    && start <= prev <= next <= |text| + 1
    && Chained(text, lines)
    && AllOk(text, fits, lines)
    && (if next <= |text| then
          || (start == NextStart(lines) && Scanned(text, fits, start, prev, next))
          || (next == |text| && Complete(text, lines) && Greedy(text, fits, lines[|lines| - 1]))
        else Complete(text, lines) && TooLong(text, fits, lines[|lines| - 1]))
  }

  lemma AcceptedWord(text: string, fits: string -> bool, lines: seq<Line>, start: nat, prev: nat, from: nat)
    requires LoopInv(text, fits, lines, start, prev, from) && from < |text|
    requires NextStop(text, from) < |text| && fits(text[start..NextStop(text, from)])
    ensures LoopInv(text, fits, lines, start, NextStop(text, from), NextStop(text, from) + 1)
  {
    ScanExtends(text, fits, start, prev, from);
  }

  lemma LoopStarts(text: string, fits: string -> bool)
    ensures LoopInv(text, fits, [], 0, 0, 0)
  {
  }

  lemma PrintedLastLine(text: string, fits: string -> bool, lines: seq<Line>, start: nat, prev: nat, from: nat)
    requires LoopInv(text, fits, lines, start, prev, from) && from < |text|
    requires NextStop(text, from) == |text| && fits(text[start..|text|])
    ensures LoopInv(text, fits, lines + [Line(start, |text|)], start, prev, |text|)
  {
    LastLineOk(text, fits, start, prev, from);
    AppendLine(text, fits, lines, Line(start, |text|));
  }

  lemma PrintedBrokenLine(text: string, fits: string -> bool, lines: seq<Line>, start: nat, prev: nat, from: nat)
    requires LoopInv(text, fits, lines, start, prev, from) && from < |text|
    requires !fits(text[start..NextStop(text, from)])
    ensures var end := if prev == start then NextStop(text, from) else prev;
      LoopInv(text, fits, lines + [Line(start, end)], end + 1, end + 1, end + 1)
  {
    var end := if prev == start then NextStop(text, from) else prev;
    BrokenLineOk(text, fits, start, prev, from);
    AppendLine(text, fits, lines, Line(start, end));
  }

  /** cairo_render_text. `overrun` reports that the scan position has passed the terminator, so that
    * the loop condition reads beyond the string. */
  method RenderText(text: string, fits: string -> bool) returns (lines: seq<Line>, overrun: bool)
    ensures Wraps(text, fits, lines, overrun)
  {
    lines := [];
    var lnStart: nat, prev: nat, next: nat := 0, 0, 0;
    LoopStarts(text, fits);
    while next < |text|
      invariant LoopInv(text, fits, lines, lnStart, prev, next)
      decreases |text| + 1 - lnStart, |text| + 1 - next
    {
      ghost var from := next;
      next := ScanWord(text, next);
      if fits(text[lnStart..next]) {
        if next < |text| {
          AcceptedWord(text, fits, lines, lnStart, prev, from);
          prev := next;
          next := next + 1;
        } else {
          PrintedLastLine(text, fits, lines, lnStart, prev, from);
          lines := lines + [Line(lnStart, next)];
        }
      } else {
        PrintedBrokenLine(text, fits, lines, lnStart, prev, from);
        next := if prev == lnStart then next else prev;
        lines := lines + [Line(lnStart, next)];
        lnStart := next + 1;
        prev := next + 1;
        next := next + 1;
      }
    }
    overrun := next > |text|;
    LoopInvWraps(text, fits, lines, lnStart, prev, next);
  }

  lemma LoopInvWraps(text: string, fits: string -> bool, lines: seq<Line>, start: nat, prev: nat, next: nat)
    requires LoopInv(text, fits, lines, start, prev, next) && |text| <= next
    ensures Wraps(text, fits, lines, next > |text|)
  {
  }

  // ---------------------------------------------------------------------------------------
  // The contract determines the result
  // ---------------------------------------------------------------------------------------

  lemma NoLongerLine(text: string, fits: string -> bool, l: Line, m: Line)
    requires LineOk(text, fits, l) && LineOk(text, fits, m) && l.start == m.start
    ensures m.end <= l.end
  {
  }

  lemma LinesAgree(text: string, fits: string -> bool, l: Line, m: Line)
    requires LineOk(text, fits, l) && LineOk(text, fits, m) && l.start == m.start
    ensures l == m
  {
    NoLongerLine(text, fits, l, m);
    NoLongerLine(text, fits, m, l);
  }

  lemma NthLine(text: string, fits: string -> bool, lines: seq<Line>, overrun: bool, k: nat)
    requires Wraps(text, fits, lines, overrun) && k < |lines|
    ensures LineOk(text, fits, lines[k]) && LinkAt(text, lines, k)
  {
    assert OkAt(text, fits, lines, k);
  }

  predicate AgreeAt(ls: seq<Line>, ms: seq<Line>, k: nat) {
    k < |ls| && k < |ms| && (k == 0 || ls[k - 1] == ms[k - 1] ==> ls[k] == ms[k])
  }

  lemma NthLinesAgree(text: string, fits: string -> bool, ls: seq<Line>, o: bool, ms: seq<Line>, p: bool, k: nat)
    requires Wraps(text, fits, ls, o) && Wraps(text, fits, ms, p) && k < |ls| && k < |ms|
    ensures AgreeAt(ls, ms, k)
  {
    NthLine(text, fits, ls, o, k);
    NthLine(text, fits, ms, p, k);
    if ls[k].start == ms[k].start {
      LinesAgree(text, fits, ls[k], ms[k]);
    }
  }

  lemma {:induction false} CommonLines(ls: seq<Line>, ms: seq<Line>, k: nat)
    requires k <= |ls| && k <= |ms|
    requires forall i: nat :: i < k ==> AgreeAt(ls, ms, i)
    ensures ls[..k] == ms[..k]
  {
    if k > 0 {
      CommonLines(ls, ms, k - 1);
      assert AgreeAt(ls, ms, k - 1);
      assert k > 1 ==> ls[k - 2] == ls[..k - 1][k - 2] == ms[..k - 1][k - 2];
    }
  }

  /** Where one result stops, no line could follow. */
  lemma NothingFollows(text: string, fits: string -> bool, lines: seq<Line>, overrun: bool, m: Line)
    requires Wraps(text, fits, lines, overrun) && LineOk(text, fits, m)
    ensures m.start != NextStart(lines)
  {
    if m.end + 1 < |text| && IsSpace(text[|text| - 1]) {
      assert Stop(text, |text| - 1);
      assert NextStop(text, m.end + 1) <= |text| - 1;
    }
  }

  /** For every text and oracle there is only one result that Wraps allows. */
  lemma WrapsDetermines(text: string, fits: string -> bool, ls: seq<Line>, o: bool, ms: seq<Line>, p: bool)
    requires Wraps(text, fits, ls, o) && Wraps(text, fits, ms, p)
    ensures ls == ms && o == p
  {
    var k := if |ls| <= |ms| then |ls| else |ms|;
    forall i: nat | i < k
      ensures AgreeAt(ls, ms, i)
    {
      NthLinesAgree(text, fits, ls, o, ms, p, i);
    }
    CommonLines(ls, ms, k);
    assert ls[..|ls|] == ls && ms[..|ms|] == ms;
    if k < |ms| {
      Longer(text, fits, ls, o, ms, p);
    } else if k < |ls| {
      Longer(text, fits, ms, p, ls, o);
    }
  }

  lemma Longer(text: string, fits: string -> bool, ls: seq<Line>, o: bool, ms: seq<Line>, p: bool)
    requires Wraps(text, fits, ls, o) && Wraps(text, fits, ms, p)
    ensures !(|ls| < |ms| && ms[..|ls|] == ls)
  {
    if |ls| < |ms| && ms[..|ls|] == ls {
      NthLine(text, fits, ms, p, |ls|);
      NothingFollows(text, fits, ls, o, ms[|ls|]);
    }
  }

  // ---------------------------------------------------------------------------------------
  // Nothing is lost
  // ---------------------------------------------------------------------------------------

  predicate InTextAt(text: string, lines: seq<Line>, k: nat)
    requires k < |lines|
  {
    lines[k].start <= lines[k].end <= |text| && (k + 1 < |lines| ==> lines[k].end < |text|)
  }

  ghost predicate InText(text: string, lines: seq<Line>) {
    forall k: nat :: k < |lines| ==> InTextAt(text, lines, k)
  }

  lemma InTextPrefix(text: string, lines: seq<Line>, n: nat)
    requires InText(text, lines) && n <= |lines|
    ensures InText(text, lines[..n])
  {
    forall k: nat | k < n
      ensures InTextAt(text, lines[..n], k)
    {
      assert InTextAt(text, lines, k);
    }
  }

  /** The lines with the separator after each of them but the last put back. */
  ghost function Rejoined(text: string, lines: seq<Line>): string
    requires InText(text, lines)
  {
    if lines == [] then ""
    else
      var n := |lines| - 1;
      assert InTextAt(text, lines, n);
      var line := text[lines[n].start..lines[n].end];
      if n == 0 then line
      else
        InTextPrefix(text, lines, n);
        assert InTextAt(text, lines, n - 1);
        Rejoined(text, lines[..n]) + [text[lines[n - 1].end]] + line
  }

  lemma ChainedInit(text: string, lines: seq<Line>)
    requires Chained(text, lines) && lines != []
    ensures Chained(text, lines[..|lines| - 1])
    ensures lines[|lines| - 1].start == NextStart(lines[..|lines| - 1])
  {
    var init := lines[..|lines| - 1];
    assert LinkAt(text, lines, |lines| - 1);
    forall k: nat | k < |init|
      ensures LinkAt(text, init, k)
    {
      assert LinkAt(text, lines, k);
    }
  }

  /** The first n lines give back the text up to the end of the n-th. */
  lemma {:induction false} RejoinedIsPrefix(text: string, lines: seq<Line>, n: nat)
    requires Chained(text, lines) && InText(text, lines) && 0 < n <= |lines|
    ensures InText(text, lines[..n]) && lines[n - 1].end <= |text|
    ensures Rejoined(text, lines[..n]) == text[..lines[n - 1].end]
  {
    InTextPrefix(text, lines, n);
    assert InTextAt(text, lines, n - 1) && LinkAt(text, lines, n - 1);
    if n > 1 {
      RejoinedIsPrefix(text, lines, n - 1);
      assert InTextAt(text, lines, n - 2);
      assert lines[..n][..n - 1] == lines[..n - 1];
      Glue(text, lines[n - 2].end, lines[n - 1].end);
    }
  }

  lemma Glue(text: string, e: nat, f: nat)
    requires e < f <= |text|
    ensures text[..e] + [text[e]] + text[e + 1..f] == text[..f]
  {
  }

  lemma WrapsInText(text: string, fits: string -> bool, lines: seq<Line>, overrun: bool)
    requires Wraps(text, fits, lines, overrun)
    ensures InText(text, lines)
  {
    forall k: nat | k < |lines|
      ensures InTextAt(text, lines, k)
    {
      NthLine(text, fits, lines, overrun, k);
    }
  }

  /** The printed lines with their skipped separators are the whole text exactly when it does not end
    * in white space; a text that does loses at least its last separator, and may lose a line. */
  lemma RejoinsToText(text: string, fits: string -> bool, lines: seq<Line>, overrun: bool)
    requires Wraps(text, fits, lines, overrun)
    ensures InText(text, lines)
    ensures Complete(text, lines) <==> text != "" && !IsSpace(text[|text| - 1])
    ensures Rejoined(text, lines) <= text
    ensures Rejoined(text, lines) == text <==> text == "" || !IsSpace(text[|text| - 1])
  {
    WrapsInText(text, fits, lines, overrun);
    EndOfLines(text, fits, lines, overrun);
    if lines != [] {
      RejoinedIsPrefix(text, lines, |lines|);
      assert lines[..|lines|] == lines;
      assert text[..|text|] == text;
    }
  }

  lemma EndOfLines(text: string, fits: string -> bool, lines: seq<Line>, overrun: bool)
    requires Wraps(text, fits, lines, overrun)
    ensures lines == [] ==> text == "" || IsSpace(text[|text| - 1])
    ensures lines != [] ==> text != "" && lines[|lines| - 1].end <= |text|
    ensures lines != [] ==> (lines[|lines| - 1].end == |text| <==> !IsSpace(text[|text| - 1]))
  {
    if lines != [] {
      NthLine(text, fits, lines, overrun, |lines| - 1);
      assert Stop(text, lines[|lines| - 1].end);
    }
  }

  // ---------------------------------------------------------------------------------------
  // Well-formed texts
  // ---------------------------------------------------------------------------------------

  /** No leading, trailing or doubled white space. */
  predicate Normalised(text: string) {
    text != "" && !IsSpace(text[0]) && !IsSpace(text[|text| - 1])
    && forall i, j :: 0 <= i && j == i + 1 < |text| ==> !(IsSpace(text[i]) && IsSpace(text[j]))
  }

  predicate Word(text: string, i: nat, j: nat) {
    && i < j <= |text|
    && (i == 0 || IsSpace(text[i - 1])) && Stop(text, j)
    && forall k :: i <= k < j ==> !IsSpace(text[k])
  }

  lemma LineStartsAfterSpace(text: string, fits: string -> bool, lines: seq<Line>, overrun: bool, k: nat)
    requires Wraps(text, fits, lines, overrun) && k < |lines|
    ensures lines[k].start < |text|
    ensures lines[k].start == 0 || (k > 0 && lines[k].start == lines[k - 1].end + 1)
    ensures lines[k].start == 0 || IsSpace(text[lines[k].start - 1])
  {
    NthLine(text, fits, lines, overrun, k);
    if k > 0 {
      NthLine(text, fits, lines, overrun, k - 1);
      assert Stop(text, lines[k - 1].end);
    }
  }

  lemma LineStartsAtWord(text: string, fits: string -> bool, lines: seq<Line>, overrun: bool, k: nat)
    requires Normalised(text) && Wraps(text, fits, lines, overrun) && k < |lines|
    ensures lines[k].start < |text| && !IsSpace(text[lines[k].start])
    ensures lines[k].start == 0 || IsSpace(text[lines[k].start - 1])
  {
    LineStartsAfterSpace(text, fits, lines, overrun, k);
  }

  lemma TooLongIsWord(text: string, fits: string -> bool, l: Line)
    requires LineOk(text, fits, l) && TooLong(text, fits, l)
    requires !IsSpace(text[l.start]) && (l.start == 0 || IsSpace(text[l.start - 1]))
    requires l.start < l.end
    ensures Word(text, l.start, l.end)
  {
    forall k | l.start <= k < l.end
      ensures !IsSpace(text[k])
    {
      if l.start < k {
        assert !Stop(text, k);
      }
    }
  }

  lemma LineNotEmpty(text: string, fits: string -> bool, l: Line)
    requires LineOk(text, fits, l) && !IsSpace(text[l.start])
    ensures l.start < l.end
  {
  }

  /** In a normalised text every line is one that fits and could not take another word, or a single
    * word that does not fit. */
  lemma LinesOfNormalisedText(text: string, fits: string -> bool, lines: seq<Line>, overrun: bool, k: nat)
    requires Normalised(text) && Wraps(text, fits, lines, overrun) && k < |lines|
    ensures LineOk(text, fits, lines[k])
    ensures var l := lines[k];
      || Greedy(text, fits, l)
      || (Word(text, l.start, l.end) && !fits(text[l.start..l.end]))
  {
    var l := lines[k];
    NthLine(text, fits, lines, overrun, k);
    LineStartsAtWord(text, fits, lines, overrun, k);
    LineNotEmpty(text, fits, l);
    if !Greedy(text, fits, l) {
      TooLongIsWord(text, fits, l);
    }
  }

  /** If every word of a normalised text fits on its own: no overrun, every line fits, every line but
    * the last would not fit with one more word, and the lines give back the text. */
  lemma WrapOfFittingWords(text: string, fits: string -> bool, lines: seq<Line>, overrun: bool)
    requires Normalised(text) && Wraps(text, fits, lines, overrun)
    requires forall i: nat, j: nat :: Word(text, i, j) ==> fits(text[i..j])
    ensures !overrun && Complete(text, lines) && InText(text, lines)
    ensures forall k :: 0 <= k < |lines| ==> LineOk(text, fits, lines[k]) && Greedy(text, fits, lines[k])
    ensures Rejoined(text, lines) == text
  {
    RejoinsToText(text, fits, lines, overrun);
    forall k | 0 <= k < |lines|
      ensures LineOk(text, fits, lines[k]) && Greedy(text, fits, lines[k])
    {
      LinesOfNormalisedText(text, fits, lines, overrun, k);
    }
    LastGreedyMeansNoOverrun(text, fits, lines, overrun);
  }

  lemma LastGreedyMeansNoOverrun(text: string, fits: string -> bool, lines: seq<Line>, overrun: bool)
    requires Wraps(text, fits, lines, overrun) && lines != [] && Greedy(text, fits, lines[|lines| - 1])
    ensures !overrun
  {
    var l := lines[|lines| - 1];
    NthLine(text, fits, lines, overrun, |lines| - 1);
    assert Stop(text, l.end);
  }

  /** Dropping words from the front never makes a line too long. */
  ghost predicate SuffixMonotone(fits: string -> bool) {
    forall a: string, b: string :: fits(a + b) ==> fits(b)
  }

  lemma SuffixFits(text: string, fits: string -> bool, i: nat, w: nat)
    requires SuffixMonotone(fits) && i <= w <= |text| && fits(text[i..])
    ensures fits(text[w..])
  {
    assert text[i..] == text[i..w] + text[w..];
  }

  /** How the printing of any text that ends in a word ends, for any oracle: the scan reads past the
    * terminator exactly when the last line is too wide, and then that line is the word, which starts at
    * w, or the word with the one white-space character before it. */
  lemma LastLine(text: string, fits: string -> bool, lines: seq<Line>, overrun: bool, w: nat)
    requires Wraps(text, fits, lines, overrun) && Word(text, w, |text|)
    ensures lines != []
    ensures var l := lines[|lines| - 1];
      && l.end == |text| && l.start <= w && (l.start == 0 || IsSpace(text[l.start - 1]))
      && (overrun <==> !fits(text[l.start..]))
      && (overrun ==> w <= l.start + 1)
  {
    EndOfLines(text, fits, lines, overrun);
    var k := |lines| - 1;
    var l := lines[k];
    NthLine(text, fits, lines, overrun, k);
    LineStartsAfterSpace(text, fits, lines, overrun, k);
    WordIsSuffix(text, l.start, w);
    assert text[l.start..l.end] == text[l.start..] && Stop(text, |text|);
    if overrun {
      assert w > 0 ==> Stop(text, w - 1);
    }
  }

  /** For every text that ends in a word, which starts at w, and every sane oracle: the scan reads past
    * the terminator if and only if that word is too wide on its own, or the last line takes in the white
    * space before it and is too wide with that. */
  lemma OverrunIff(text: string, fits: string -> bool, lines: seq<Line>, overrun: bool, w: nat)
    requires Wraps(text, fits, lines, overrun) && SuffixMonotone(fits) && Word(text, w, |text|)
    ensures lines != []
    ensures overrun <==>
      !fits(text[w..]) || (lines[|lines| - 1].start + 1 == w && !fits(text[lines[|lines| - 1].start..]))
  {
    LastLine(text, fits, lines, overrun, w);
    if !overrun {
      SuffixFits(text, fits, lines[|lines| - 1].start, w);
    }
  }

  /** What a caller can see of that without wrapping: a last word too wide always overruns, and nothing
    * else does unless the word has two white-space characters before it, or one at the start of the
    * text, and is too wide together with the nearer one. A text that ends in white space never does. */
  lemma OverrunBounds(text: string, fits: string -> bool, lines: seq<Line>, overrun: bool, w: nat)
    requires Wraps(text, fits, lines, overrun) && SuffixMonotone(fits) && Word(text, w, |text|)
    ensures !fits(text[w..]) ==> overrun
    ensures overrun ==>
      !fits(text[w..]) || (0 < w && !fits(text[w - 1..]) && (w == 1 || IsSpace(text[w - 2])))
  {
    OverrunIff(text, fits, lines, overrun, w);
    LastLine(text, fits, lines, overrun, w);
  }

  /** For a normalised text and a sane oracle: the scan reads past the terminator if and only if the
    * last word is too wide on its own. */
  lemma OverrunIffLastWordTooWide(text: string, fits: string -> bool, lines: seq<Line>, overrun: bool, w: nat)
    requires Normalised(text) && Wraps(text, fits, lines, overrun)
    requires SuffixMonotone(fits) && Word(text, w, |text|)
    ensures overrun <==> !fits(text[w..])
  {
    OverrunBounds(text, fits, lines, overrun, w);
  }

  lemma TrailingSpaceNeverOverruns(text: string, fits: string -> bool, lines: seq<Line>, overrun: bool)
    requires Wraps(text, fits, lines, overrun) && (text == "" || IsSpace(text[|text| - 1]))
    ensures !overrun
  {
    RejoinsToText(text, fits, lines, overrun);
  }

  // ---------------------------------------------------------------------------------------
  // Overrun, seen from the text without its last word
  // ---------------------------------------------------------------------------------------

  lemma NextStopInPrefix(text: string, w: nat, i: nat)
    requires i < w <= |text| && IsSpace(text[w - 1])
    ensures NextStop(text[..w], i) == NextStop(text, i) < w
  {
    var pre, j := text[..w], NextStop(text, i);
    assert Stop(text, w - 1);
    assert Stop(pre, j);
    forall k | i <= k < j
      ensures !Stop(pre, k)
    {
      assert !Stop(text, k);
    }
    FirstStop(pre, i, j);
  }

  lemma AllFitInPrefix(text: string, fits: string -> bool, w: nat, start: nat, end: nat)
    requires start <= end < w <= |text|
    ensures AllFit(text[..w], fits, start, end) <==> AllFit(text, fits, start, end)
  {
    var pre := text[..w];
    forall e: nat | start <= e <= end
      ensures Stop(pre, e) == Stop(text, e) && pre[start..e] == text[start..e]
    {
    }
  }

  lemma GreedyInPrefix(text: string, fits: string -> bool, w: nat, l: Line)
    requires w <= |text| && l.end + 1 < w && IsSpace(text[w - 1])
    ensures Greedy(text[..w], fits, l) <==> Greedy(text, fits, l)
  {
    if l.start < l.end {
      AllFitInPrefix(text, fits, w, l.start, l.end);
      NextStopInPrefix(text, w, l.end + 1);
      var n := NextStop(text, l.end + 1);
      assert text[..w][l.start..n] == text[l.start..n];
    }
  }

  lemma TooLongInPrefix(text: string, fits: string -> bool, w: nat, l: Line)
    requires l.start <= l.end < w <= |text|
    ensures TooLong(text[..w], fits, l) <==> TooLong(text, fits, l)
  {
    var pre := text[..w];
    assert pre[l.start..l.end] == text[l.start..l.end] && pre[l.start..l.start] == text[l.start..l.start];
    forall e: nat | l.start <= e < l.end
      ensures Stop(pre, e) == Stop(text, e)
    {
    }
  }

  /** A line of the text before position w, which follows white space, is a line of text[..w]. */
  lemma LineToPrefix(text: string, fits: string -> bool, w: nat, l: Line)
    requires LineOk(text, fits, l) && w <= |text| && l.end + 1 < w && IsSpace(text[w - 1])
    ensures LineOk(text[..w], fits, l)
  {
    GreedyInPrefix(text, fits, w, l);
    TooLongInPrefix(text, fits, w, l);
    assert Stop(text, l.end);
  }

  lemma LineFromPrefix(text: string, fits: string -> bool, w: nat, l: Line)
    requires 0 < w <= |text| && IsSpace(text[w - 1]) && LineOk(text[..w], fits, l)
    ensures l.end < w && LineOk(text, fits, l)
  {
    assert text[..w][w - 1] == text[w - 1];
    assert Stop(text[..w], l.end);
    if Greedy(text[..w], fits, l) {
      GreedyInPrefix(text, fits, w, l);
    } else {
      TooLongInPrefix(text, fits, w, l);
    }
  }

  /** If the text before the last word leaves a line that starts at the white space before it, and the
    * word does not fit with that, the last line is too long although the word fits. */
  lemma PendingBlankOverruns(text: string, fits: string -> bool, pre: seq<Line>, po: bool, w: nat)
    requires Word(text, w, |text|) && Wraps(text[..w], fits, pre, po)
    requires NextStart(pre) + 1 == w && fits("") && !fits(text[w - 1..])
    ensures Wraps(text, fits, pre + [Line(w - 1, |text|)], true)
  {
    var l := Line(w - 1, |text|);
    assert text[w - 1..|text|] == text[w - 1..] && text[w - 1..w - 1] == "";
    assert TooLong(text, fits, l) && LineOk(text, fits, l);
    forall k: nat | k < |pre|
      ensures OkAt(text, fits, pre, k) && LinkAt(text, pre, k)
    {
      NthLine(text[..w], fits, pre, po, k);
      LineFromPrefix(text, fits, w, pre[k]);
    }
    AppendLine(text, fits, pre, l);
  }

  /** The other way round: without such a last line the rest is the result for the text before it. */
  lemma InitWraps(text: string, fits: string -> bool, lines: seq<Line>, overrun: bool, w: nat)
    requires Wraps(text, fits, lines, overrun) && Word(text, w, |text|) && fits("")
    requires lines != [] && lines[|lines| - 1].start + 1 == w
    ensures Wraps(text[..w], fits, lines[..|lines| - 1], false)
    ensures NextStart(lines[..|lines| - 1]) + 1 == w
  {
    var init := lines[..|lines| - 1];
    ChainedInit(text, lines);
    forall k: nat | k < |init|
      ensures init[k].end + 1 < w && OkAt(text[..w], fits, init, k) && LinkAt(text[..w], init, k)
    {
      NthLine(text, fits, lines, overrun, k);
      LinesAscend(text, fits, lines, overrun, k);
      LineToPrefix(text, fits, w, lines[k]);
    }
    assert text[..w][w - 1..w - 1] == "";
  }

  /** A line that is not the last ends before the last one starts. */
  lemma {:induction false} LinesAscend(text: string, fits: string -> bool, lines: seq<Line>, overrun: bool, k: nat)
    requires Wraps(text, fits, lines, overrun) && k + 1 < |lines|
    ensures lines[k].end + 1 <= lines[|lines| - 1].start
    decreases |lines| - k
  {
    NthLine(text, fits, lines, overrun, k + 1);
    if k + 2 < |lines| {
      LinesAscend(text, fits, lines, overrun, k + 1);
    }
  }

  /** The exact condition on every text that ends in a word, which starts at w, for any sane oracle, in
    * terms a caller has before the call: the scan reads past the terminator if and only if the word is
    * too wide on its own, or the text before it, rendered by itself, leaves over exactly the white space
    * before the word, and the word is too wide with that. Rendering that text first is safe; see
    * TrailingSpaceNeverOverruns. */
  lemma OverrunIffPending(text: string, fits: string -> bool, lines: seq<Line>, overrun: bool, w: nat,
                          pre: seq<Line>, po: bool)
    requires Wraps(text, fits, lines, overrun) && SuffixMonotone(fits) && Word(text, w, |text|)
    requires Wraps(text[..w], fits, pre, po)
    ensures overrun <==> !fits(text[w..]) || (NextStart(pre) + 1 == w && !fits(text[w - 1..]))
    ensures !po
  {
    assert w > 0 ==> text[..w][w - 1] == text[w - 1];
    TrailingSpaceNeverOverruns(text[..w], fits, pre, po);
    if fits(text[w..]) {
      EmptyFits(fits, text[w..]);
      if overrun {
        OverrunLeavesBlank(text, fits, lines, w, pre, po);
      } else if NextStart(pre) + 1 == w && !fits(text[w - 1..]) {
        PendingBlankOverruns(text, fits, pre, po, w);
        WrapsDetermines(text, fits, lines, overrun, pre + [Line(w - 1, |text|)], true);
      }
    } else {
      OverrunBounds(text, fits, lines, overrun, w);
    }
  }

  lemma EmptyFits(fits: string -> bool, s: string)
    requires SuffixMonotone(fits) && fits(s)
    ensures fits("")
  {
    assert s + "" == s;
  }

  lemma OverrunLeavesBlank(text: string, fits: string -> bool, lines: seq<Line>, w: nat, pre: seq<Line>, po: bool)
    requires Wraps(text, fits, lines, true) && SuffixMonotone(fits) && Word(text, w, |text|) && fits(text[w..])
    requires fits("") && Wraps(text[..w], fits, pre, po)
    ensures NextStart(pre) + 1 == w && !fits(text[w - 1..])
  {
    OverrunIff(text, fits, lines, true, w);
    InitWraps(text, fits, lines, true, w);
    WrapsDetermines(text[..w], fits, pre, po, lines[..|lines| - 1], false);
  }

  predicate UpToFour(s: string) { |s| <= 4 }

  lemma OneLongLine()
    ensures Wraps(" bbbb", UpToFour, [Line(0, 5)], true)
  {
    var l := Line(0, 5);
    assert TooLong(" bbbb", UpToFour, l) && LineOk(" bbbb", UpToFour, l);
    assert [l][..0] == [];
  }

  /** The second case does occur: a leading blank and a word that fits on its own. */
  lemma FittingWordOverruns(lines: seq<Line>, overrun: bool)
    requires Wraps(" bbbb", UpToFour, lines, overrun)
    ensures lines == [Line(0, 5)] && overrun
    ensures SuffixMonotone(UpToFour) && Word(" bbbb", 1, 5) && UpToFour(" bbbb"[1..])
  {
    OneLongLine();
    WrapsDetermines(" bbbb", UpToFour, lines, overrun, [Line(0, 5)], true);
  }

  /** The last word starts no earlier than anything that starts after white space. */
  lemma WordIsSuffix(text: string, i: nat, w: nat)
    requires Word(text, w, |text|) && i < |text| && (i == 0 || IsSpace(text[i - 1]))
    ensures i <= w
  {
  }
}
