/** The limits on an uploaded text (`validateTextLimits` in `src/text-normalize.ts`), which are
    checked before the text is normalised, and what that guarantees after it. */
module TextLimits {
  import opened Strings
  import opened TextNormalize
  import opened NormalizeLaws

  datatype Limits = Limits(maxChars: int, maxLines: int, maxLineChars: int)

  datatype Error = EmptyText | TextTooLong | TooManyLines | LineTooLong

  predicate SomeLineTooLong(lines: seq<string>, maxLineChars: int) {
    exists i :: 0 <= i < |lines| && |lines[i]| > maxLineChars
  }

  /** The first condition that fails, in the order in which they are checked. */
  method ValidateTextLimits(text: string, limits: Limits) returns (e: Option<Error>)
    ensures e == Some(EmptyText) <==> AllSpace(text)
    ensures e == Some(TextTooLong) <==> !AllSpace(text) && |text| > limits.maxChars
    ensures e == Some(TooManyLines) <==>
      !AllSpace(text) && |text| <= limits.maxChars && |SplitLines(text)| > limits.maxLines
    ensures e == Some(LineTooLong) <==>
      && !AllSpace(text) && |text| <= limits.maxChars && |SplitLines(text)| <= limits.maxLines
      && SomeLineTooLong(SplitLines(text), limits.maxLineChars)
    ensures e == None <==> Accepted(text, limits)
  {
    if AllSpace(text) {
      return Some(EmptyText);
    }
    if |text| > limits.maxChars {
      return Some(TextTooLong);
    }
    var lines := SplitLines(text);
    if |lines| > limits.maxLines {
      return Some(TooManyLines);
    }
    for i := 0 to |lines|
      invariant forall j :: 0 <= j < i ==> |lines[j]| <= limits.maxLineChars
    {
      if |lines[i]| > limits.maxLineChars {
        return Some(LineTooLong);
      }
    }
    e := None;
  }

  predicate Accepted(text: string, limits: Limits) {
    && !AllSpace(text) && |text| <= limits.maxChars && |SplitLines(text)| <= limits.maxLines
    && !SomeLineTooLong(SplitLines(text), limits.maxLineChars)
  }

  // ----- The lengths of lines -----

  predicate NoLonger(after: seq<string>, before: seq<string>) {
    |after| == |before| && forall i :: 0 <= i < |after| ==> |after[i]| <= |before[i]|
  }

  lemma NoLongerStep(after: seq<string>, before: seq<string>, c: char)
    requires after != [] && NoLonger(after, before)
    ensures NoLonger([""] + after, [""] + before)
    ensures NoLonger([[c] + after[0]] + after[1..], [[c] + before[0]] + before[1..])
    ensures NoLonger(after, [[c] + before[0]] + before[1..])
  {
  }

  /** Removing characters makes no line longer. */
  lemma {:induction false} ControlsShortenLines(text: string)
    ensures NoLonger(Split(WithoutControls(text), '\n'), Split(text, '\n'))
  {
    if text != "" {
      var rest := WithoutControls(text[1..]);
      ControlsShortenLines(text[1..]);
      NoLongerStep(Split(rest, '\n'), Split(text[1..], '\n'), text[0]);
      if IsRemovedControlChar(text[0]) {
        assert WithoutControls(text) == rest;
      } else {
        assert WithoutControls(text)[1..] == rest;
      }
    }
  }

  lemma {:induction false} CollapseSelects(lines: seq<string>, limit: int, run: nat)
    ensures forall line :: line in Collapse(lines, limit, run) ==> line in lines
  {
    if lines != [] {
      CollapseSelects(lines[1..], limit, if IsBlank(lines[0]) then run + 1 else 0);
    }
  }

  /** Before joining, no line is longer than the lines of the text were. */
  lemma LaidOutWithin(text: string, o: Options, max: int)
    requires !SomeLineTooLong(SplitLines(text), max)
    ensures !SomeLineTooLong(LaidOutLines(Cleaned(text), o), max)
  {
    CountedLines(text);
    ControlsShortenLines(NormalizeLineEndings(text));
    var lines := Split(Cleaned(text), '\n');
    CollapseSelects(lines, o.maxConsecutiveBlankLines, 0);
    var kept := AtLeastOne(Collapse(lines, o.maxConsecutiveBlankLines, 0));
    forall i | 0 <= i < |kept| ensures |kept[i]| <= max {
      if Collapse(lines, o.maxConsecutiveBlankLines, 0) != [] {
        assert kept[i] in lines;
      }
    }
  }

  /** What the lines `first`, ..., `last - 1` put before line `last` when they are joined to it:
      each without its trailing blanks, and the separators. */
  function LengthBefore(lines: seq<string>, first: nat, last: nat): nat
    requires first <= last < |lines|
  {
    if first == last then 0
    else LengthBefore(lines, first, last - 1) + |TrimTail(lines[last - 1])|
         + |LineJoinSeparator(lines[last - 1], lines[last])|
  }

  /** The break before line `k` is one that joining removes. */
  predicate Joins(lines: seq<string>, k: int) {
    0 < k < |lines| && !ShouldPreserveLineBreak(lines[k - 1], lines[k])
  }

  predicate AllJoin(lines: seq<string>, first: nat, last: nat) {
    forall k :: first < k <= last ==> Joins(lines, k)
  }

  /** The lines from `first` to `last` are joined, and neither end to what lies beyond. */
  predicate IsRun(lines: seq<string>, first: nat, last: nat) {
    first <= last < |lines| && !Joins(lines, first) && AllJoin(lines, first, last) && !Joins(lines, last + 1)
  }

  predicate LongRun(lines: seq<string>, first: nat, last: nat, max: int) {
    IsRun(lines, first, last) && LengthBefore(lines, first, last) + |lines[last]| > max
  }

  predicate SomeLongRun(lines: seq<string>, max: int) {
    exists first: nat, last: nat :: first < last < |lines| && LongRun(lines, first, last, max)
  }

  predicate LongFrom(lines: seq<string>, start: nat, max: int) {
    exists first: nat, last: nat :: start <= first <= last < |lines| && LongRun(lines, first, last, max)
  }

  /** `cur` is as long as the lines from `first` to `last` together, with and without the blanks at
      the end. */
  predicate HoldsRun(lines: seq<string>, first: nat, last: nat, cur: string) {
    && first <= last < |lines| && !Joins(lines, first) && AllJoin(lines, first, last)
    && |cur| == LengthBefore(lines, first, last) + |lines[last]|
    && (TrimTail(lines[last]) != ""
        ==> |TrimTail(cur)| == LengthBefore(lines, first, last) + |TrimTail(lines[last])|)
  }

  lemma JoinedLengths(before: string, b: string)
    ensures |before + b| == |before| + |b|
    ensures TrimTail(b) != "" ==> |TrimTail(before + b)| == |before| + |TrimTail(b)|
  {
    if TrimTail(b) != "" {
      TrimTailAfter(before, b);
    }
  }

  lemma LengthBeforeStep(lines: seq<string>, first: nat, last: nat)
    requires first <= last && last + 1 < |lines|
    ensures LengthBefore(lines, first, last + 1)
         == LengthBefore(lines, first, last) + |TrimTail(lines[last])| + |LineJoinSeparator(lines[last], lines[last + 1])|
  {
  }

  lemma HoldsRunStep(lines: seq<string>, first: nat, last: nat, cur: string)
    requires HoldsRun(lines, first, last, cur) && Joins(lines, last + 1)
    ensures var a, b := lines[last], lines[last + 1];
            HoldsRun(lines, first, last + 1, TrimTail(cur) + LineJoinSeparator(a, b) + b)
  {
    var a, b := lines[last], lines[last + 1];
    var t, sep := TrimTail(cur), LineJoinSeparator(a, b);
    LengthBeforeStep(lines, first, last);
    JoinedLengths(t + sep, b);
    assert AllJoin(lines, first, last + 1);
  }

  lemma {:induction false} MergedLengths(lines: seq<string>, first: nat, last: nat, cur: string, max: int)
    requires HoldsRun(lines, first, last, cur)
    ensures SomeLineTooLong(Merge(cur, lines[last], lines[last + 1..]), max) <==> LongFrom(lines, first, max)
    decreases |lines| - last
  {
    var rest := lines[last + 1..];
    if rest == [] {
      RunsFrom(lines, first, last, max);
      FirstOrLater(cur, [], max);
      assert [cur] + [] == [cur];
    } else {
      var a, b := lines[last], rest[0];
      assert rest[1..] == lines[last + 2..];
      if ShouldPreserveLineBreak(a, b) {
        RunsFrom(lines, first, last, max);
        MergedLengths(lines, last + 1, last + 1, b, max);
        FirstOrLater(cur, Merge(b, b, rest[1..]), max);
      } else {
        HoldsRunStep(lines, first, last, cur);
        MergedLengths(lines, first, last + 1, TrimTail(cur) + LineJoinSeparator(a, b) + b, max);
      }
    }
  }

  // A run that ends at `last` is the only one to start or end up to there.
  lemma RunsFrom(lines: seq<string>, first: nat, last: nat, max: int)
    requires IsRun(lines, first, last)
    ensures LongFrom(lines, first, max) <==> LongRun(lines, first, last, max) || LongFrom(lines, last + 1, max)
  {
    forall i: nat, j: nat | first <= i <= last && IsRun(lines, i, j) ensures i == first && j == last {
      assert j < last ==> Joins(lines, j + 1);
      assert j > last ==> Joins(lines, last + 1);
    }
  }

  lemma FirstOrLater(line: string, later: seq<string>, max: int)
    ensures SomeLineTooLong([line] + later, max) <==> |line| > max || SomeLineTooLong(later, max)
  {
    var all := [line] + later;
    if |line| > max {
      assert |all[0]| > max;
    }
    if SomeLineTooLong(later, max) {
      var i :| 0 <= i < |later| && |later[i]| > max;
      assert all[i + 1] == later[i];
    }
    if SomeLineTooLong(all, max) {
      var i :| 0 <= i < |all| && |all[i]| > max;
      assert i > 0 ==> later[i - 1] == all[i];
    }
  }

  /** Joining makes a line too long exactly when some run of lines to be joined is too long. */
  lemma JoinedTooLong(lines: seq<string>, max: int)
    requires lines != [] && !SomeLineTooLong(lines, max)
    ensures SomeLineTooLong(JoinedLines(lines), max) <==> SomeLongRun(lines, max)
  {
    MergedLengths(lines, 0, 0, lines[0], max);
    assert forall i: nat :: i < |lines| ==> !LongRun(lines, i, i, max);
  }

  // ----- What acceptance guarantees -----

  /** A text that is accepted stays within the limits on characters and lines when it is normalised
      (NFC aside), whatever the options; it comes out blank exactly when all it holds besides
      whitespace are control characters, which the check does not look for. */
  lemma AcceptedAfterNormalize(text: string, limits: Limits, o: Options)
    requires Accepted(text, limits)
    ensures var out := NormalizeText(text, o, s => s);
            && |out| <= limits.maxChars
            && |SplitLines(out)| <= limits.maxLines
            && (AllSpace(out) <==> WithoutControls(Strip(text)) == "")
  {
    var out := NormalizeText(text, o, s => s);
    NormalizeKeeps(text, o);
    StripAllSpace(out);
    LinesOfNormalized(text, o);
    LayOutByLines(Cleaned(text), o);
  }

  lemma LinesOfNormalized(text: string, o: Options)
    ensures SplitLines(NormalizeText(text, o, s => s)) == FinalLines(Cleaned(text), o)
  {
    var out := NormalizeText(text, o, s => s);
    CleanedIsClean(text);
    LayOutClean(Cleaned(text), o);
    CountedLines(out);
    CleanUnchanged(out);
    LayOutByLines(Cleaned(text), o);
  }

  /** It stays within the limit on the length of a line too, except exactly when lines are joined
      and a run of lines to be joined is too long together. */
  lemma LineLimitAfterNormalize(text: string, limits: Limits, o: Options)
    requires Accepted(text, limits)
    ensures SomeLineTooLong(SplitLines(NormalizeText(text, o, s => s)), limits.maxLineChars)
       <==> o.joinHardWrappedLines && SomeLongRun(LaidOutLines(Cleaned(text), o), limits.maxLineChars)
  {
    assert limits.maxLineChars >= 0 by {
      assert |SplitLines(text)[0]| <= limits.maxLineChars;
    }
    LinesOfNormalized(text, o);
    LaidOutWithin(text, o, limits.maxLineChars);
    LaidOutNoBreaks(Cleaned(text), o);
    if o.joinHardWrappedLines {
      JoinedTooLong(LaidOutLines(Cleaned(text), o), limits.maxLineChars);
    }
  }

  /** Such a text exists: two letters on lines of their own are accepted where a line may hold one
      character, and become one line of three. */
  lemma JoinedPastTheLimit(x: char, y: char, o: Options)
    requires IsAsciiJoin(x) && IsAsciiJoin(y) && o.joinHardWrappedLines
    ensures var text, limits := [x, '\n', y], Limits(3, 2, 1);
            && Accepted(text, limits)
            && SomeLineTooLong(SplitLines(NormalizeText(text, o, s => s)), limits.maxLineChars)
  {
    var text := [x, '\n', y];
    TwoLetters(x, y, text);
    OneLetter(x);
    OneLetter(y);
    CleanUnchanged(text);
    TwoLaidOut([x], [y], text, o);
    LongPair(x, y);
    LineLimitAfterNormalize(text, Limits(3, 2, 1), o);
  }

  lemma TwoLetters(x: char, y: char, text: string)
    requires IsAsciiJoin(x) && IsAsciiJoin(y) && text == [x, '\n', y]
    ensures Clean(text) && Split(text, '\n') == [[x], [y]] && SplitLines(text) == [[x], [y]] && !AllSpace(text)
  {
    assert !IsSpace(text[0]);
    assert Clean(text);
    CountedAsSplit(text);
    TwoLines(x, y);
  }

  lemma CountedAsSplit(text: string)
    requires Clean(text)
    ensures SplitLines(text) == Split(text, '\n')
  {
    CleanUnchanged(text);
    CountedLines(text);
  }

  lemma LongPair(x: char, y: char)
    requires IsAsciiJoin(x) && IsAsciiJoin(y)
    ensures SomeLongRun([[x], [y]], 1)
  {
    var lines := [[x], [y]];
    assert Joins(lines, 1);
    assert LengthBefore(lines, 0, 1) == 2;
    assert LongRun(lines, 0, 1, 1);
  }

  lemma TwoLines(x: char, y: char)
    requires x != '\n' && y != '\n'
    ensures Split([x, '\n', y], '\n') == [[x], [y]]
  {
    SplitAppend([x], '\n', [y]);
    SplitNone([x], '\n');
    SplitNone([y], '\n');
    assert [x] + ['\n'] + [y] == [x, '\n', y];
  }

  lemma TwoLaidOut(a: string, b: string, text: string, o: Options)
    requires Split(text, '\n') == [a, b] && !IsBlank(a) && !IsBlank(b) && TrimTail(a) == a && TrimTail(b) == b
    ensures LaidOutLines(text, o) == [a, b]
  {
    var limit := o.maxConsecutiveBlankLines;
    RunsOkStep(b, [], limit, 0);
    RunsOkStep(a, [b], limit, 0);
    assert [a] + [b] == [a, b] && [b] + [] == [b];
    CollapseUnchanged([a, b], limit, 0);
    assert TrimTails([a, b]) == [a, b];
  }

  lemma OneLetter(x: char)
    requires IsAsciiJoin(x)
    ensures !IsBlank([x]) && TrimTail([x]) == [x]
  {
    BlankIsAllSpace([x]);
    assert !IsSpace([x][0]);
  }

  /** A text that comes out blank: one control character is accepted and leaves nothing. */
  lemma AcceptedCanBeEmptied(c: char, limits: Limits, o: Options)
    requires IsRemovedControlChar(c) && !IsSpace(c)
    requires limits.maxChars >= 1 && limits.maxLines >= 1 && limits.maxLineChars >= 1
    ensures Accepted([c], limits) && AllSpace(NormalizeText([c], o, s => s))
  {
    var text := [c];
    assert c != '\r' && c != '\n';
    assert text[1..] == "";
    assert !("\r\n" <= text);
    assert SplitLines(text) == [[c] + ""];
    assert Strip(text) == [c] + Strip("");
    AcceptedAfterNormalize(text, limits, o);
  }
}
