/** Normalisation of an uploaded text (`src/text-normalize.ts`): line endings, control
    characters, NFC, blank runs, trailing blanks and hard-wrapped lines. */
module TextNormalize {
  import opened Strings

  // ----- Line endings and control characters -----

  /** `text.replace(/\r\n|\r/g, "\n")`. */
  function NormalizeLineEndings(text: string): string {
    if text == "" then ""
    else if "\r\n" <= text then "\n" + NormalizeLineEndings(text[2..])
    else (if text[0] == '\r' then "\n" else [text[0]]) + NormalizeLineEndings(text[1..])
  }

  /** `text.split(/\r\n|\r|\n/)`. */
  function SplitLines(text: string): (r: seq<string>)
    ensures |r| >= 1
  {
    if text == "" then [""]
    else if "\r\n" <= text then [""] + SplitLines(text[2..])
    else if text[0] == '\r' || text[0] == '\n' then [""] + SplitLines(text[1..])
    else
      var rest := SplitLines(text[1..]);
      [[text[0]] + rest[0]] + rest[1..]
  }

  predicate IsRemovedControlChar(c: char) {
    var code := c as int;
    code != 0x0A && code != 0x09
    && (code <= 0x08 || code == 0x0B || code == 0x0C || 0x0E <= code <= 0x1F || code == 0x7F)
  }

  function WithoutControls(text: string): (r: string)
    ensures |r| <= |text|
  {
    if text == "" then ""
    else (if IsRemovedControlChar(text[0]) then "" else [text[0]]) + WithoutControls(text[1..])
  }

  lemma {:induction false} WithoutControlsAppend(a: string, b: string)
    ensures WithoutControls(a + b) == WithoutControls(a) + WithoutControls(b)
  {
    if a == "" {
      assert a + b == b;
    } else {
      assert (a + b)[1..] == a[1..] + b;
      WithoutControlsAppend(a[1..], b);
    }
  }

  method StripControlChars(text: string) returns (out: string, removed: nat)
    ensures out == WithoutControls(text) && removed == |text| - |out|
  {
    out, removed := "", 0;
    for i := 0 to |text|
      invariant out == WithoutControls(text[..i]) && removed == i - |out|
    {
      assert text[..i + 1] == text[..i] + [text[i]];
      WithoutControlsAppend(text[..i], [text[i]]);
      if IsRemovedControlChar(text[i]) {
        removed := removed + 1;
        continue;
      }
      out := out + [text[i]];
    }
    assert text[..|text|] == text;
  }

  /** What the first two stages make of a text. */
  function Cleaned(text: string): string {
    WithoutControls(NormalizeLineEndings(text))
  }

  predicate Clean(text: string) {
    forall i :: 0 <= i < |text| ==> text[i] != '\r' && !IsRemovedControlChar(text[i])
  }

  lemma {:induction false} LineEndingsLeaveNoCr(text: string)
    ensures forall i :: 0 <= i < |NormalizeLineEndings(text)| ==> NormalizeLineEndings(text)[i] != '\r'
  {
    if text != "" {
      LineEndingsLeaveNoCr(if "\r\n" <= text then text[2..] else text[1..]);
    }
  }

  lemma {:induction false} WithoutControlsClean(text: string)
    requires forall i :: 0 <= i < |text| ==> text[i] != '\r'
    ensures Clean(WithoutControls(text))
  {
    if text != "" {
      WithoutControlsClean(text[1..]);
    }
  }

  lemma CleanedIsClean(text: string)
    ensures Clean(Cleaned(text))
  {
    LineEndingsLeaveNoCr(text);
    WithoutControlsClean(NormalizeLineEndings(text));
  }

  /** A clean text passes the first two stages unchanged. */
  lemma {:induction false} CleanUnchanged(text: string)
    requires Clean(text)
    ensures NormalizeLineEndings(text) == text && WithoutControls(text) == text
  {
    if text != "" {
      assert text[0] != '\r';
      CleanUnchanged(text[1..]);
      assert [text[0]] + text[1..] == text;
    }
  }

  // ----- Blank lines -----

  /** `line.trim().length === 0`. */
  predicate IsBlank(line: string) {
    |Trim(line)| == 0
  }

  lemma {:induction false} BlankIsAllSpace(line: string)
    ensures IsBlank(line) <==> AllSpace(line)
    decreases |line|
  {
    if line != "" && IsSpace(line[0]) {
      BlankIsAllSpace(line[1..]);
      assert AllSpace(line[1..]) ==> AllSpace(line) by {
        assert forall i :: 1 <= i < |line| ==> line[i] == line[1..][i - 1];
      }
      assert AllSpace(line) ==> AllSpace(line[1..]);
    } else if line != "" {
      assert line[0..] == line;
    }
  }

  /** The lines kept, `run` blank ones having come just before. */
  function Collapse(lines: seq<string>, limit: int, run: nat): seq<string> {
    if lines == [] then []
    else if IsBlank(lines[0]) then
      (if run + 1 > limit then [] else [lines[0]]) + Collapse(lines[1..], limit, run + 1)
    else [lines[0]] + Collapse(lines[1..], limit, 0)
  }

  method CollapseLines(lines: seq<string>, maxConsecutiveBlankLines: int) returns (out: seq<string>)
    ensures out == Collapse(lines, maxConsecutiveBlankLines, 0)
  {
    out := [];
    var blankRun := 0;
    for i := 0 to |lines|
      invariant blankRun >= 0
      invariant out + Collapse(lines[i..], maxConsecutiveBlankLines, blankRun)
             == Collapse(lines, maxConsecutiveBlankLines, 0)
    {
      assert lines[i..][1..] == lines[i + 1..];
      if IsBlank(lines[i]) {
        blankRun := blankRun + 1;
        if blankRun > maxConsecutiveBlankLines {
          continue;
        }
      } else {
        blankRun := 0;
      }
      out := out + [lines[i]];
    }
  }

  function CollapseBlankLines(text: string, limit: int): string {
    Join(Collapse(Split(text, '\n'), limit, 0), "\n")
  }

  /** No run of blank lines is longer than the limit. */
  predicate RunsOk(lines: seq<string>, limit: int, run: nat) {
    lines == [] ||
    if IsBlank(lines[0]) then run + 1 <= limit && RunsOk(lines[1..], limit, run + 1)
    else RunsOk(lines[1..], limit, 0)
  }

  lemma RunsOkStep(line: string, rest: seq<string>, limit: int, run: nat)
    ensures RunsOk([line] + rest, limit, run)
       <==> if IsBlank(line) then run + 1 <= limit && RunsOk(rest, limit, run + 1) else RunsOk(rest, limit, 0)
  {
    assert ([line] + rest)[1..] == rest;
  }

  // `kept` is how many of the `run` blank lines before were kept.
  lemma {:induction false} CollapseBoundsRuns(lines: seq<string>, limit: int, run: nat, kept: nat)
    requires if run <= limit then kept == run else kept >= limit
    ensures RunsOk(Collapse(lines, limit, run), limit, kept)
  {
    if lines == [] {
    } else if !IsBlank(lines[0]) {
      CollapseBoundsRuns(lines[1..], limit, 0, 0);
      RunsOkStep(lines[0], Collapse(lines[1..], limit, 0), limit, kept);
    } else if run + 1 > limit {
      CollapseBoundsRuns(lines[1..], limit, run + 1, kept);
      assert [] + Collapse(lines[1..], limit, run + 1) == Collapse(lines[1..], limit, run + 1);
    } else {
      CollapseBoundsRuns(lines[1..], limit, run + 1, kept + 1);
      RunsOkStep(lines[0], Collapse(lines[1..], limit, run + 1), limit, kept);
    }
  }

  lemma {:induction false} CollapseUnchanged(lines: seq<string>, limit: int, run: nat)
    requires RunsOk(lines, limit, run)
    ensures Collapse(lines, limit, run) == lines
  {
    if lines != [] {
      CollapseUnchanged(lines[1..], limit, if IsBlank(lines[0]) then run + 1 else 0);
    }
  }

  // ----- Trailing blanks -----

  predicate IsTail(c: char) {
    c == ' ' || c == '\t'
  }

  /** `line.replace(/[ \t]+$/, "")`. */
  function TrimTail(line: string): (r: string)
    ensures r <= line
    ensures r != "" ==> !IsTail(r[|r| - 1])
  {
    if line != "" && IsTail(line[|line| - 1]) then TrimTail(line[..|line| - 1]) else line
  }

  lemma {:induction false} TrimTailDrops(line: string)
    ensures forall i :: |TrimTail(line)| <= i < |line| ==> IsTail(line[i])
    decreases |line|
  {
    if line != "" && IsTail(line[|line| - 1]) {
      TrimTailDrops(line[..|line| - 1]);
    }
  }

  lemma {:induction false} TrimTailAfter(a: string, b: string)
    requires TrimTail(b) != "" || (a != "" && !IsTail(a[|a| - 1])) || a == ""
    ensures TrimTail(a + b) == a + TrimTail(b)
    decreases |b|
  {
    if b == "" {
      assert a + b == a;
    } else if IsTail(b[|b| - 1]) {
      assert (a + b)[..|a + b| - 1] == a + b[..|b| - 1];
      TrimTailAfter(a, b[..|b| - 1]);
    } else {
      assert (a + b)[|a + b| - 1] == b[|b| - 1];
    }
  }

  lemma TrimTailBlank(line: string)
    ensures IsBlank(TrimTail(line)) <==> IsBlank(line)
    ensures Strip(TrimTail(line)) == Strip(line)
  {
    var r := TrimTail(line);
    BlankIsAllSpace(r);
    BlankIsAllSpace(line);
    assert line == r + line[|r|..];
    TrimTailDrops(line);
    assert AllSpace(line[|r|..]);
    StripAppend(r, line[|r|..]);
    StripAllSpace(line[|r|..]);
    StripAllSpace(r);
    StripAllSpace(line);
  }

  function TrimTails(lines: seq<string>): (r: seq<string>)
    ensures |r| == |lines|
    ensures forall i :: 0 <= i < |lines| ==> r[i] == TrimTail(lines[i])
  {
    if lines == [] then [] else [TrimTail(lines[0])] + TrimTails(lines[1..])
  }

  function TrimTrailingLineWhitespace(text: string): string {
    Join(TrimTails(Split(text, '\n')), "\n")
  }

  lemma {:induction false} TrimTailsKeepRuns(lines: seq<string>, limit: int, run: nat)
    ensures RunsOk(TrimTails(lines), limit, run) <==> RunsOk(lines, limit, run)
  {
    if lines != [] {
      TrimTailBlank(lines[0]);
      assert TrimTails(lines)[1..] == TrimTails(lines[1..]);
      TrimTailsKeepRuns(lines[1..], limit, if IsBlank(lines[0]) then run + 1 else 0);
    }
  }

  // ----- Hard-wrapped lines -----

  /** `SENTENCE_END_CHARS`. */
  predicate IsSentenceEnd(c: char) {
    || c == '。' || c == '！' || c == '？' || c == '…' || c == '‥' || c == '」' || c == '』' || c == '）'
    || c == '】' || c == '〕' || c == '〉' || c == '》' || c == '.' || c == '!' || c == '?'
  }

  /** `PARAGRAPH_HEAD_MARKERS`. */
  predicate IsParagraphHead(c: char) {
    || c == '\U{3000}' || c == '\t' || c == '「' || c == '『' || c == '（' || c == '〈' || c == '《' || c == '【'
  }

  predicate IsAsciiJoin(c: char) {
    'A' <= c <= 'Z' || 'a' <= c <= 'z' || '0' <= c <= '9' || c == ',' || c == ';' || c == ':' || c == ')'
  }

  predicate ShouldPreserveLineBreak(a: string, b: string) {
    var t := TrimTail(a);
    t == "" || b == "" || IsSentenceEnd(t[|t| - 1]) || IsParagraphHead(b[0])
  }

  function LineJoinSeparator(a: string, b: string): string {
    var t := TrimTail(a);
    if t != "" && b != "" && IsAsciiJoin(t[|t| - 1]) && IsAsciiJoin(b[0]) then " " else ""
  }

  /** The output lines still to come when `cur` is the line being built and `a` the last input
      line that went into it. */
  function Merge(cur: string, a: string, rest: seq<string>): (r: seq<string>)
    ensures 1 <= |r| <= |rest| + 1
    decreases rest
  {
    if rest == [] then [cur]
    else if ShouldPreserveLineBreak(a, rest[0]) then [cur] + Merge(rest[0], rest[0], rest[1..])
    else Merge(TrimTail(cur) + LineJoinSeparator(a, rest[0]) + rest[0], rest[0], rest[1..])
  }

  function JoinedLines(lines: seq<string>): (r: seq<string>)
    ensures |r| <= |lines| && (lines != [] ==> r != [])
  {
    if lines == [] then [] else Merge(lines[0], lines[0], lines[1..])
  }

  // What `joinLinesInParagraph` has built: the finished lines and the one being built.
  function Built(done: seq<string>, cur: string): string {
    Join(done + [cur], "\n")
  }

  lemma {:induction false} BuiltIs(done: seq<string>, cur: string)
    ensures Built(done, cur) == (if done == [] then "" else Join(done, "\n") + "\n") + cur
  {
    if done == [] {
      assert [] + [cur] == [cur];
    } else {
      BuiltIs(done[1..], cur);
      assert (done + [cur])[1..] == done[1..] + [cur];
      if |done| == 1 {
        assert done[1..] == [];
      }
    }
  }

  lemma TrimBuilt(done: seq<string>, cur: string)
    ensures TrimTail(Built(done, cur)) == Built(done, TrimTail(cur))
  {
    BuiltIs(done, cur);
    BuiltIs(done, TrimTail(cur));
    var before := if done == [] then "" else Join(done, "\n") + "\n";
    assert before != "" ==> before[|before| - 1] == '\n';
    TrimTailAfter(before, cur);
  }

  lemma BuildKept(done: seq<string>, cur: string, b: string)
    ensures Built(done, cur) + "\n" + b == Built(done + [cur], b)
  {
    BuiltIs(done + [cur], b);
  }

  lemma BuildJoined(done: seq<string>, cur: string, sep: string, b: string)
    ensures TrimTail(Built(done, cur)) + sep + b == Built(done, TrimTail(cur) + sep + b)
  {
    TrimBuilt(done, cur);
    BuiltIs(done, TrimTail(cur));
    BuiltIs(done, TrimTail(cur) + sep + b);
  }

  method JoinLinesInParagraph(paragraph: string) returns (result: string)
    ensures result == Join(JoinedLines(Split(paragraph, '\n')), "\n")
  {
    var lines := Split(paragraph, '\n');
    result := lines[0];
    ghost var all := JoinedLines(lines);
    ghost var done: seq<string>, cur := [], lines[0];
    assert done + [cur] == [cur];
    for i := 1 to |lines|
      invariant result == Built(done, cur)
      invariant |done| <= |all| && done == all[..|done|]
      invariant Merge(cur, lines[i - 1], lines[i..]) == all[|done|..]
    {
      var a, b := lines[i - 1], lines[i];
      assert lines[i..][1..] == lines[i + 1..];
      if ShouldPreserveLineBreak(a, b) {
        BuildKept(done, cur, b);
        result := result + "\n" + b;
        assert all[|done|..][0] == cur && all[|done|..][1..] == all[|done| + 1..];
        done, cur := done + [cur], b;
      } else {
        BuildJoined(done, cur, LineJoinSeparator(a, b), b);
        result := TrimTail(result) + LineJoinSeparator(a, b) + b;
        cur := TrimTail(cur) + LineJoinSeparator(a, b) + b;
      }
    }
    assert all[|done|..] == [cur] && all == done + [cur];
  }

  // ----- Paragraphs -----

  /** Newlines at the start of `text`. */
  function LeadingBreaks(text: string): (k: nat)
    ensures k <= |text|
    ensures forall i :: 0 <= i < k ==> text[i] == '\n'
    ensures k < |text| ==> text[k] != '\n'
  {
    if text == "" || text[0] != '\n' then 0 else 1 + LeadingBreaks(text[1..])
  }

  /** Where the first two newlines in a row start, or the length of the text. */
  function FirstBlankRun(text: string): (i: nat)
    ensures i <= |text|
    ensures i < |text| ==> i + 1 < |text| && text[i] == '\n' && text[i + 1] == '\n'
  {
    if text == "" || "\n\n" <= text then 0 else 1 + FirstBlankRun(text[1..])
  }

  /** `text.split(/(\n{2,})/)`: paragraphs at even indices, the breaks between them at odd ones. */
  function SplitParagraphs(text: string): (r: seq<string>)
    ensures |r| % 2 == 1
    decreases |text|
  {
    var i := FirstBlankRun(text);
    if i == |text| then [text]
    else
      var k := LeadingBreaks(text[i..]);
      [text[..i], text[i..i + k]] + SplitParagraphs(text[i + k..])
  }

  function JoinInParagraph(paragraph: string): string {
    Join(JoinedLines(Split(paragraph, '\n')), "\n")
  }

  function JoinChunks(chunks: seq<string>, index: nat): string {
    if chunks == [] then ""
    else (if index % 2 == 0 then JoinInParagraph(chunks[0]) else chunks[0]) + JoinChunks(chunks[1..], index + 1)
  }

  function JoinWrappedLines(text: string): string {
    JoinChunks(SplitParagraphs(text), 0)
  }

  /** A kept break separates the two sides completely. */
  lemma {:induction false} MergeAcrossBreak(cur: string, a: string, left: seq<string>, right: seq<string>)
    requires right != []
    requires ShouldPreserveLineBreak(if left == [] then a else left[|left| - 1], right[0])
    ensures Merge(cur, a, left + right) == Merge(cur, a, left) + JoinedLines(right)
    decreases left
  {
    if left == [] {
      assert left + right == right;
    } else {
      assert (left + right)[0] == left[0] && (left + right)[1..] == left[1..] + right;
      var cur' := if ShouldPreserveLineBreak(a, left[0]) then left[0]
                  else TrimTail(cur) + LineJoinSeparator(a, left[0]) + left[0];
      MergeAcrossBreak(cur', left[0], left[1..], right);
    }
  }

  lemma JoinedAcrossBreak(left: seq<string>, right: seq<string>)
    requires left != [] && right != []
    requires ShouldPreserveLineBreak(left[|left| - 1], right[0])
    ensures JoinedLines(left + right) == JoinedLines(left) + JoinedLines(right)
  {
    assert (left + right)[1..] == left[1..] + right;
    MergeAcrossBreak(left[0], left[0], left[1..], right);
  }

  lemma {:induction false} JoinTwo(a: seq<string>, b: seq<string>)
    requires a != [] && b != []
    ensures Join(a + b, "\n") == Join(a, "\n") + "\n" + Join(b, "\n")
  {
    if |a| == 1 {
      assert (a + b)[1..] == b;
    } else {
      assert (a + b)[1..] == a[1..] + b;
      JoinTwo(a[1..], b);
    }
  }

  /** Joining the two sides of a line break on its own, when one side is an empty line there. */
  lemma JoinAroundEmptyLine(p: string, q: string)
    requires ShouldPreserveLineBreak(Split(p, '\n')[|Split(p, '\n')| - 1], Split(q, '\n')[0])
    ensures JoinInParagraph(p + "\n" + q) == JoinInParagraph(p) + "\n" + JoinInParagraph(q)
  {
    SplitAppend(p, '\n', q);
    JoinedAcrossBreak(Split(p, '\n'), Split(q, '\n'));
    JoinTwo(JoinedLines(Split(p, '\n')), JoinedLines(Split(q, '\n')));
  }

  function Breaks(k: nat): (r: string)
    ensures |r| == k
  {
    if k == 0 then "" else "\n" + Breaks(k - 1)
  }

  lemma {:induction false} OnlyBreaks(s: string)
    requires forall i :: 0 <= i < |s| ==> s[i] == '\n'
    ensures s == Breaks(|s|)
  {
    if s != "" {
      OnlyBreaks(s[1..]);
      assert s == [s[0]] + s[1..];
    }
  }

  lemma BreakFirst(x: string, k: nat, y: string)
    requires k >= 1
    ensures x + "\n" + (Breaks(k - 1) + y) == x + (Breaks(k) + y) == x + Breaks(k) + y
  {
  }

  lemma JoinAfterBreak(q: string)
    ensures JoinInParagraph("\n" + q) == "\n" + JoinInParagraph(q)
  {
    JoinAroundEmptyLine("", q);
    assert JoinInParagraph("") == "";
    assert "" + "\n" + q == "\n" + q && "" + "\n" + JoinInParagraph(q) == "\n" + JoinInParagraph(q);
  }

  /** Blank lines after a paragraph stay as they are. */
  lemma {:induction false} JoinAfterBreaks(k: nat, q: string)
    ensures JoinInParagraph(Breaks(k) + q) == Breaks(k) + JoinInParagraph(q)
  {
    if k == 0 {
      assert Breaks(0) + q == q;
    } else {
      JoinAfterBreaks(k - 1, q);
      JoinAfterBreak(Breaks(k - 1) + q);
      Assoc("\n", Breaks(k - 1), q);
      Assoc("\n", Breaks(k - 1), JoinInParagraph(q));
    }
  }

  /** A paragraph, a run of two breaks or more, and what follows are joined apart. */
  lemma JoinAcrossBlankRun(p: string, k: nat, q: string)
    requires k >= 2
    ensures JoinInParagraph(p + Breaks(k) + q) == JoinInParagraph(p) + (Breaks(k) + JoinInParagraph(q))
  {
    BreakFirst(p, k, q);
    StartsWithEmptyLine(k - 1, q);
    JoinAroundEmptyLine(p, Breaks(k - 1) + q);
    JoinAfterBreaks(k - 1, q);
    BreakFirst(JoinInParagraph(p), k, JoinInParagraph(q));
  }

  lemma StartsWithEmptyLine(k: nat, q: string)
    requires k >= 1
    ensures Split(Breaks(k) + q, '\n')[0] == ""
  {
    assert (Breaks(k) + q)[0] == '\n';
  }

  lemma JoinChunksStep(p: string, breaks: string, chunks: seq<string>)
    ensures JoinChunks([p, breaks] + chunks, 0) == JoinInParagraph(p) + (breaks + JoinChunks(chunks, 0))
  {
    var all := [p, breaks] + chunks;
    assert all[1..] == [breaks] + chunks && all[1..][1..] == chunks;
    ParityOnly(chunks, 0, 2);
  }

  lemma {:induction false} ParityOnly(chunks: seq<string>, i: nat, j: nat)
    requires i % 2 == j % 2
    ensures JoinChunks(chunks, i) == JoinChunks(chunks, j)
  {
    if chunks != [] {
      ParityOnly(chunks[1..], i + 1, j + 1);
    }
  }

  lemma ThreeParts(text: string, i: nat, k: nat)
    requires i + k <= |text|
    ensures text[i..][..k] == text[i..i + k] && text == text[..i] + text[i..i + k] + text[i + k..]
  {
  }

  lemma LeadingRun(rest: string)
    requires |rest| >= 2 && rest[0] == '\n' && rest[1] == '\n'
    ensures LeadingBreaks(rest) >= 2 && rest[..LeadingBreaks(rest)] == Breaks(LeadingBreaks(rest))
  {
    OnlyBreaks(rest[..LeadingBreaks(rest)]);
  }

  lemma AtBlankRun(text: string)
    requires FirstBlankRun(text) < |text|
    ensures var i := FirstBlankRun(text); var k := LeadingBreaks(text[i..]);
            && k >= 2 && text[i..i + k] == Breaks(k) && text == text[..i] + text[i..i + k] + text[i + k..]
  {
    var rest := text[FirstBlankRun(text)..];
    LeadingRun(rest);
    ThreeParts(text, FirstBlankRun(text), LeadingBreaks(rest));
  }

  /** Splitting into paragraphs first changes nothing: a break next to an empty line is always
      kept, so one pass over all the lines gives the same text. */
  lemma {:induction false} JoinWrappedIsOnePass(text: string)
    ensures JoinWrappedLines(text) == JoinInParagraph(text)
    decreases |text|
  {
    var i := FirstBlankRun(text);
    if i == |text| {
      assert JoinChunks([text], 0) == JoinInParagraph(text) + "";
    } else {
      var k := LeadingBreaks(text[i..]);
      AtBlankRun(text);
      JoinWrappedStep(text, i, k);
      JoinWrappedIsOnePass(text[i + k..]);
      OnePassStep(text, i, k);
    }
  }

  lemma JoinWrappedStep(text: string, i: nat, k: nat)
    requires i == FirstBlankRun(text) < |text| && k == LeadingBreaks(text[i..]) && i + k <= |text|
    ensures JoinWrappedLines(text) == JoinInParagraph(text[..i]) + (text[i..i + k] + JoinWrappedLines(text[i + k..]))
  {
    AtBlankRun(text);
    JoinChunksStep(text[..i], text[i..i + k], SplitParagraphs(text[i + k..]));
  }

  lemma OnePassStep(text: string, i: nat, k: nat)
    requires i == FirstBlankRun(text) < |text| && k == LeadingBreaks(text[i..]) && i + k <= |text|
    ensures JoinInParagraph(text) == JoinInParagraph(text[..i]) + (text[i..i + k] + JoinInParagraph(text[i + k..]))
  {
    AtBlankRun(text);
    JoinAcrossBlankRun(text[..i], k, text[i + k..]);
  }
}
