/** What the whole normalisation keeps, and when running it twice is running it once. */
module NormalizeLaws {
  import opened Strings
  import opened TextNormalize

  datatype Options = Options(maxConsecutiveBlankLines: int, preserveSpaces: bool, joinHardWrappedLines: bool)

  /** Everything after NFC. */
  function LayOut(nfc: string, o: Options): string {
    var collapsed := CollapseBlankLines(nfc, o.maxConsecutiveBlankLines);
    var trimmed := if o.preserveSpaces then collapsed else TrimTrailingLineWhitespace(collapsed);
    if o.joinHardWrappedLines then JoinWrappedLines(trimmed) else trimmed
  }

  /** `normalizeText(...).text`, Unicode normalisation being the parameter `nfc`. */
  function NormalizeText(text: string, o: Options, nfc: string -> string): string {
    LayOut(nfc(Cleaned(text)), o)
  }

  method Normalize(text: string, o: Options, nfc: string -> string) returns (out: string, controlCharsRemoved: nat)
    ensures out == NormalizeText(text, o, nfc)
    ensures controlCharsRemoved == |NormalizeLineEndings(text)| - |Cleaned(text)|
  {
    var stripped, removed := StripControlChars(NormalizeLineEndings(text));
    controlCharsRemoved := removed;
    var lines := CollapseLines(Split(nfc(stripped), '\n'), o.maxConsecutiveBlankLines);
    var collapsed := Join(lines, "\n");
    var trimmed := if o.preserveSpaces then collapsed else TrimTrailingLineWhitespace(collapsed);
    out := trimmed;
    if o.joinHardWrappedLines {
      out := JoinParagraphs(trimmed);
    }
  }

  method JoinParagraphs(text: string) returns (out: string)
    ensures out == JoinWrappedLines(text)
  {
    var chunks := SplitParagraphs(text);
    out := "";
    for i := 0 to |chunks|
      invariant out + JoinChunks(chunks[i..], i) == JoinChunks(chunks, 0)
    {
      var chunk := chunks[i];
      if i % 2 == 0 {
        chunk := JoinLinesInParagraph(chunk);
      }
      JoinChunksFrom(chunks, i);
      Assoc(out, chunk, JoinChunks(chunks[i + 1..], i + 1));
      out := out + chunk;
    }
    assert out + "" == out;
  }

  lemma JoinChunksFrom(chunks: seq<string>, i: nat)
    requires i < |chunks|
    ensures JoinChunks(chunks[i..], i)
         == (if i % 2 == 0 then JoinInParagraph(chunks[i]) else chunks[i]) + JoinChunks(chunks[i + 1..], i + 1)
  {
    assert chunks[i..][1..] == chunks[i + 1..];
  }

  // ----- The same as lists of lines -----

  predicate NoBreaks(lines: seq<string>) {
    forall i :: 0 <= i < |lines| ==> '\n' !in lines[i]
  }

  // The lines of the text that has these lines; no lines at all is the empty text.
  function AtLeastOne(lines: seq<string>): seq<string> {
    if lines == [] then [""] else lines
  }

  lemma LinesOfJoin(lines: seq<string>)
    requires NoBreaks(lines)
    ensures Split(Join(lines, "\n"), '\n') == AtLeastOne(lines)
  {
    if lines != [] {
      SplitJoin(lines, '\n');
    }
  }

  /** The collapsed and trimmed lines, just before joining. */
  function LaidOutLines(nfc: string, o: Options): seq<string> {
    var kept := AtLeastOne(Collapse(Split(nfc, '\n'), o.maxConsecutiveBlankLines, 0));
    if o.preserveSpaces then kept else TrimTails(kept)
  }

  function FinalLines(nfc: string, o: Options): seq<string> {
    if o.joinHardWrappedLines then JoinedLines(LaidOutLines(nfc, o)) else LaidOutLines(nfc, o)
  }

  lemma {:induction false} CollapseNoBreaks(lines: seq<string>, limit: int, run: nat)
    requires NoBreaks(lines)
    ensures NoBreaks(Collapse(lines, limit, run))
  {
    if lines != [] {
      CollapseNoBreaks(lines[1..], limit, if IsBlank(lines[0]) then run + 1 else 0);
    }
  }

  lemma {:induction false} MergeNoBreaks(cur: string, a: string, rest: seq<string>)
    requires '\n' !in cur && NoBreaks(rest)
    ensures NoBreaks(Merge(cur, a, rest))
    decreases rest
  {
    if rest != [] {
      MergeNoBreaks(if ShouldPreserveLineBreak(a, rest[0]) then rest[0]
                    else TrimTail(cur) + LineJoinSeparator(a, rest[0]) + rest[0], rest[0], rest[1..]);
    }
  }

  lemma LaidOutNoBreaks(nfc: string, o: Options)
    ensures NoBreaks(LaidOutLines(nfc, o)) && LaidOutLines(nfc, o) != []
    ensures NoBreaks(FinalLines(nfc, o)) && FinalLines(nfc, o) != []
  {
    SplitHasNoSeparator(nfc, '\n');
    CollapseNoBreaks(Split(nfc, '\n'), o.maxConsecutiveBlankLines, 0);
    var lines := LaidOutLines(nfc, o);
    MergeNoBreaks(lines[0], lines[0], lines[1..]);
  }

  lemma LayOutByLines(nfc: string, o: Options)
    ensures LayOut(nfc, o) == Join(FinalLines(nfc, o), "\n")
    ensures Split(LayOut(nfc, o), '\n') == FinalLines(nfc, o)
  {
    var kept := Collapse(Split(nfc, '\n'), o.maxConsecutiveBlankLines, 0);
    SplitHasNoSeparator(nfc, '\n');
    CollapseNoBreaks(Split(nfc, '\n'), o.maxConsecutiveBlankLines, 0);
    LinesOfJoin(kept);
    assert Join(AtLeastOne(kept), "\n") == Join(kept, "\n");
    LaidOutNoBreaks(nfc, o);
    LinesOfJoin(LaidOutLines(nfc, o));
    LinesOfJoin(FinalLines(nfc, o));
    JoinWrappedIsOnePass(Join(LaidOutLines(nfc, o), "\n"));
  }

  // ----- What is kept -----

  lemma {:induction false} StripJoin(lines: seq<string>)
    ensures Strip(Join(lines, "\n")) == StripAll(lines)
  {
    if |lines| == 1 {
      assert lines[1..] == [];
    } else if |lines| > 1 {
      StripJoin(lines[1..]);
      StripAppend(lines[0] + "\n", Join(lines[1..], "\n"));
      StripAppend(lines[0], "\n");
      assert lines[0] + "\n" + Join(lines[1..], "\n") == (lines[0] + "\n") + Join(lines[1..], "\n");
      assert Strip("\n") == "";
    }
  }

  /** The non-whitespace characters of the lines. */
  function StripAll(lines: seq<string>): string {
    if lines == [] then "" else Strip(lines[0]) + StripAll(lines[1..])
  }

  lemma {:induction false} CollapseKeeps(lines: seq<string>, limit: int, run: nat)
    ensures StripAll(Collapse(lines, limit, run)) == StripAll(lines)
    ensures |Collapse(lines, limit, run)| <= |lines|
  {
    if lines != [] {
      var next := if IsBlank(lines[0]) then run + 1 else 0;
      var rest := Collapse(lines[1..], limit, next);
      CollapseKeeps(lines[1..], limit, next);
      if IsBlank(lines[0]) {
        BlankIsAllSpace(lines[0]);
        StripAllSpace(lines[0]);
        assert [] + rest == rest && "" + StripAll(lines[1..]) == StripAll(lines[1..]);
      }
      assert ([lines[0]] + rest)[1..] == rest;
    }
  }

  lemma {:induction false} TrimTailsKeep(lines: seq<string>)
    ensures StripAll(TrimTails(lines)) == StripAll(lines)
  {
    if lines != [] {
      TrimTailBlank(lines[0]);
      assert TrimTails(lines)[1..] == TrimTails(lines[1..]);
      TrimTailsKeep(lines[1..]);
    }
  }

  lemma JoinedStrip(cur: string, a: string, b: string)
    ensures Strip(TrimTail(cur) + LineJoinSeparator(a, b) + b) == Strip(cur) + Strip(b)
  {
    var t, sep := TrimTail(cur), LineJoinSeparator(a, b);
    TrimTailBlank(cur);
    assert sep == "" || sep == " ";
    assert Strip(" ") == "" && Strip("") == "";
    StripAppend(t + sep, b);
    StripAppend(t, sep);
    assert Strip(t) + "" == Strip(t);
  }

  lemma {:induction false} MergeKeeps(cur: string, a: string, rest: seq<string>)
    ensures StripAll(Merge(cur, a, rest)) == Strip(cur) + StripAll(rest)
    decreases rest
  {
    if rest == [] {
      assert Strip(cur) + "" == Strip(cur);
    } else if ShouldPreserveLineBreak(a, rest[0]) {
      MergeKeeps(rest[0], rest[0], rest[1..]);
      assert ([cur] + Merge(rest[0], rest[0], rest[1..]))[1..] == Merge(rest[0], rest[0], rest[1..]);
    } else {
      MergeKeeps(TrimTail(cur) + LineJoinSeparator(a, rest[0]) + rest[0], rest[0], rest[1..]);
      JoinedStrip(cur, a, rest[0]);
      Assoc(Strip(cur), Strip(rest[0]), StripAll(rest[1..]));
    }
  }

  lemma FinalLinesKeep(nfc: string, o: Options)
    ensures StripAll(FinalLines(nfc, o)) == StripAll(Split(nfc, '\n'))
    ensures |FinalLines(nfc, o)| <= |Split(nfc, '\n')|
  {
    var kept := Collapse(Split(nfc, '\n'), o.maxConsecutiveBlankLines, 0);
    CollapseKeeps(Split(nfc, '\n'), o.maxConsecutiveBlankLines, 0);
    assert StripAll([""]) == "";
    TrimTailsKeep(AtLeastOne(kept));
    var lines := LaidOutLines(nfc, o);
    MergeKeeps(lines[0], lines[0], lines[1..]);
  }

  function JoinedLength(lines: seq<string>): nat {
    if lines == [] then 0 else |lines[0]| + 1 + JoinedLength(lines[1..])
  }

  lemma {:induction false} LengthOfJoin(lines: seq<string>)
    requires lines != []
    ensures |Join(lines, "\n")| == JoinedLength(lines) - 1
  {
    if |lines| == 1 {
      assert lines[1..] == [];
    } else {
      LengthOfJoin(lines[1..]);
    }
  }

  lemma {:induction false} CollapseShrinks(lines: seq<string>, limit: int, run: nat)
    ensures JoinedLength(Collapse(lines, limit, run)) <= JoinedLength(lines)
  {
    if lines != [] {
      var next := if IsBlank(lines[0]) then run + 1 else 0;
      CollapseShrinks(lines[1..], limit, next);
      var rest := Collapse(lines[1..], limit, next);
      assert ([lines[0]] + rest)[1..] == rest && [] + rest == rest;
    }
  }

  lemma {:induction false} TrimTailsShrink(lines: seq<string>)
    ensures JoinedLength(TrimTails(lines)) <= JoinedLength(lines)
  {
    if lines != [] {
      assert TrimTails(lines)[1..] == TrimTails(lines[1..]);
      TrimTailsShrink(lines[1..]);
    }
  }

  lemma {:induction false} MergeShrinks(cur: string, a: string, rest: seq<string>)
    ensures JoinedLength(Merge(cur, a, rest)) <= |cur| + 1 + JoinedLength(rest)
    decreases rest
  {
    if rest == [] {
      assert [cur][1..] == [];
    } else if ShouldPreserveLineBreak(a, rest[0]) {
      MergeShrinks(rest[0], rest[0], rest[1..]);
      assert ([cur] + Merge(rest[0], rest[0], rest[1..]))[1..] == Merge(rest[0], rest[0], rest[1..]);
    } else {
      MergeShrinks(TrimTail(cur) + LineJoinSeparator(a, rest[0]) + rest[0], rest[0], rest[1..]);
    }
  }

  lemma LayOutShrinks(nfc: string, o: Options)
    ensures |LayOut(nfc, o)| <= |nfc|
  {
    var all := Split(nfc, '\n');
    JoinSplit(nfc, '\n');
    LengthOfJoin(all);
    CollapseShrinks(all, o.maxConsecutiveBlankLines, 0);
    var kept := AtLeastOne(Collapse(all, o.maxConsecutiveBlankLines, 0));
    assert JoinedLength([""]) == 1;
    TrimTailsShrink(kept);
    var lines := LaidOutLines(nfc, o);
    MergeShrinks(lines[0], lines[0], lines[1..]);
    LayOutByLines(nfc, o);
    LaidOutNoBreaks(nfc, o);
    LengthOfJoin(FinalLines(nfc, o));
  }

  /** After NFC the layout stages keep the exact sequence of non-whitespace characters, and never
      make the text longer or give it more lines. */
  lemma LayOutKeeps(nfc: string, o: Options)
    ensures Strip(LayOut(nfc, o)) == Strip(nfc)
    ensures |LayOut(nfc, o)| <= |nfc|
    ensures |Split(LayOut(nfc, o), '\n')| <= |Split(nfc, '\n')|
  {
    LayOutByLines(nfc, o);
    FinalLinesKeep(nfc, o);
    StripJoin(FinalLines(nfc, o));
    StripJoin(Split(nfc, '\n'));
    JoinSplit(nfc, '\n');
    LayOutShrinks(nfc, o);
  }

  /** The lines counted before normalisation are the LF-separated lines after it has unified the
      line endings. */
  lemma {:induction false} CountedLines(text: string)
    ensures SplitLines(text) == Split(NormalizeLineEndings(text), '\n')
  {
    if text != "" {
      CountedLines(if "\r\n" <= text then text[2..] else text[1..]);
      var rest := NormalizeLineEndings(if "\r\n" <= text then text[2..] else text[1..]);
      assert NormalizeLineEndings(text)[1..] == rest;
    }
  }

  lemma {:induction false} ControlsKeepLineCount(text: string)
    ensures |Split(WithoutControls(text), '\n')| == |Split(text, '\n')|
  {
    if text != "" {
      ControlsKeepLineCount(text[1..]);
      if !IsRemovedControlChar(text[0]) {
        assert WithoutControls(text)[1..] == WithoutControls(text[1..]);
      } else {
        assert "" + WithoutControls(text[1..]) == WithoutControls(text[1..]);
      }
    }
  }

  lemma {:induction false} CleanedKeeps(text: string)
    ensures Strip(Cleaned(text)) == WithoutControls(Strip(text)) && |Cleaned(text)| <= |text|
  {
    if text != "" {
      var crlf := "\r\n" <= text;
      var rest := if crlf then text[2..] else text[1..];
      var head := if crlf || text[0] == '\r' then "\n" else [text[0]];
      CleanedKeeps(rest);
      WithoutControlsAppend(head, NormalizeLineEndings(rest));
      StripAppend(WithoutControls(head), Cleaned(rest));
      if crlf {
        assert text[1..][1..] == rest;
        assert Strip(text) == Strip(rest);
      } else {
        WithoutControlsAppend(if IsSpace(text[0]) then "" else [text[0]], Strip(rest));
      }
    }
  }

  /** The whole normalisation, NFC aside: exactly the non-whitespace characters that are not
      removed control characters, in order; never more characters; never more lines than
      `validateTextLimits` counted. */
  lemma NormalizeKeeps(text: string, o: Options)
    ensures var out := NormalizeText(text, o, s => s);
            && Strip(out) == WithoutControls(Strip(text))
            && |out| <= |text|
            && |Split(out, '\n')| <= |SplitLines(text)|
  {
    LayOutKeeps(Cleaned(text), o);
    CleanedKeeps(text);
    CountedLines(text);
    ControlsKeepLineCount(NormalizeLineEndings(text));
  }

  // ----- Twice -----

  predicate AllClean(lines: seq<string>) {
    forall i :: 0 <= i < |lines| ==> Clean(lines[i])
  }

  lemma {:induction false} SplitClean(text: string)
    requires Clean(text)
    ensures AllClean(Split(text, '\n'))
  {
    if text != "" {
      assert Clean(text[1..]);
      SplitClean(text[1..]);
    }
  }

  lemma {:induction false} JoinClean(lines: seq<string>)
    requires AllClean(lines)
    ensures Clean(Join(lines, "\n"))
  {
    if |lines| > 1 {
      JoinClean(lines[1..]);
    }
  }

  lemma {:induction false} CollapseClean(lines: seq<string>, limit: int, run: nat)
    requires AllClean(lines)
    ensures AllClean(Collapse(lines, limit, run))
  {
    if lines != [] {
      CollapseClean(lines[1..], limit, if IsBlank(lines[0]) then run + 1 else 0);
    }
  }

  lemma {:induction false} MergeClean(cur: string, a: string, rest: seq<string>)
    requires Clean(cur) && AllClean(rest)
    ensures AllClean(Merge(cur, a, rest))
    decreases rest
  {
    if rest != [] {
      MergeClean(if ShouldPreserveLineBreak(a, rest[0]) then rest[0]
                 else TrimTail(cur) + LineJoinSeparator(a, rest[0]) + rest[0], rest[0], rest[1..]);
    }
  }

  lemma LayOutClean(nfc: string, o: Options)
    requires Clean(nfc)
    ensures Clean(LayOut(nfc, o))
  {
    SplitClean(nfc);
    CollapseClean(Split(nfc, '\n'), o.maxConsecutiveBlankLines, 0);
    var lines := LaidOutLines(nfc, o);
    assert AllClean(lines);
    MergeClean(lines[0], lines[0], lines[1..]);
    LayOutByLines(nfc, o);
    JoinClean(FinalLines(nfc, o));
  }

  /** Joining keeps every run of blank lines within the limit. `before` counts the blank lines
      before `cur`, `run` those of the input up to and with `a`. */
  lemma {:induction false} MergeRunsOk(cur: string, a: string, rest: seq<string>, limit: int, before: nat, run: nat)
    requires RunsOk(rest, limit, run)
    requires IsBlank(cur) ==> before + 1 <= run <= limit
    ensures RunsOk(Merge(cur, a, rest), limit, before)
    decreases rest
  {
    if rest == [] {
      assert [cur][1..] == [];
    } else {
      var b := rest[0];
      var run' := if IsBlank(b) then run + 1 else 0;
      if ShouldPreserveLineBreak(a, b) {
        MergeRunsOk(b, b, rest[1..], limit, if IsBlank(cur) then before + 1 else 0, run');
        RunsOkStep(cur, Merge(b, b, rest[1..]), limit, before);
      } else {
        var sep := LineJoinSeparator(a, b);
        JoinedBlank(cur, sep, b);
        MergeRunsOk(TrimTail(cur) + sep + b, b, rest[1..], limit, before, run');
      }
    }
  }

  lemma JoinedBlank(cur: string, sep: string, b: string)
    ensures IsBlank(TrimTail(cur) + sep + b) ==> IsBlank(cur) && IsBlank(b)
  {
    TrimTailBlank(cur);
    BlankIsAllSpace(TrimTail(cur) + sep + b);
    BlankIsAllSpace(TrimTail(cur));
    BlankIsAllSpace(b);
    var all := TrimTail(cur) + sep + b;
    assert forall i :: 0 <= i < |TrimTail(cur)| ==> TrimTail(cur)[i] == all[i];
    assert forall i :: 0 <= i < |b| ==> b[i] == all[|TrimTail(cur) + sep| + i];
  }

  lemma FinalLinesRunsOk(nfc: string, o: Options)
    requires Collapse(Split(nfc, '\n'), o.maxConsecutiveBlankLines, 0) != []
    ensures RunsOk(FinalLines(nfc, o), o.maxConsecutiveBlankLines, 0)
  {
    var limit := o.maxConsecutiveBlankLines;
    var kept := Collapse(Split(nfc, '\n'), limit, 0);
    CollapseBoundsRuns(Split(nfc, '\n'), limit, 0, 0);
    TrimTailsKeepRuns(kept, limit, 0);
    var lines := LaidOutLines(nfc, o);
    MergeRunsOk(lines[0], lines[0], lines[1..], limit, 0, if IsBlank(lines[0]) then 1 else 0);
  }

  predicate AllTrimmed(lines: seq<string>) {
    forall i :: 0 <= i < |lines| ==> TrimTail(lines[i]) == lines[i]
  }

  lemma {:induction false} TrimTailIdempotent(line: string)
    ensures TrimTail(TrimTail(line)) == TrimTail(line)
  {
  }

  lemma {:induction false} MergeTrimmed(cur: string, a: string, rest: seq<string>)
    requires TrimTail(cur) == cur && AllTrimmed(rest)
    ensures AllTrimmed(Merge(cur, a, rest))
    decreases rest
  {
    if rest != [] {
      var b := rest[0];
      if ShouldPreserveLineBreak(a, b) {
        MergeTrimmed(b, b, rest[1..]);
      } else {
        TrimTailAfter(TrimTail(cur) + LineJoinSeparator(a, b), b);
        MergeTrimmed(TrimTail(cur) + LineJoinSeparator(a, b) + b, b, rest[1..]);
      }
    }
  }

  lemma {:induction false} TrimmedUnchanged(lines: seq<string>)
    requires AllTrimmed(lines)
    ensures TrimTails(lines) == lines
  {
    if lines != [] {
      TrimmedUnchanged(lines[1..]);
    }
  }

  lemma FinalLinesTrimmed(nfc: string, o: Options)
    requires !o.preserveSpaces
    ensures TrimTails(FinalLines(nfc, o)) == FinalLines(nfc, o)
  {
    var lines := LaidOutLines(nfc, o);
    assert AllTrimmed(lines) by {
      forall i | 0 <= i < |lines| ensures TrimTail(lines[i]) == lines[i] {
        TrimTailIdempotent(AtLeastOne(Collapse(Split(nfc, '\n'), o.maxConsecutiveBlankLines, 0))[i]);
      }
    }
    MergeTrimmed(lines[0], lines[0], lines[1..]);
    TrimmedUnchanged(FinalLines(nfc, o));
  }

  // ----- Joining twice -----

  /** No break between these lines would be joined. */
  predicate Stable(lines: seq<string>) {
    |lines| <= 1 || (ShouldPreserveLineBreak(lines[0], lines[1]) && Stable(lines[1..]))
  }

  lemma {:induction false} StableUnchanged(lines: seq<string>)
    requires lines != []
    ensures JoinedLines(lines) == lines <==> Stable(lines)
    ensures !Stable(lines) ==> |JoinedLines(lines)| < |lines|
  {
    if |lines| > 1 {
      StableUnchanged(lines[1..]);
      assert lines[1..][0] == lines[1] && lines[1..][1..] == lines[2..];
      if ShouldPreserveLineBreak(lines[0], lines[1]) {
        assert JoinedLines(lines) == [lines[0]] + JoinedLines(lines[1..]);
        assert JoinedLines(lines)[1..] == JoinedLines(lines[1..]);
      }
    }
  }

  /** A spaces-only line that was absorbed into the line before it, with a next line that only the
      spaces kept apart. */
  predicate AbsorbedAt(lines: seq<string>, i: nat)
    requires i < |lines|
  {
    && 0 < i < |lines| - 1
    && TrimTail(lines[i]) == ""
    && !ShouldPreserveLineBreak(lines[i - 1], lines[i])
    && lines[i + 1] != "" && !IsParagraphHead(lines[i + 1][0])
  }

  predicate SomeAbsorbed(lines: seq<string>) {
    exists i :: 0 <= i < |lines| && AbsorbedAt(lines, i)
  }

  /** The same, read from the front: `absorbed` says that `a` is spaces-only and was absorbed. */
  predicate Unsettled(absorbed: bool, a: string, rest: seq<string>)
    decreases rest
  {
    rest != [] &&
    if ShouldPreserveLineBreak(a, rest[0]) then
      (absorbed && rest[0] != "" && !IsParagraphHead(rest[0][0])) || Unsettled(false, rest[0], rest[1..])
    else Unsettled(TrimTail(rest[0]) == "", rest[0], rest[1..])
  }

  lemma {:induction false} UnsettledIsAbsorbed(before: seq<string>, a: string, rest: seq<string>)
    ensures var lines := before + [a] + rest;
            var absorbed := before != [] && TrimTail(a) == "" && !ShouldPreserveLineBreak(before[|before| - 1], a);
            Unsettled(absorbed, a, rest)
            <==> exists i: nat :: |before| <= i < |lines| && AbsorbedAt(lines, i)
    decreases rest
  {
    var lines := before + [a] + rest;
    assert lines[|before|] == a && (before != [] ==> lines[|before| - 1] == before[|before| - 1]);
    if rest != [] {
      UnsettledIsAbsorbed(before + [a], rest[0], rest[1..]);
      assert (before + [a]) + [rest[0]] + rest[1..] == lines;
      assert lines[|before| + 1] == rest[0];
      assert |before + [a]| == |before| + 1;
      var here := AbsorbedAt(lines, |before|);
      assert (exists i: nat :: |before| <= i < |lines| && AbsorbedAt(lines, i))
          <==> here || exists i: nat :: |before| + 1 <= i < |lines| && AbsorbedAt(lines, i);
    }
  }

  /** What is known of the line being built: it ends like the last line that went into it, unless
      that one was absorbed, when it ends inside a sentence. */
  predicate EndsLike(cur: string, a: string, absorbed: bool) {
    var t := TrimTail(cur);
    if absorbed then TrimTail(a) == "" && t != "" && !IsSentenceEnd(t[|t| - 1])
    else if TrimTail(a) == "" then t == ""
    else t != "" && t[|t| - 1] == TrimTail(a)[|TrimTail(a)| - 1]
  }

  lemma JoinedEnd(cur: string, a: string, absorbed: bool, b: string)
    requires EndsLike(cur, a, absorbed) && !ShouldPreserveLineBreak(a, b)
    ensures EndsLike(TrimTail(cur) + LineJoinSeparator(a, b) + b, b, TrimTail(b) == "")
  {
    var x := TrimTail(cur) + LineJoinSeparator(a, b);
    if TrimTail(b) == "" {
      AbsorbedEnd(cur, a, absorbed, b);
    } else {
      EndsLikeLast(x, b);
    }
  }

  lemma EndsLikeLast(x: string, b: string)
    requires TrimTail(b) != ""
    ensures EndsLike(x + b, b, false)
  {
    TrimTailAfter(x, b);
    assert (x + TrimTail(b))[|x + TrimTail(b)| - 1] == TrimTail(b)[|TrimTail(b)| - 1];
  }

  // A spaces-only line starts with a space, so it is absorbed without a separator.
  lemma AbsorbedEnd(cur: string, a: string, absorbed: bool, b: string)
    requires EndsLike(cur, a, absorbed) && !ShouldPreserveLineBreak(a, b) && TrimTail(b) == ""
    ensures TrimTail(TrimTail(cur) + LineJoinSeparator(a, b) + b) == TrimTail(cur)
    ensures TrimTail(cur) != "" && !IsSentenceEnd(TrimTail(cur)[|TrimTail(cur)| - 1])
  {
    var t := TrimTail(cur);
    TrimTailDrops(b);
    assert IsTail(b[0]);
    assert LineJoinSeparator(a, b) == "";
    assert t + "" == t;
    TrimTailAfter(t, b);
  }

  lemma {:induction false} MergeStable(cur: string, a: string, absorbed: bool, rest: seq<string>)
    requires EndsLike(cur, a, absorbed)
    ensures Stable(Merge(cur, a, rest)) <==> !Unsettled(absorbed, a, rest)
    ensures Merge(cur, a, rest)[0] != "" <==> cur != ""
    ensures cur != "" ==> Merge(cur, a, rest)[0][0] == cur[0]
    decreases rest
  {
    if rest != [] {
      var b := rest[0];
      if ShouldPreserveLineBreak(a, b) {
        MergeStable(b, b, false, rest[1..]);
        var r := Merge(b, b, rest[1..]);
        assert ([cur] + r)[1] == r[0] && ([cur] + r)[1..] == r;
      } else {
        JoinedEnd(cur, a, absorbed, b);
        MergeStable(TrimTail(cur) + LineJoinSeparator(a, b) + b, b, TrimTail(b) == "", rest[1..]);
        assert TrimTail(cur) != "";
      }
    }
  }

  /** Joining twice is joining once exactly when no absorbed line kept its neighbours apart. */
  lemma JoinedTwice(lines: seq<string>)
    requires lines != []
    ensures JoinedLines(JoinedLines(lines)) == JoinedLines(lines) <==> !SomeAbsorbed(lines)
  {
    var a := lines[0];
    MergeStable(a, a, false, lines[1..]);
    StableUnchanged(JoinedLines(lines));
    UnsettledIsAbsorbed([], a, lines[1..]);
    assert [] + [a] + lines[1..] == lines;
  }

  // ----- The whole pipeline twice -----

  /** Spaces are kept, lines are joined, and some spaces-only line is absorbed in between. */
  predicate Unstable(nfc: string, o: Options) {
    o.preserveSpaces && o.joinHardWrappedLines && SomeAbsorbed(LaidOutLines(nfc, o))
  }

  lemma TrimmedNotAbsorbed(lines: seq<string>)
    requires AllTrimmed(lines)
    ensures !SomeAbsorbed(lines)
  {
    forall i | 0 < i < |lines| - 1 && TrimTail(lines[i]) == ""
      ensures !AbsorbedAt(lines, i)
    {
      assert lines[i] == "";
    }
  }

  lemma EmptyLaidOut(o: Options)
    ensures LayOut("", o) == ""
  {
    LayOutShrinks("", o);
  }

  lemma LayOutTwice(nfc: string, o: Options)
    ensures LayOut(LayOut(nfc, o), o) == LayOut(nfc, o) <==> !Unstable(nfc, o)
  {
    var out := LayOut(nfc, o);
    var final := FinalLines(nfc, o);
    LayOutByLines(nfc, o);
    LayOutByLines(out, o);
    LaidOutNoBreaks(nfc, o);
    LaidOutNoBreaks(out, o);
    var limit := o.maxConsecutiveBlankLines;
    if Collapse(Split(nfc, '\n'), limit, 0) == [] {
      assert LaidOutLines(nfc, o) == [""];
      assert final == [""];
      EmptyLaidOut(o);
    } else {
      FinalLinesRunsOk(nfc, o);
      CollapseUnchanged(final, limit, 0);
      if !o.preserveSpaces {
        FinalLinesTrimmed(nfc, o);
      }
      assert LaidOutLines(out, o) == final;
      SecondJoin(nfc, o);
      if Join(FinalLines(out, o), "\n") == Join(final, "\n") {
        LinesOfJoin(FinalLines(out, o));
        LinesOfJoin(final);
      }
    }
  }

  lemma SecondJoin(nfc: string, o: Options)
    requires o.joinHardWrappedLines ==> LaidOutLines(nfc, o) != []
    ensures var final := FinalLines(nfc, o);
            (if o.joinHardWrappedLines then JoinedLines(final) else final) == final <==> !Unstable(nfc, o)
  {
    if o.joinHardWrappedLines {
      var lines := LaidOutLines(nfc, o);
      JoinedTwice(lines);
      if !o.preserveSpaces {
        forall i | 0 <= i < |lines| ensures TrimTail(lines[i]) == lines[i] {
          TrimTailIdempotent(AtLeastOne(Collapse(Split(nfc, '\n'), o.maxConsecutiveBlankLines, 0))[i]);
        }
        TrimmedNotAbsorbed(lines);
      }
    }
  }

  /** Where NFC leaves the output alone (and brings back no carriage return or control character),
      normalising twice is normalising once for every text and every option, except exactly when
      spaces are kept, lines are joined and a spaces-only line was absorbed between two lines. */
  lemma NormalizeTwice(text: string, o: Options, nfc: string -> string)
    requires Clean(nfc(Cleaned(text)))
    requires nfc(NormalizeText(text, o, nfc)) == NormalizeText(text, o, nfc)
    ensures NormalizeText(NormalizeText(text, o, nfc), o, nfc) == NormalizeText(text, o, nfc)
       <==> !Unstable(nfc(Cleaned(text)), o)
  {
    var out := NormalizeText(text, o, nfc);
    LayOutClean(nfc(Cleaned(text)), o);
    CleanUnchanged(out);
    LayOutTwice(nfc(Cleaned(text)), o);
  }

  /** Two lines with a line between them that holds only a space. */
  function Spaced(a: string, b: string): string {
    a + "\n \n" + b
  }

  /** The exception, on every such text whose two lines would be joined if they were neighbours: the
      space is absorbed by the first pass, and lets the second pass join the two. */
  lemma UnstableExample(a: string, b: string, limit: nat, nfc: string -> string)
    requires Clean(a) && Clean(b) && '\n' !in a && '\n' !in b && limit >= 1
    requires !IsBlank(a) && !IsBlank(b) && !ShouldPreserveLineBreak(a, b)
    requires nfc(Spaced(a, b)) == Spaced(a, b)
    requires var once := NormalizeText(Spaced(a, b), Options(limit, true, true), nfc); nfc(once) == once
    ensures var o := Options(limit, true, true); var once := NormalizeText(Spaced(a, b), o, nfc);
            NormalizeText(once, o, nfc) != once
  {
    var text, o := Spaced(a, b), Options(limit, true, true);
    SpacedLines(a, b);
    CleanUnchanged(text);
    SpacedAbsorbs(a, b, " ", limit);
    NormalizeTwice(text, o, nfc);
  }

  lemma SpacedLines(a: string, b: string)
    requires Clean(a) && Clean(b) && '\n' !in a && '\n' !in b
    ensures Clean(Spaced(a, b)) && Split(Spaced(a, b), '\n') == [a, " ", b]
  {
    ThreeLines(a, " ", b);
    assert Spaced(a, b) == a + "\n" + (" " + "\n" + b);
  }

  lemma SpacedAbsorbs(a: string, b: string, sp: string, limit: nat)
    requires sp == " " && limit >= 1 && !IsBlank(a) && !IsBlank(b) && !ShouldPreserveLineBreak(a, b)
    ensures Collapse([a, sp, b], limit, 0) == [a, sp, b] && SomeAbsorbed([a, sp, b])
  {
    ThreeLinesRunsOk(a, sp, b, limit);
    CollapseUnchanged([a, sp, b], limit, 0);
    assert AbsorbedAt([a, sp, b], 1);
  }

  lemma ThreeLines(a: string, sp: string, b: string)
    requires '\n' !in a && '\n' !in sp && '\n' !in b
    ensures Split(a + "\n" + (sp + "\n" + b), '\n') == [a, sp, b]
  {
    SplitAppend(a, '\n', sp + "\n" + b);
    SplitAppend(sp, '\n', b);
    SplitNone(a, '\n');
    SplitNone(sp, '\n');
    SplitNone(b, '\n');
  }

  lemma ThreeLinesRunsOk(a: string, sp: string, b: string, limit: nat)
    requires limit >= 1 && !IsBlank(a) && !IsBlank(b)
    ensures RunsOk([a, sp, b], limit, 0)
  {
    RunsOkStep(b, [], limit, 1);
    RunsOkStep(b, [], limit, 0);
    RunsOkStep(sp, [b], limit, 0);
    RunsOkStep(a, [sp, b], limit, 0);
    assert [a, sp, b] == [a] + [sp, b] && [sp, b] == [sp] + [b] && [b] == [b] + [];
  }

  /** In particular it always is unless spaces are kept and lines are joined. */
  lemma NormalizeIdempotent(text: string, o: Options, nfc: string -> string)
    requires Clean(nfc(Cleaned(text))) && (!o.preserveSpaces || !o.joinHardWrappedLines)
    requires nfc(NormalizeText(text, o, nfc)) == NormalizeText(text, o, nfc)
    ensures NormalizeText(NormalizeText(text, o, nfc), o, nfc) == NormalizeText(text, o, nfc)
  {
    NormalizeTwice(text, o, nfc);
  }
}
