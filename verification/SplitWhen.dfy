/** When a document is split and when it is refused, which the last guard of `splitContentIntoChunks`
    decides; and what the chunks weigh when it is split. */
module SplitWhen {
  import opened Strings
  import opened Html
  import opened Segments
  import opened Boundaries
  import opened Splitter

  // ----- The guard -----

  /** Some segment between the cuts has text. */
  predicate HasText(segs: seq<Segment>, i: nat, j: nat)
    requires i <= j <= |segs|
  {
    exists k :: i <= k < j && segs[k].textLen > 0
  }

  lemma {:induction false} WeightOfText(segs: seq<Segment>)
    ensures Weight(segs) > 0 <==> HasText(segs, 0, |segs|)
  {
    if segs != [] {
      var rest := segs[1..];
      WeightOfText(rest);
      if Weight(rest) > 0 {
        var k :| 0 <= k < |rest| && rest[k].textLen > 0;
        assert segs[k + 1].textLen > 0;
      }
      if HasText(segs, 0, |segs|) {
        var k :| 0 <= k < |segs| && segs[k].textLen > 0;
        assert k > 0 ==> rest[k - 1] == segs[k];
      }
    }
  }

  lemma SliceHasText(segs: seq<Segment>, i: nat, j: nat)
    requires i <= j <= |segs|
    ensures Weight(segs[i..j]) > 0 <==> HasText(segs, i, j)
  {
    var part := segs[i..j];
    WeightOfText(part);
    if HasText(part, 0, |part|) {
      var k :| 0 <= k < |part| && part[k].textLen > 0;
      assert segs[i + k].textLen > 0;
    }
    if HasText(segs, i, j) {
      var k :| i <= k < j && segs[k].textLen > 0;
      assert part[k - i] == segs[k];
    }
  }

  predicate TextAt(segs: seq<Segment>, cuts: seq<nat>, t: nat)
    requires Ordered(cuts, |segs|) && t < CHUNK_COUNT
  {
    HasText(segs, cuts[t], cuts[t + 1])
  }

  /** Between any two neighbouring cuts lies some text. */
  predicate TextBetween(segs: seq<Segment>, cuts: seq<nat>)
    requires Ordered(cuts, |segs|)
  {
    forall t {:trigger TextAt(segs, cuts, t)} :: 0 <= t < CHUNK_COUNT ==> TextAt(segs, cuts, t)
  }

  lemma ChunkTextExactly(segs: seq<Segment>, cuts: seq<nat>, t: nat)
    requires AllHonest(segs) && Ordered(cuts, |segs|) && t < CHUNK_COUNT
    ensures Assembled(segs, cuts)[t].textLength > 0 <==> TextAt(segs, cuts, t)
  {
    AssembledChunk(segs, cuts, t);
    SliceTextAt(segs, cuts, t);
  }

  lemma SliceTextAt(segs: seq<Segment>, cuts: seq<nat>, t: nat)
    requires Ordered(cuts, |segs|) && t < CHUNK_COUNT
    ensures Weight(Slice(segs, cuts, t)) > 0 <==> TextAt(segs, cuts, t)
  {
    SliceHasText(segs, cuts[t], cuts[t + 1]);
  }

  lemma EmptyChunkExactly(segs: seq<Segment>, cuts: seq<nat>)
    requires AllHonest(segs) && Ordered(cuts, |segs|)
    ensures SomeChunkEmpty(Assembled(segs, cuts)) <==> !TextBetween(segs, cuts)
  {
    var chunks := Assembled(segs, cuts);
    forall t | 0 <= t < CHUNK_COUNT ensures chunks[t].textLength > 0 <==> TextAt(segs, cuts, t) {
      ChunkTextExactly(segs, cuts, t);
    }
    if SomeChunkEmpty(chunks) {
      var i :| 0 <= i < |chunks| && chunks[i].textLength == 0;
      assert !TextAt(segs, cuts, i);
    }
    if !TextBetween(segs, cuts) {
      var t :| 0 <= t < CHUNK_COUNT && !TextAt(segs, cuts, t);
      assert chunks[t].textLength == 0;
    }
  }

  lemma TextBetweenFour(segs: seq<Segment>, raw: seq<nat>)
    requires |raw| == 3 && Ordered(CutPoints(segs, raw), |segs|)
    ensures TextBetween(segs, CutPoints(segs, raw)) <==>
      && HasText(segs, 0, raw[0]) && HasText(segs, raw[0], raw[1])
      && HasText(segs, raw[1], raw[2]) && HasText(segs, raw[2], |segs|)
  {
    var cuts := CutPoints(segs, raw);
    assert TextAt(segs, cuts, 0) <==> HasText(segs, 0, raw[0]);
    assert TextAt(segs, cuts, 1) <==> HasText(segs, raw[0], raw[1]);
    assert TextAt(segs, cuts, 2) <==> HasText(segs, raw[1], raw[2]);
    assert TextAt(segs, cuts, 3) <==> HasText(segs, raw[2], |segs|);
  }

  /** The cut points after the repair. */
  function FinalCuts(segs: seq<Segment>, raw: seq<nat>): seq<nat>
    requires RawInside(segs, raw)
  {
    CutPoints(segs, Repair(segs, raw, 0))
  }

  /** The segments of a document, after forcing. */
  function SegmentsOf(root: seq<Node>): Option<seq<Segment>> {
    Forced(Flatten(root, StrippedLength(TextContent(root)), 0))
  }

  /** A document with text whose segments suffice is split if and only if some text lies between any two
      neighbouring cuts; otherwise it is refused. */
  lemma SplitExactly(root: seq<Node>, segs: seq<Segment>, raw: seq<nat>)
    requires WellFormed(root) && StrippedLength(TextContent(root)) > 0
    requires SegmentsOf(root) == Some(segs) && AreCuts(segs, raw)
    ensures RawInside(segs, raw) && Ordered(FinalCuts(segs, raw), |segs|)
    ensures IsSplit(root, Some(Assembled(segs, FinalCuts(segs, raw)))) <==> TextBetween(segs, FinalCuts(segs, raw))
    ensures IsSplit(root, None) <==> !TextBetween(segs, FinalCuts(segs, raw))
  {
    FinalCutsOrdered(segs, raw);
    ForcedKeepsText(root, StrippedLength(TextContent(root)));
    var cuts := FinalCuts(segs, raw);
    EmptyChunkExactly(segs, cuts);
    var r := CheckChunks(Assembled(segs, cuts));
    assert FromCuts(segs, raw, r);
    assert IsSplit(root, r);
    if IsSplit(root, Some(Assembled(segs, cuts))) {
      SplitUnique(root, r, Some(Assembled(segs, cuts)));
    }
    if IsSplit(root, None) {
      SplitUnique(root, r, None);
    }
  }

  // ----- Balance -----

  lemma CutsStay(segs: seq<Segment>, raw: seq<nat>)
    requires QuarterBounded(segs) && Weight(segs) > 0 && AreCuts(segs, raw) && NoOrphans(segs, raw, 0)
    ensures RawInside(segs, raw) && FinalCuts(segs, raw) == CutPoints(segs, raw)
    ensures Ordered(CutPoints(segs, raw), |segs|) && |raw| == 3
  {
    QuarterBoundedIsBalanced(segs, raw);
    RisingThree(raw, |segs|);
    RepairFixes(segs, raw, 0);
  }

  lemma ChunkWeights(segs: seq<Segment>, raw: seq<nat>)
    requires AllHonest(segs) && |raw| == 3 && Ordered(CutPoints(segs, raw), |segs|)
    ensures var chunks := Assembled(segs, CutPoints(segs, raw));
            && chunks[0].textLength == Weight(segs[..raw[0]])
            && chunks[1].textLength == Weight(segs[raw[0]..raw[1]])
            && chunks[2].textLength == Weight(segs[raw[1]..raw[2]])
            && chunks[3].textLength == Weight(segs[raw[2]..])
            && chunks[0].textLength + chunks[1].textLength + chunks[2].textLength + chunks[3].textLength
               == Weight(segs)
  {
    var cuts := CutPoints(segs, raw);
    OuterSlices(segs, raw);
    AssembledChunk(segs, cuts, 0);
    AssembledChunk(segs, cuts, 1);
    AssembledChunk(segs, cuts, 2);
    AssembledChunk(segs, cuts, 3);
    WeightsAddUp(segs, raw[0], raw[1], raw[2]);
  }

  lemma WeightsAddUp(segs: seq<Segment>, i: nat, j: nat, k: nat)
    requires i <= j <= k <= |segs|
    ensures Weight(segs[..i]) + Weight(segs[i..j]) + Weight(segs[j..k]) + Weight(segs[k..]) == Weight(segs)
  {
    WeightBetween(segs, i, j);
    WeightBetween(segs, j, k);
    WeightFrom(segs, k);
  }

  lemma WeightFrom(segs: seq<Segment>, k: nat)
    requires k <= |segs|
    ensures Weight(segs[k..]) == Weight(segs) - Before(segs, k)
  {
    WeightBetween(segs, k, |segs|);
    AsSlices(segs, 0, k);
    assert segs[..|segs|] == segs;
  }

  lemma OuterSlices(segs: seq<Segment>, raw: seq<nat>)
    requires |raw| == 3 && Ordered(CutPoints(segs, raw), |segs|)
    ensures Slice(segs, CutPoints(segs, raw), 0) == segs[..raw[0]]
    ensures Slice(segs, CutPoints(segs, raw), 1) == segs[raw[0]..raw[1]]
    ensures Slice(segs, CutPoints(segs, raw), 2) == segs[raw[1]..raw[2]]
    ensures Slice(segs, CutPoints(segs, raw), 3) == segs[raw[2]..]
  {
  }

  /** A document whose segments suffice, none of them above a quarter of the text, and no cut that has to
      move off a heading: the chunks are balanced, 5% to 45% in the outer ones and at most 65% in the inner ones; and
      they are the split if and only if both inner ones have text. Otherwise the document is refused. */
  lemma BalancedSplit(root: seq<Node>, segs: seq<Segment>, raw: seq<nat>)
    requires WellFormed(root) && StrippedLength(TextContent(root)) > 0
    requires SegmentsOf(root) == Some(segs) && Weight(segs) > 0
    requires QuarterBounded(segs) && AreCuts(segs, raw) && NoOrphans(segs, raw, 0)
    ensures RawInside(segs, raw) && Ordered(CutPoints(segs, raw), |segs|)
    ensures var chunks, w := Assembled(segs, CutPoints(segs, raw)), Weight(segs);
            && w <= 20 * chunks[0].textLength <= 9 * w && 20 * chunks[1].textLength <= 13 * w
            && 20 * chunks[2].textLength <= 13 * w && w <= 20 * chunks[3].textLength <= 9 * w
            && chunks[0].textLength + chunks[1].textLength + chunks[2].textLength + chunks[3].textLength == w
    ensures IsSplit(root, Some(Assembled(segs, CutPoints(segs, raw))))
       <==> HasText(segs, raw[0], raw[1]) && HasText(segs, raw[1], raw[2])
    ensures IsSplit(root, None) <==> !(HasText(segs, raw[0], raw[1]) && HasText(segs, raw[1], raw[2]))
  {
    ForcedKeepsText(root, StrippedLength(TextContent(root)));
    CutsStay(segs, raw);
    SplitExactly(root, segs, raw);
    ChunkWeights(segs, raw);
    QuarterBoundedIsBalanced(segs, raw);
    OuterHaveText(segs, raw);
    TextBetweenFour(segs, raw);
  }

  /** Four segments or more need no forcing, and together weigh what the document does. */
  lemma WeightOfDocument(root: seq<Node>)
    requires WellFormed(root) && |Flatten(root, StrippedLength(TextContent(root)), 0)| >= CHUNK_COUNT
    ensures SegmentsOf(root) == Some(Flatten(root, StrippedLength(TextContent(root)), 0))
    ensures Weight(SegmentsOf(root).value) == StrippedLength(TextContent(root))
  {
    FlattenKeepsText(root, StrippedLength(TextContent(root)), 0);
    HonestMarkup(Flatten(root, StrippedLength(TextContent(root)), 0));
  }

  lemma OuterHaveText(segs: seq<Segment>, raw: seq<nat>)
    requires QuarterBounded(segs) && Weight(segs) > 0 && AreCuts(segs, raw)
    ensures 0 < raw[0] < raw[1] < raw[2] < |segs|
    ensures HasText(segs, 0, raw[0]) && HasText(segs, raw[2], |segs|)
  {
    OuterWeigh(segs, raw);
    SliceHasText(segs, 0, raw[0]);
    SliceHasText(segs, raw[2], |segs|);
  }

  lemma OuterWeigh(segs: seq<Segment>, raw: seq<nat>)
    requires QuarterBounded(segs) && Weight(segs) > 0 && AreCuts(segs, raw)
    ensures 0 < raw[0] < raw[1] < raw[2] < |segs|
    ensures Weight(segs[0..raw[0]]) > 0 && Weight(segs[raw[2]..|segs|]) > 0
  {
    QuarterBoundedIsBalanced(segs, raw);
    AsSlices(segs, raw[0], raw[2]);
  }

  lemma AsSlices(segs: seq<Segment>, i: nat, j: nat)
    requires i <= |segs| && j <= |segs|
    ensures segs[0..i] == segs[..i] && segs[j..|segs|] == segs[j..]
  {
  }

  /** No segment without text stands where the bands of two targets overlap: at 30% to 45% or at 55% to 70%. */
  predicate OverlapsHaveText(segs: seq<Segment>) {
    forall i :: 0 <= i < |segs| && segs[i].textLen == 0 ==>
      && !(6 * Weight(segs) <= 20 * Before(segs, i) <= 9 * Weight(segs))
      && !(11 * Weight(segs) <= 20 * Before(segs, i) <= 14 * Weight(segs))
  }

  /** Then both inner chunks have text, wherever the cuts fall. */
  lemma OverlapsSuffice(segs: seq<Segment>, raw: seq<nat>)
    requires QuarterBounded(segs) && Weight(segs) > 0 && AreCuts(segs, raw) && OverlapsHaveText(segs)
    ensures 0 < raw[0] < raw[1] < raw[2] < |segs|
    ensures HasText(segs, raw[0], raw[1]) && HasText(segs, raw[1], raw[2])
  {
    FirstCutInBand(segs, raw);
    SecondCutInBand(segs, raw);
    ThirdCutInBand(segs, raw);
    WeightBetween(segs, raw[0], raw[1]);
    WeightBetween(segs, raw[1], raw[2]);
    SliceHasText(segs, raw[0], raw[1]);
    SliceHasText(segs, raw[1], raw[2]);
  }

  // ----- A document that is refused -----

  function EmptyDiv(): Node { Element("div", [], []) }

  /** Two paragraphs of one character, two empty `div`s, three more paragraphs. */
  function Refused(c: char): seq<Node> {
    var p := OneParagraph([c]);
    [p, p, EmptyDiv(), EmptyDiv(), p, p, p]
  }

  predicate IsLeaf(n: Node) { n.Element? && |n.children| <= 1 }

  /** Elements with at most one child are not unwrapped. */
  lemma {:induction false} LeavesFlattened(ns: seq<Node>, totalLength: nat)
    requires forall i :: 0 <= i < |ns| ==> IsLeaf(ns[i])
    ensures |Flatten(ns, totalLength, 0)| == |ns|
    ensures forall i :: 0 <= i < |ns| ==> IsLeaf(ns[i]) && Flatten(ns, totalLength, 0)[i] == ElementSegment(ns[i])
  {
    if ns != [] {
      LeavesFlattened(ns[1..], totalLength);
      assert IsLeaf(ns[0]) && FlattenNode(ns[0], totalLength, 0) == [ElementSegment(ns[0])];
      forall i | 0 <= i < |ns| ensures Flatten(ns, totalLength, 0)[i] == ElementSegment(ns[i]) {
        assert i > 0 ==> ns[1..][i - 1] == ns[i];
      }
    }
  }

  /** Segments like those of the document: text of one character but for two blocks without text. */
  predicate LikeRefused(segs: seq<Segment>) {
    && |segs| == 7
    && forall i :: 0 <= i < 7 ==>
         && !segs[i].isBr && !segs[i].isHeading && !segs[i].isPageBreak
         && segs[i].isBlock == (i == 2 || i == 3)
         && segs[i].textLen == if i == 2 || i == 3 then 0 else 1
  }

  lemma {:induction false} AllWellFormed(ns: seq<Node>)
    requires forall i :: 0 <= i < |ns| ==> WellFormedNode(ns[i])
    ensures WellFormed(ns)
  {
    if ns != [] {
      AllWellFormed(ns[1..]);
    }
  }

  lemma RefusedDocument(c: char)
    requires Plain([c])
    ensures var root := Refused(c);
            WellFormed(root) && StrippedLength(TextContent(root)) > 0
  {
    var root, p := Refused(c), OneParagraph([c]);
    OneParagraphText([c]);
    assert WellFormed([p]) && WellFormedNode(p) && WellFormedNode(EmptyDiv());
    AllWellFormed(root);
    assert TextContent(root) == NodeText(p) + TextContent(root[1..]);
    StripAppend(NodeText(p), TextContent(root[1..]));
  }

  lemma RefusedFlattened(c: char, totalLength: nat)
    requires Plain([c])
    ensures LikeRefused(Flatten(Refused(c), totalLength, 0))
  {
    LeavesFlattened(Refused(c), totalLength);
    ParagraphSegment(c);
    DivSegment();
    SevenLike(Flatten(Refused(c), totalLength, 0), ElementSegment(OneParagraph([c])), ElementSegment(EmptyDiv()));
  }

  lemma SevenLike(segs: seq<Segment>, p: Segment, div: Segment)
    requires segs == [p, p, div, div, p, p, p]
    requires !p.isBr && !p.isHeading && !p.isBlock && !p.isPageBreak && p.textLen == 1
    requires !div.isBr && !div.isHeading && div.isBlock && !div.isPageBreak && div.textLen == 0
    ensures LikeRefused(segs)
  {
  }

  lemma ParagraphSegment(c: char)
    requires Plain([c])
    ensures var s := ElementSegment(OneParagraph([c]));
            !s.isBr && !s.isHeading && !s.isBlock && !s.isPageBreak && s.textLen == 1
  {
    OneParagraphText([c]);
    assert !MentionsPage("");
    assert |Trim([c])| <= 1;
  }

  lemma DivSegment()
    ensures var s := ElementSegment(EmptyDiv());
            !s.isBr && !s.isHeading && s.isBlock && !s.isPageBreak && s.textLen == 0
  {
    assert !MentionsPage("");
    assert Trim("") == "";
  }

  lemma RefusedPositions(segs: seq<Segment>)
    requires LikeRefused(segs)
    ensures Before(segs, 1) == 1 && Before(segs, 2) == Before(segs, 3) == Before(segs, 4) == 2
    ensures Before(segs, 5) == 3 && Before(segs, 6) == 4 && Weight(segs) == 5
  {
    assert segs[..0] == [] && segs[..7] == segs;
    BeforeStep(segs, 0);
    BeforeStep(segs, 1);
    BeforeStep(segs, 2);
    BeforeStep(segs, 3);
    BeforeStep(segs, 4);
    BeforeStep(segs, 5);
    BeforeStep(segs, 6);
  }

  lemma RefusedScore(segs: seq<Segment>, i: nat)
    requires LikeRefused(segs) && 1 <= i < 7
    ensures Score(segs, i) == if i == 2 || i == 3 then 3 else if i == 4 then 7 else 8
  {
    assert !segs[i - 1].isBr && !IsFiller(segs[i - 1]) && !segs[i].isBr && !IsFiller(segs[i]);
    assert PreviousMeaningful(segs, i) == i - 1 && BreakRun(segs, i) == 0;
  }

  lemma RefusedCuts(segs: seq<Segment>)
    requires LikeRefused(segs)
    ensures AreCuts(segs, [2, 3, 6]) && NoOrphans(segs, [2, 3, 6], 0) && QuarterBounded(segs)
  {
    RefusedPositions(segs);
    var raw: seq<nat> := [2, 3, 6];
    RefusedFirstCut(segs);
    RefusedSecondCut(segs);
    RefusedThirdCut(segs);
    assert SearchStart(raw, 0) == 1 && SearchStart(raw, 1) == 3 && SearchStart(raw, 2) == 4;
    ThreeOrphans(segs, raw);
  }

  lemma ThreeOrphans(segs: seq<Segment>, raw: seq<nat>)
    requires |raw| == 3 && 0 < raw[0] < raw[1] < raw[2] <= |segs|
    requires forall i :: 0 <= i < 3 ==> !segs[raw[i] - 1].isHeading
    ensures NoOrphans(segs, raw, 0)
  {
    assert NoOrphans(segs, raw[1..][1..][1..], raw[2]);
    assert NoOrphans(segs, raw[1..][1..], raw[1]);
    assert NoOrphans(segs, raw[1..], raw[0]);
  }

  lemma RefusedScores(segs: seq<Segment>)
    requires LikeRefused(segs)
    ensures forall i: nat :: 1 <= i < 7 ==> Score(segs, i) == if i == 2 || i == 3 then 3 else if i == 4 then 7 else 8
  {
    forall i: nat | 1 <= i < 7 ensures Score(segs, i) == if i == 2 || i == 3 then 3 else if i == 4 then 7 else 8 {
      RefusedScore(segs, i);
    }
  }

  lemma RefusedFirstCut(segs: seq<Segment>)
    requires LikeRefused(segs)
    ensures IsCut(segs, 0, 1, 2)
  {
    RefusedPositions(segs);
    RefusedScores(segs);
    assert InBand(segs, 0, 2);
  }

  lemma RefusedSecondCut(segs: seq<Segment>)
    requires LikeRefused(segs)
    ensures IsCut(segs, 1, 3, 3)
  {
    RefusedPositions(segs);
    RefusedScores(segs);
    assert InBand(segs, 1, 3);
  }

  lemma RefusedThirdCut(segs: seq<Segment>)
    requires LikeRefused(segs)
    ensures IsCut(segs, 2, 4, 6)
  {
    RefusedPositions(segs);
    RefusedScores(segs);
    assert InBand(segs, 2, 6);
  }

  /** No segment holds more than a quarter of the text, no heading moves a cut, and still the document is
      refused: the second chunk would be an empty `div`. */
  lemma RefusedExample(c: char)
    requires Plain([c])
    ensures var root := Refused(c);
            var segs := Flatten(root, StrippedLength(TextContent(root)), 0);
            && WellFormed(root) && StrippedLength(TextContent(root)) > 0 && |segs| == 7
            && QuarterBounded(segs) && AreCuts(segs, [2, 3, 6]) && NoOrphans(segs, [2, 3, 6], 0)
            && IsSplit(root, None)
  {
    var root := Refused(c);
    var segs := Flatten(root, StrippedLength(TextContent(root)), 0);
    RefusedDocument(c);
    RefusedFlattened(c, StrippedLength(TextContent(root)));
    RefusedCuts(segs);
    WeightOfDocument(root);
    RefusedPositions(segs);
    assert !HasText(segs, 2, 3);
    BalancedSplit(root, segs, [2, 3, 6]);
  }

  // ----- A document that is split with its tags as text -----

  /** Four segments leave one choice of cuts. */
  lemma FourSegmentsCut(segs: seq<Segment>)
    requires |segs| == 4
    ensures AreCuts(segs, [1, 2, 3])
  {
    var raw: seq<nat> := [1, 2, 3];
    forall t | 0 <= t < 3 ensures IsCut(segs, t, SearchStart(raw, t), raw[t]) {
      assert LastIndex(segs, t) == t + 1 == SearchStart(raw, t) == raw[t];
      assert AnyInBand(segs, t, t + 1) ==> InBand(segs, t, t + 1);
    }
  }

  lemma FourSegmentsStay(segs: seq<Segment>)
    requires |segs| == 4 && forall i :: 0 <= i < 4 ==> segs[i].textLen > 0 && !segs[i].isHeading
    ensures RawInside(segs, [1, 2, 3]) && FinalCuts(segs, [1, 2, 3]) == CutPoints(segs, [1, 2, 3])
    ensures Ordered(CutPoints(segs, [1, 2, 3]), |segs|) && TextBetween(segs, CutPoints(segs, [1, 2, 3]))
  {
    var raw: seq<nat> := [1, 2, 3];
    RisingThree(raw, 4);
    ThreeOrphans(segs, raw);
    RepairFixes(segs, raw, 0);
    TextBetweenFour(segs, raw);
    assert HasText(segs, 0, 1) && HasText(segs, 1, 2) && HasText(segs, 2, 3) && HasText(segs, 3, 4) by {
      assert segs[0].textLen > 0 && segs[1].textLen > 0 && segs[2].textLen > 0 && segs[3].textLen > 0;
    }
  }

  lemma FourSegmentsSplit(root: seq<Node>, segs: seq<Segment>) returns (chunks: seq<Chunk>)
    requires WellFormed(root) && StrippedLength(TextContent(root)) > 0 && SegmentsOf(root) == Some(segs)
    requires |segs| == 4 && forall i :: 0 <= i < 4 ==> segs[i].textLen > 0 && !segs[i].isHeading
    ensures IsSplit(root, Some(chunks))
  {
    FourSegmentsCut(segs);
    FourSegmentsStay(segs);
    SplitExactly(root, segs, [1, 2, 3]);
    chunks := Assembled(segs, CutPoints(segs, [1, 2, 3]));
  }

  /** The pieces of a text without whitespace all have text. */
  lemma {:induction false} PiecesHaveText(text: string, n: nat)
    requires |text| >= n >= 1 && forall i :: 0 <= i < |text| ==> !IsSpace(text[i])
    ensures |TextSegments(Pieces(text, n))| == n
    ensures forall i :: 0 <= i < n ==> TextSegments(Pieces(text, n))[i].textLen > 0
                                       && !TextSegments(Pieces(text, n))[i].isHeading
  {
    var pieces := Pieces(text, n);
    PiecesPartition(text, n);
    TextSegmentsAt(pieces);
    forall i | 0 <= i < n ensures StrippedLength(pieces[i]) > 0 {
      PieceOf(pieces, i);
      assert pieces[i][0] in pieces[i];
      assert pieces[i][0] in Concat(pieces);
      assert !IsSpace(pieces[i][0]);
    }
  }

  lemma {:induction false} PieceOf(pieces: seq<string>, i: nat)
    requires i < |pieces|
    ensures forall c :: c in pieces[i] ==> c in Concat(pieces)
  {
    if i > 0 {
      PieceOf(pieces[1..], i - 1);
    }
  }

  /** The document `<p>text</p>` is split, and the chunks do not give its text: the tags have become text. */
  lemma CutUpElementIsReturned(text: string) returns (chunks: seq<Chunk>)
    requires Plain(text) && |text| >= CHUNK_COUNT
    ensures WellFormed([OneParagraph(text)]) && IsSplit([OneParagraph(text)], Some(chunks))
    ensures ChunkTexts(chunks) != TextContent([OneParagraph(text)])
  {
    var root, html := [OneParagraph(text)], NodeMarkup(OneParagraph(text));
    OneParagraphText(text);
    MarkupIsPlain(text, html);
    OneParagraphForced(text, html);
    var segs := TextSegments(Pieces(html, CHUNK_COUNT));
    PiecesHaveText(html, CHUNK_COUNT);
    chunks := FourSegmentsSplit(root, segs);
    CutUpIsSeen(text, chunks);
  }

  lemma CutUpIsSeen(text: string, chunks: seq<Chunk>)
    requires Plain(text) && |text| >= CHUNK_COUNT && IsSplit([OneParagraph(text)], Some(chunks))
    ensures ChunkTexts(chunks) != TextContent([OneParagraph(text)])
  {
    CutUpElementExample(text);
    SplitKeepsText([OneParagraph(text)], chunks);
  }

  lemma MarkupIsPlain(text: string, html: string)
    requires Plain(text) && |text| >= CHUNK_COUNT && html == NodeMarkup(OneParagraph(text))
    ensures '&' !in html && |html| >= CHUNK_COUNT && forall i :: 0 <= i < |html| ==> !IsSpace(html[i])
  {
    OneParagraphMarkup(text);
  }

  lemma OneParagraphForced(text: string, html: string)
    requires Plain(text) && |text| >= CHUNK_COUNT && html == NodeMarkup(OneParagraph(text))
    requires '&' !in html && |html| >= CHUNK_COUNT
    ensures SegmentsOf([OneParagraph(text)]) == Some(TextSegments(Pieces(html, CHUNK_COUNT)))
  {
    var e := OneParagraph(text);
    OneParagraphText(text);
    OneParagraphSegment(text);
    OneElementFlattened(e, |text|);
    NothingToUnescape(html);
    OnlySegmentPieces(ElementSegment(e), html);
  }

  lemma OnlySegmentPieces(s: Segment, html: string)
    requires !s.isBr && s.textLen >= CHUNK_COUNT && UnescapeText(s.html) == html && |html| >= CHUNK_COUNT
    ensures Forced([s]) == Some(TextSegments(Pieces(html, CHUNK_COUNT)))
  {
    OnlySegmentForced(s);
    var segs, pieces := [s], TextSegments(Pieces(html, CHUNK_COUNT));
    assert segs[..0] + pieces + segs[1..] == pieces;
  }
}
