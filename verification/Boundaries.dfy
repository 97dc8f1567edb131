/** Choosing the three cuts of a document and moving them off orphaned headings
    (`chooseBoundaries`, `repairHeadingOrphans`). Positions are scaled by 20, so that
    the targets 0.25, 0.5, 0.75 and the band 0.2 are whole numbers. */
module Boundaries {
  import opened Segments

  predicate IsFiller(s: Segment) {
    s.textLen == 0 && !s.isBr && !s.isBlock && !s.isHeading && !s.isPageBreak
  }

  // ----- Scoring -----

  /** Line breaks right before `i`, blanks in between neither counted nor ending the run. */
  function BreakRun(segs: seq<Segment>, i: nat): nat
    requires i <= |segs|
  {
    if i == 0 then 0
    else if segs[i - 1].isBr then 1 + BreakRun(segs, i - 1)
    else if IsFiller(segs[i - 1]) then BreakRun(segs, i - 1)
    else 0
  }

  /** Index of the last segment before `i` that is neither a line break nor blank, or -1. */
  function PreviousMeaningful(segs: seq<Segment>, i: nat): (k: int)
    requires i <= |segs|
    ensures -1 <= k < i
    ensures k >= 0 ==> !segs[k].isBr && !IsFiller(segs[k])
    ensures forall j :: k < j < i ==> segs[j].isBr || IsFiller(segs[j])
  {
    if i == 0 then -1
    else if segs[i - 1].isBr || IsFiller(segs[i - 1]) then PreviousMeaningful(segs, i - 1)
    else i - 1
  }

  function Score(segs: seq<Segment>, i: nat): nat
    requires i < |segs|
  {
    var next, p, brRun := segs[i], PreviousMeaningful(segs, i), BreakRun(segs, i);
    if next.isBr || IsFiller(next) then 9
    else if p >= 0 && segs[p].isPageBreak then 1
    else if next.isHeading then 2
    else if next.isBlock then 3
    else if brRun >= 2 then 4
    else if brRun == 1 && p >= 0 && segs[p].endsSentence then 5
    else if brRun == 1 then 6
    else if p >= 0 && segs[p].isBlock then 7
    else 8
  }

  method PrecedingBreakRun(segs: seq<Segment>, i: nat) returns (n: nat)
    requires i <= |segs|
    ensures n == BreakRun(segs, i)
  {
    n := 0;
    var k := i - 1;
    while k >= 0
      invariant -1 <= k < i
      invariant BreakRun(segs, i) == n + BreakRun(segs, k + 1)
    {
      if segs[k].isBr {
        n := n + 1;
        k := k - 1;
        continue;
      }
      if !IsFiller(segs[k]) {
        break;
      }
      k := k - 1;
    }
  }

  method FindPreviousMeaningful(segs: seq<Segment>, i: nat) returns (k: int)
    requires i <= |segs|
    ensures k == PreviousMeaningful(segs, i)
  {
    k := i - 1;
    while k >= 0
      invariant -1 <= k < i
      invariant PreviousMeaningful(segs, i) == PreviousMeaningful(segs, k + 1)
    {
      if !(segs[k].isBr || IsFiller(segs[k])) {
        return;
      }
      k := k - 1;
    }
  }

  method ScoreBoundary(segs: seq<Segment>, i: nat) returns (score: nat)
    requires i < |segs|
    ensures score == Score(segs, i)
  {
    var p := FindPreviousMeaningful(segs, i);
    var brRun := PrecedingBreakRun(segs, i);
    var next := segs[i];
    if next.isBr || IsFiller(next) { return 9; }
    if p >= 0 && segs[p].isPageBreak { return 1; }
    if next.isHeading { return 2; }
    if next.isBlock { return 3; }
    if brRun >= 2 { return 4; }
    if brRun == 1 && p >= 0 && segs[p].endsSentence { return 5; }
    if brRun == 1 { return 6; }
    if p >= 0 && segs[p].isBlock { return 7; }
    return 8;
  }

  // ----- Which index is the right cut -----

  /** Weight of the segments before a cut at `i`. */
  function Before(segs: seq<Segment>, i: nat): nat
    requires i <= |segs|
  {
    Weight(segs[..i])
  }

  /** Twenty times the distance of cut `i` from target `t`, the quarter points of the text. */
  function Dist(segs: seq<Segment>, t: nat, i: nat): nat
    requires i <= |segs|
  {
    var d := 20 * Before(segs, i) - 5 * (t + 1) * Weight(segs);
    if d < 0 then -d else d
  }

  predicate InBand(segs: seq<Segment>, t: nat, i: nat)
    requires i <= |segs|
  {
    Dist(segs, t, i) <= 4 * Weight(segs)
  }

  /** Lower score first, then the smaller distance. */
  predicate Better(segs: seq<Segment>, t: nat, i: nat, j: nat)
    requires i < |segs| && j < |segs|
  {
    || Score(segs, i) < Score(segs, j)
    || (Score(segs, i) == Score(segs, j) && Dist(segs, t, i) < Dist(segs, t, j))
  }

  /** The last index target `t` may use, one segment being kept for every later chunk. */
  function LastIndex(segs: seq<Segment>, t: nat): int {
    |segs| - (3 - t)
  }

  predicate AnyInBand(segs: seq<Segment>, t: nat, lo: nat)
    requires t < 3
  {
    exists i: nat :: lo <= i <= LastIndex(segs, t) && InBand(segs, t, i)
  }

  /** `b` is the first lexicographic minimum of (score, distance) among the in-band indices. */
  predicate FirstBest(segs: seq<Segment>, t: nat, lo: nat, hi: int, b: nat)
    requires hi < |segs|
  {
    && lo <= b <= hi && InBand(segs, t, b)
    && (forall i: nat :: lo <= i <= hi && InBand(segs, t, i) ==> !Better(segs, t, i, b))
    && (forall i: nat :: lo <= i < b && InBand(segs, t, i) ==> Better(segs, t, b, i))
  }

  /** `b` is the first index of least distance, the band set aside. */
  predicate FirstNearest(segs: seq<Segment>, t: nat, lo: nat, hi: int, b: nat)
    requires hi < |segs|
  {
    && lo <= b <= hi
    && (forall i: nat :: lo <= i <= hi ==> Dist(segs, t, b) <= Dist(segs, t, i))
    && (forall i: nat :: lo <= i < b ==> Dist(segs, t, b) < Dist(segs, t, i))
  }

  predicate IsCut(segs: seq<Segment>, t: nat, lo: nat, b: nat)
    requires t < 3
  {
    var hi := LastIndex(segs, t);
    if hi < lo then b == lo
    else if AnyInBand(segs, t, lo) then FirstBest(segs, t, lo, hi, b)
    else FirstNearest(segs, t, lo, hi, b)
  }

  function SearchStart(cuts: seq<nat>, t: nat): nat
    requires t <= |cuts|
  {
    if t == 0 then 1 else cuts[t - 1] + 1
  }

  predicate AreCuts(segs: seq<Segment>, cuts: seq<nat>) {
    |cuts| == 3 && forall t {:trigger IsCut(segs, t, SearchStart(cuts, t), cuts[t])} ::
      0 <= t < 3 ==> IsCut(segs, t, SearchStart(cuts, t), cuts[t])
  }

  lemma CutAt(segs: seq<Segment>, cuts: seq<nat>, t: nat)
    requires AreCuts(segs, cuts) && t < 3
    ensures IsCut(segs, t, SearchStart(cuts, t), cuts[t])
  {
  }

  lemma CutUnique(segs: seq<Segment>, t: nat, lo: nat, b: nat, c: nat)
    requires t < 3 && IsCut(segs, t, lo, b) && IsCut(segs, t, lo, c)
    ensures b == c
  {
    var hi := LastIndex(segs, t);
    if lo <= hi && AnyInBand(segs, t, lo) {
      var either := Better(segs, t, c, b) || Better(segs, t, b, c);
    } else if lo <= hi {
      var either := Dist(segs, t, c) < Dist(segs, t, b) || Dist(segs, t, b) < Dist(segs, t, c);
    }
  }

  /** The specification leaves no choice. */
  lemma CutsUnique(segs: seq<Segment>, cuts: seq<nat>, others: seq<nat>)
    requires AreCuts(segs, cuts) && AreCuts(segs, others)
    ensures cuts == others
  {
    for t := 0 to 3
      invariant cuts[..t] == others[..t]
    {
      CutAt(segs, cuts, t);
      CutAt(segs, others, t);
      CutUnique(segs, t, SearchStart(cuts, t), cuts[t], others[t]);
    }
  }

  /** With four segments or more every chunk gets at least one; with fewer, no target has a
      candidate and only the last-resort fallback picks the cuts. */
  lemma CutsLeaveNoChunkWithoutSegments(segs: seq<Segment>, cuts: seq<nat>)
    requires AreCuts(segs, cuts)
    ensures |segs| >= 4 ==> 0 < cuts[0] < cuts[1] < cuts[2] < |segs|
    ensures |segs| <= 4 ==> cuts == [1, 2, 3]
  {
    CutAt(segs, cuts, 0);
    CutAt(segs, cuts, 1);
    CutAt(segs, cuts, 2);
  }

  // ----- The search loops -----

  predicate RunningTotals(segs: seq<Segment>, cumulative: seq<nat>) {
    |cumulative| == |segs| && forall i :: 0 <= i < |segs| ==> cumulative[i] == Before(segs, i + 1)
  }

  method DistanceFromTarget(segs: seq<Segment>, cumulative: seq<nat>, t: nat, i: nat) returns (dist: nat)
    requires RunningTotals(segs, cumulative) && 1 <= i <= |segs|
    ensures dist == Dist(segs, t, i)
  {
    var d := 20 * cumulative[i - 1] - 5 * (t + 1) * Weight(segs);
    dist := if d < 0 then -d else d;
  }

  // The search inside the band; -1 when it finds no candidate.
  method SearchBand(segs: seq<Segment>, cumulative: seq<nat>, t: nat, searchStart: nat, maxIndex: int)
    returns (best: int)
    requires RunningTotals(segs, cumulative) && 1 <= searchStart && maxIndex < |segs|
    ensures best == -1 ==> forall k: nat :: searchStart <= k <= maxIndex ==> !InBand(segs, t, k)
    ensures best != -1 ==> best >= 0 && FirstBest(segs, t, searchStart, maxIndex, best)
  {
    best := -1;
    var bestScore, bestDist := 0, 0;   // meaningful once best is set
    var i := searchStart;
    while i <= maxIndex
      invariant searchStart <= i && (i <= maxIndex + 1 || i == searchStart)
      invariant best == -1 ==> forall k: nat :: searchStart <= k < i && k <= maxIndex ==> !InBand(segs, t, k)
      invariant best != -1 ==> searchStart <= best < i <= maxIndex + 1
                               && FirstBest(segs, t, searchStart, i - 1, best)
                               && bestScore == Score(segs, best) && bestDist == Dist(segs, t, best)
    {
      var dist := DistanceFromTarget(segs, cumulative, t, i);
      if dist <= 4 * Weight(segs) {
        var score := ScoreBoundary(segs, i);
        if best == -1 || score < bestScore || (score == bestScore && dist < bestDist) {
          best, bestScore, bestDist := i, score, dist;
        }
      }
      i := i + 1;
    }
  }

  // The search that disregards the band; -1 when there is no index at all.
  method SearchAll(segs: seq<Segment>, cumulative: seq<nat>, t: nat, searchStart: nat, maxIndex: int)
    returns (best: int)
    requires RunningTotals(segs, cumulative) && 1 <= searchStart && maxIndex < |segs|
    ensures best == -1 <==> maxIndex < searchStart
    ensures best != -1 ==> best >= 0 && FirstNearest(segs, t, searchStart, maxIndex, best)
  {
    best := -1;
    var bestDist := 0;   // meaningful once best is set
    var i := searchStart;
    while i <= maxIndex
      invariant searchStart <= i && (i <= maxIndex + 1 || i == searchStart)
      invariant best == -1 <==> i == searchStart
      invariant best != -1 ==> searchStart <= best < i <= maxIndex + 1
                               && FirstNearest(segs, t, searchStart, i - 1, best)
                               && bestDist == Dist(segs, t, best)
    {
      var dist := DistanceFromTarget(segs, cumulative, t, i);
      if best == -1 || dist < bestDist {
        best, bestDist := i, dist;
      }
      i := i + 1;
    }
  }

  method ChooseCut(segs: seq<Segment>, cumulative: seq<nat>, t: nat, searchStart: nat) returns (best: int)
    requires t < 3 && searchStart >= 1 && RunningTotals(segs, cumulative)
    ensures best >= 0 && IsCut(segs, t, searchStart, best)
  {
    var maxIndex := |segs| - (3 - t);
    best := SearchBand(segs, cumulative, t, searchStart, maxIndex);
    if best == -1 {
      best := SearchAll(segs, cumulative, t, searchStart, maxIndex);
    }
    if best == -1 {
      var least := if maxIndex < searchStart then maxIndex else searchStart;
      best := if searchStart < least then least else searchStart;
    }
  }

  method ChooseBoundaries(segs: seq<Segment>) returns (chosen: seq<nat>)
    ensures AreCuts(segs, chosen)
  {
    var cumulative: seq<nat>, running := [], 0;
    for k := 0 to |segs|
      invariant |cumulative| == k && running == Before(segs, k)
      invariant forall i :: 0 <= i < k ==> cumulative[i] == Before(segs, i + 1)
    {
      BeforeStep(segs, k);
      running := running + segs[k].textLen;
      cumulative := cumulative + [running];
    }
    chosen := [];
    var searchStart := 1;
    for t := 0 to 3
      invariant |chosen| == t && searchStart == SearchStart(chosen, t)
      invariant forall u :: 0 <= u < t ==> IsCut(segs, u, SearchStart(chosen, u), chosen[u])
    {
      var best := ChooseCut(segs, cumulative, t, searchStart);
      chosen := chosen + [best];
      searchStart := best + 1;
    }
  }

  lemma BeforeStep(segs: seq<Segment>, i: nat)
    requires i < |segs|
    ensures Before(segs, i + 1) == Before(segs, i) + segs[i].textLen
  {
    assert segs[..i + 1] == segs[..i] + [segs[i]];
    TextsOfAppend(segs[..i], [segs[i]]);
  }

  // ----- Balance -----

  /** No segment holds more than a quarter of the text. */
  predicate QuarterBounded(segs: seq<Segment>) {
    forall i :: 0 <= i < |segs| ==> 4 * segs[i].textLen <= Weight(segs)
  }

  /** Text after a cut needs segments to hold it. */
  lemma {:induction false} SegmentsAfter(segs: seq<Segment>, i: nat)
    requires QuarterBounded(segs) && i <= |segs|
    ensures 4 * (Weight(segs) - Before(segs, i)) <= (|segs| - i) * Weight(segs)
    decreases |segs| - i
  {
    if i == |segs| {
      assert segs[..i] == segs;
    } else {
      SegmentsAfter(segs, i + 1);
      BeforeStep(segs, i);
      assert (|segs| - i) * Weight(segs) == (|segs| - i - 1) * Weight(segs) + Weight(segs);
    }
  }

  /** From a cut that lies low enough, some later cut is the first to pass `bar` (in twentieths). */
  lemma {:induction false} FirstToPass(segs: seq<Segment>, lo: nat, bar: nat) returns (i: nat)
    requires 1 <= lo <= |segs| && bar <= 20
    ensures lo <= i <= |segs| && 20 * Before(segs, i) >= bar * Weight(segs)
    ensures i > lo ==> 20 * Before(segs, i - 1) < bar * Weight(segs)
    decreases |segs| - lo
  {
    if 20 * Before(segs, lo) >= bar * Weight(segs) {
      i := lo;
    } else {
      assert segs[..|segs|] == segs;
      assert bar * Weight(segs) <= 20 * Weight(segs);
      i := FirstToPass(segs, lo + 1, bar);
    }
  }

  lemma InBandBounds(segs: seq<Segment>, t: nat, i: nat)
    requires t < 3 && i <= |segs|
    ensures InBand(segs, t, i)
       <==> (5 * t + 1) * Weight(segs) <= 20 * Before(segs, i) <= (5 * t + 9) * Weight(segs)
  {
    BandEnds(t, Weight(segs));
  }

  lemma BandEnds(t: nat, w: nat)
    requires t < 3
    ensures (5 * t + 1) * w == 5 * (t + 1) * w - 4 * w && (5 * t + 9) * w == 5 * (t + 1) * w + 4 * w
  {
    if t == 0 {} else if t == 1 {} else {}
  }

  lemma SegmentsLeft(m: nat, t: nat, w: nat, before: nat)
    requires t < 3 && w > 0 && 4 * (w - before) <= m * w && 20 * before <= (5 * t + 9) * w
    ensures m >= 3 - t
  {
    if m == 0 {
    } else if m == 1 {
      if t == 0 {} else if t == 1 {} else {}
    } else if m == 2 {
      if t == 0 {} else {}
    }
  }

  lemma StepInBand(t: nat, w: nat, before: nat, len: nat)
    requires t < 3 && 4 * len <= w
    ensures 20 * before <= (5 * t + 4) * w ==> 20 * (before + len) <= (5 * t + 9) * w
    ensures 20 * before < (5 * t + 1) * w ==> 20 * (before + len) <= (5 * t + 9) * w
  {
    if t == 0 {} else if t == 1 {} else {}
  }

  /** When the cut before `lo` is in the previous target's band, target `t` has a candidate in its own. */
  lemma BandReached(segs: seq<Segment>, t: nat, lo: nat)
    requires t < 3 && QuarterBounded(segs) && Weight(segs) > 0
    requires 1 <= lo <= |segs| && 20 * Before(segs, lo - 1) <= (5 * t + 4) * Weight(segs)
    ensures AnyInBand(segs, t, lo)
  {
    var i := PassesIntoBand(segs, t, lo);
    EnoughLeft(segs, t, i);
    InBandBounds(segs, t, i);
  }

  // The first cut to reach the band does not jump over it.
  lemma PassesIntoBand(segs: seq<Segment>, t: nat, lo: nat) returns (i: nat)
    requires t < 3 && QuarterBounded(segs)
    requires 1 <= lo <= |segs| && 20 * Before(segs, lo - 1) <= (5 * t + 4) * Weight(segs)
    ensures lo <= i <= |segs|
    ensures (5 * t + 1) * Weight(segs) <= 20 * Before(segs, i) <= (5 * t + 9) * Weight(segs)
  {
    i := FirstToPass(segs, lo, 5 * t + 1);
    BeforeStep(segs, i - 1);
    StepInBand(t, Weight(segs), Before(segs, i - 1), segs[i - 1].textLen);
  }

  lemma EnoughLeft(segs: seq<Segment>, t: nat, i: nat)
    requires t < 3 && QuarterBounded(segs) && Weight(segs) > 0 && i <= |segs|
    requires 20 * Before(segs, i) <= (5 * t + 9) * Weight(segs)
    ensures |segs| - i >= 3 - t
  {
    SegmentsAfter(segs, i);
    BeforeAtMost(segs, i);
    SegmentsLeft(|segs| - i, t, Weight(segs), Before(segs, i));
  }

  lemma BeforeAtMost(segs: seq<Segment>, i: nat)
    requires i <= |segs|
    ensures Before(segs, i) <= Weight(segs)
  {
    assert segs == segs[..i] + segs[i..];
    TextsOfAppend(segs[..i], segs[i..]);
  }

  // `low`, `mid` and `high` are the target's band and the end of the previous one, in twentieths.
  lemma CutInBand(segs: seq<Segment>, t: nat, lo: nat, b: nat, low: nat, mid: nat, high: nat)
    requires t < 3 && QuarterBounded(segs) && Weight(segs) > 0
    requires low == (5 * t + 1) * Weight(segs) && mid == (5 * t + 4) * Weight(segs)
    requires high == (5 * t + 9) * Weight(segs)
    requires 1 <= lo <= |segs| && 20 * Before(segs, lo - 1) <= mid
    requires IsCut(segs, t, lo, b)
    ensures AnyInBand(segs, t, lo) && lo <= b <= LastIndex(segs, t)
    ensures low <= 20 * Before(segs, b) <= high
  {
    BandReached(segs, t, lo);
    InBandBounds(segs, t, b);
  }

  lemma ChosenInBand(segs: seq<Segment>, cuts: seq<nat>, t: nat, lo: nat, low: nat, mid: nat, high: nat)
    requires t < 3 && QuarterBounded(segs) && Weight(segs) > 0 && AreCuts(segs, cuts)
    requires low == (5 * t + 1) * Weight(segs) && mid == (5 * t + 4) * Weight(segs)
    requires high == (5 * t + 9) * Weight(segs)
    requires lo == (if t == 0 then 1 else cuts[t - 1] + 1)
    requires lo <= |segs| && 20 * Before(segs, lo - 1) <= mid
    ensures AnyInBand(segs, t, lo) && lo <= cuts[t] <= LastIndex(segs, t)
    ensures low <= 20 * Before(segs, cuts[t]) <= high
  {
    CutAt(segs, cuts, t);
    CutInBand(segs, t, lo, cuts[t], low, mid, high);
  }

  lemma FirstCutInBand(segs: seq<Segment>, cuts: seq<nat>)
    requires QuarterBounded(segs) && Weight(segs) > 0 && AreCuts(segs, cuts)
    ensures AnyInBand(segs, 0, 1) && 1 <= cuts[0] <= |segs| - 3
    ensures Weight(segs) <= 20 * Before(segs, cuts[0]) <= 9 * Weight(segs)
  {
    assert segs[..0] == [] && |segs| >= 1;
    ChosenInBand(segs, cuts, 0, 1, Weight(segs), 4 * Weight(segs), 9 * Weight(segs));
  }

  lemma FirstCutBounds(segs: seq<Segment>, cuts: seq<nat>)
    requires QuarterBounded(segs) && Weight(segs) > 0 && AreCuts(segs, cuts)
    ensures cuts[0] <= |segs| - 3 && 20 * Before(segs, cuts[0]) <= 9 * Weight(segs)
  {
    FirstCutInBand(segs, cuts);
  }

  lemma SecondCutInBand(segs: seq<Segment>, cuts: seq<nat>)
    requires QuarterBounded(segs) && Weight(segs) > 0 && AreCuts(segs, cuts)
    ensures AnyInBand(segs, 1, cuts[0] + 1) && cuts[0] < cuts[1] <= |segs| - 2
    ensures 6 * Weight(segs) <= 20 * Before(segs, cuts[1]) <= 14 * Weight(segs)
  {
    FirstCutBounds(segs, cuts);
    ChosenInBand(segs, cuts, 1, cuts[0] + 1, 6 * Weight(segs), 9 * Weight(segs), 14 * Weight(segs));
  }

  lemma SecondCutBounds(segs: seq<Segment>, cuts: seq<nat>)
    requires QuarterBounded(segs) && Weight(segs) > 0 && AreCuts(segs, cuts)
    ensures cuts[1] <= |segs| - 2 && 20 * Before(segs, cuts[1]) <= 14 * Weight(segs)
  {
    SecondCutInBand(segs, cuts);
  }

  lemma ThirdCutInBand(segs: seq<Segment>, cuts: seq<nat>)
    requires QuarterBounded(segs) && Weight(segs) > 0 && AreCuts(segs, cuts)
    ensures AnyInBand(segs, 2, cuts[1] + 1) && cuts[1] < cuts[2] <= |segs| - 1
    ensures 11 * Weight(segs) <= 20 * Before(segs, cuts[2]) <= 19 * Weight(segs)
  {
    SecondCutBounds(segs, cuts);
    ChosenInBand(segs, cuts, 2, cuts[1] + 1, 11 * Weight(segs), 14 * Weight(segs), 19 * Weight(segs));
  }

  /** With no segment above a quarter, all three searches succeed inside the band, so that the
      widening pass is never entered and before the heading repair the outer chunks carry 5% to
      45% of the text, the inner two at most 65%. */
  lemma QuarterBoundedIsBalanced(segs: seq<Segment>, cuts: seq<nat>)
    requires QuarterBounded(segs) && Weight(segs) > 0 && AreCuts(segs, cuts)
    ensures 0 < cuts[0] < cuts[1] < cuts[2] < |segs|
    ensures AnyInBand(segs, 0, 1) && AnyInBand(segs, 1, cuts[0] + 1) && AnyInBand(segs, 2, cuts[1] + 1)
    ensures Weight(segs) <= 20 * Weight(segs[..cuts[0]]) <= 9 * Weight(segs)
    ensures 20 * Weight(segs[cuts[0]..cuts[1]]) <= 13 * Weight(segs)
    ensures 20 * Weight(segs[cuts[1]..cuts[2]]) <= 13 * Weight(segs)
    ensures Weight(segs) <= 20 * Weight(segs[cuts[2]..]) <= 9 * Weight(segs)
  {
    FirstCutInBand(segs, cuts);
    SecondCutInBand(segs, cuts);
    ThirdCutInBand(segs, cuts);
    WeightBetween(segs, cuts[0], cuts[1]);
    WeightBetween(segs, cuts[1], cuts[2]);
    WeightBetween(segs, cuts[2], |segs|);
    assert segs[cuts[2]..|segs|] == segs[cuts[2]..] && segs[..|segs|] == segs;
  }

  lemma WeightBetween(segs: seq<Segment>, i: nat, j: nat)
    requires i <= j <= |segs|
    ensures Weight(segs[i..j]) == Before(segs, j) - Before(segs, i)
  {
    assert segs[..j] == segs[..i] + segs[i..j];
    TextsOfAppend(segs[..i], segs[i..j]);
  }

  // ----- Headings -----

  /** The cut moved back to where it no longer leaves a heading before it. */
  function RepairCut(segs: seq<Segment>, cut: nat, lowerBound: nat): (r: nat)
    requires cut <= |segs| && lowerBound >= 1
    ensures r <= cut && (cut >= lowerBound ==> r >= lowerBound)
    ensures forall k :: r <= k < cut ==> segs[k].isHeading
    ensures r <= lowerBound || !segs[r - 1].isHeading
    decreases cut
  {
    if cut > lowerBound && segs[cut - 1].isHeading then RepairCut(segs, cut - 1, lowerBound) else cut
  }

  function Repair(segs: seq<Segment>, cuts: seq<nat>, previousCut: nat): (r: seq<nat>)
    requires forall i :: 0 <= i < |cuts| ==> cuts[i] <= |segs|
    ensures |r| == |cuts|
  {
    if cuts == [] then []
    else
      var cut := RepairCut(segs, cuts[0], previousCut + 1);
      [cut] + Repair(segs, cuts[1..], cut)
  }

  method RepairHeadingOrphans(segs: seq<Segment>, boundaries: seq<nat>) returns (repaired: seq<nat>)
    requires forall i :: 0 <= i < |boundaries| ==> boundaries[i] <= |segs|
    ensures repaired == Repair(segs, boundaries, 0)
  {
    repaired := [];
    var previousCut := 0;
    ghost var all := Repair(segs, boundaries, 0);
    for k := 0 to |boundaries|
      invariant |repaired| == k && repaired == all[..k]
      invariant Repair(segs, boundaries[k..], previousCut) == all[k..]
    {
      var cut := RepairOne(segs, boundaries[k], previousCut + 1);
      assert boundaries[k..][1..] == boundaries[k + 1..] && all[k..][1..] == all[k + 1..];
      assert all[k..][0] == cut && all[..k + 1] == all[..k] + [cut];
      repaired := repaired + [cut];
      previousCut := cut;
    }
  }

  method RepairOne(segs: seq<Segment>, boundary: nat, lowerBound: nat) returns (cut: nat)
    requires boundary <= |segs| && lowerBound >= 1
    ensures cut == RepairCut(segs, boundary, lowerBound)
  {
    cut := boundary;
    while cut > lowerBound && segs[cut - 1].isHeading
      invariant cut <= boundary
      invariant RepairCut(segs, cut, lowerBound) == RepairCut(segs, boundary, lowerBound)
    {
      cut := cut - 1;
    }
  }

  /** Cuts that rise strictly from `previousCut` and stay inside the document. */
  predicate Rising(cuts: seq<nat>, previousCut: nat, n: nat): (rising: bool)
    ensures rising ==> forall i :: 0 <= i < |cuts| ==> cuts[i] <= n
  {
    if cuts == [] then true
    else
      assert forall i :: 1 <= i < |cuts| ==> cuts[i] == cuts[1..][i - 1];
      previousCut < cuts[0] < n && Rising(cuts[1..], cuts[0], n)
  }

  /** No heading closes a chunk, unless it is the chunk's only segment. */
  predicate NoOrphans(segs: seq<Segment>, cuts: seq<nat>, previousCut: nat) {
    cuts == [] || (
      && previousCut < cuts[0] <= |segs|
      && (cuts[0] == previousCut + 1 || !segs[cuts[0] - 1].isHeading)
      && NoOrphans(segs, cuts[1..], cuts[0]))
  }

  /** The repair keeps the cuts in order, never moves one later, moves it only over headings,
      and leaves no heading before a cut unless that chunk is a single segment. */
  lemma {:induction false} RepairIsSafe(segs: seq<Segment>, cuts: seq<nat>, previousCut: nat, floor: nat)
    requires Rising(cuts, previousCut, |segs|) && floor <= previousCut
    ensures Rising(Repair(segs, cuts, floor), floor, |segs|)
    ensures NoOrphans(segs, Repair(segs, cuts, floor), floor)
    ensures forall i :: 0 <= i < |cuts| ==>
              && Repair(segs, cuts, floor)[i] <= cuts[i]
              && forall k :: Repair(segs, cuts, floor)[i] <= k < cuts[i] ==> segs[k].isHeading
  {
    if cuts != [] {
      var cut := RepairCut(segs, cuts[0], floor + 1);
      RepairIsSafe(segs, cuts[1..], cuts[0], cut);
      var rest := Repair(segs, cuts[1..], cut);
      assert Repair(segs, cuts, floor)[1..] == rest;
      forall i | 0 <= i < |cuts|
        ensures Repair(segs, cuts, floor)[i] <= cuts[i]
        ensures forall k :: Repair(segs, cuts, floor)[i] <= k < cuts[i] ==> segs[k].isHeading
      {
        assert i > 0 ==> cuts[i] == cuts[1..][i - 1] && Repair(segs, cuts, floor)[i] == rest[i - 1];
      }
    }
  }

  /** Cuts the repair would leave alone are exactly the rising cuts without an orphan. */
  lemma {:induction false} RepairFixes(segs: seq<Segment>, cuts: seq<nat>, previousCut: nat)
    requires Rising(cuts, previousCut, |segs|)
    ensures Repair(segs, cuts, previousCut) == cuts <==> NoOrphans(segs, cuts, previousCut)
  {
    if cuts != [] {
      var cut := RepairCut(segs, cuts[0], previousCut + 1);
      var r := Repair(segs, cuts, previousCut);
      assert r[0] == cut && r[1..] == Repair(segs, cuts[1..], cut);
      RepairFixes(segs, cuts[1..], cuts[0]);
      if cut == cuts[0] {
        assert r == cuts <==> r[1..] == cuts[1..];
      }
    }
  }

  /** Repairing twice is repairing once. */
  lemma RepairIdempotent(segs: seq<Segment>, cuts: seq<nat>)
    requires Rising(cuts, 0, |segs|)
    ensures var once := Repair(segs, cuts, 0);
            && (forall i :: 0 <= i < |once| ==> once[i] <= |segs|)
            && Repair(segs, once, 0) == once
  {
    RepairIsSafe(segs, cuts, 0, 0);
    RepairFixes(segs, Repair(segs, cuts, 0), 0);
  }
}
