/** Converting long PDFs in chunks (`converter/app.py`, `converter/pdf_upload.py`): page ranges and
    batches, and the one deadline that all child processes of a request share. */
module Chunks {
  import opened Strings
  import opened PageRange

  /** Chunks of exactly `size`, but for a shorter last one; none is empty. */
  predicate Batches<T(==)>(chunks: seq<seq<T>>, size: nat) {
    && (forall i :: 0 <= i < |chunks| ==> 0 < |chunks[i]| <= size)
    && forall i :: 0 <= i < |chunks| - 1 ==> |chunks[i]| == size
  }

  method Chunked<T(==)>(items: seq<T>, size: nat) returns (chunks: seq<seq<T>>)
    requires size > 0
    ensures Concat(chunks) == items && Batches(chunks, size)
  {
    chunks := [];
    var i := 0;
    while i < |items|
      invariant 0 <= i && Concat(chunks) == items[..if i < |items| then i else |items|]
      invariant Batches(chunks, size)
      invariant i < |items| ==> forall k :: 0 <= k < |chunks| ==> |chunks[k]| == size
    {
      var next := if i + size < |items| then i + size else |items|;
      ConcatSnoc(chunks, items[i..next]);
      assert items[..next] == items[..i] + items[i..next];
      chunks := chunks + [items[i..next]];
      i := i + size;
    }
    assert items[..|items|] == items;
  }

  // ----- Ranges of pages -----

  function ClampChunkSizeToThreshold(chunkSize: nat, threshold: nat): nat {
    if chunkSize > threshold then threshold else chunkSize
  }

  lemma {:induction false} SpanSplits(first: nat, mid: nat, last: nat)
    requires first <= mid <= last + 1
    ensures mid > 0 ==> Span(first, last) == Span(first, mid - 1) + Span(mid, last)
    ensures |Span(first, last)| == last + 1 - first
    decreases last + 1 - first
  {
    if first < mid {
      SpanSplits(first + 1, mid, last);
    } else if first <= last {
      SpanSplits(first + 1, first + 1, last);
    }
  }

  function PagesOf(ranges: seq<(nat, nat)>): seq<seq<nat>> {
    seq(|ranges|, i requires 0 <= i < |ranges| => Span(ranges[i].0, ranges[i].1))
  }

  /** The page ranges of a document, which tile it. */
  method PageRanges(pageCount: nat, chunkSize: nat) returns (ranges: seq<(nat, nat)>)
    requires chunkSize > 0
    ensures Concat(PagesOf(ranges)) == Span(1, pageCount)
    ensures Batches(PagesOf(ranges), chunkSize)
  {
    ranges := [];
    var start: nat := 1;
    while start <= pageCount
      invariant start >= 1
      invariant Concat(PagesOf(ranges)) == Span(1, if start <= pageCount then start - 1 else pageCount)
      invariant Batches(PagesOf(ranges), chunkSize)
      invariant start <= pageCount ==> forall k :: 0 <= k < |ranges| ==> |PagesOf(ranges)[k]| == chunkSize
      decreases pageCount + 1 - start
    {
      var end := if start + chunkSize - 1 < pageCount then start + chunkSize - 1 else pageCount;
      ghost var before := ranges;
      ranges := ranges + [(start, end)];
      assert PagesOf(ranges) == PagesOf(before) + [Span(start, end)];
      ConcatSnoc(PagesOf(before), Span(start, end));
      SpanSplits(1, start, end);
      SpanSplits(start, start, end);
      start := start + chunkSize;
    }
  }

  /** What one `xtctool` call rasterizes: with a known page count, never more pages than the
      threshold, and all calls together exactly the pages of the document. */
  method RasterCalls(pageCount: Option<nat>, chunkSizeSetting: nat, threshold: nat)
    returns (calls: Option<seq<seq<nat>>>)
    requires chunkSizeSetting > 0 && threshold > 0
    ensures calls.Some? <==> pageCount.Some?
    ensures calls.Some? ==> Concat(calls.value) == Span(1, pageCount.value)
    ensures calls.Some? ==> forall i :: 0 <= i < |calls.value| ==> |calls.value[i]| <= threshold
    ensures calls.Some? && pageCount.value <= threshold ==> |calls.value| == 1
  {
    if pageCount == None {
      return None;
    }
    var n := pageCount.value;
    if n <= threshold {
      SpanSplits(1, 1, n);
      ConcatSnoc([], Span(1, n));
      assert [] + [Span(1, n)] == [Span(1, n)];
      return Some([Span(1, n)]);
    }
    var ranges := PageRanges(n, ClampChunkSizeToThreshold(chunkSizeSetting, threshold));
    calls := Some(PagesOf(ranges));
  }

  // ----- The shared deadline -----

  /** What happens outside: the time that passes before each child starts, how long it would run,
      and whether it fails. */
  datatype World = World(pause: nat -> nat, run: nat -> nat, fails: nat -> bool)

  /** When a child process ran. */
  datatype Child = Child(start: int, end: int)

  datatype Outcome = Packed(pages: seq<nat>) | TimedOut | Failed | Rejected

  /** The children ran one after the other from `now` on, each started before the deadline and over by it. */
  predicate InTime(log: seq<Child>, now: int, deadline: int) {
    && (forall i :: 0 <= i < |log| ==> now <= log[i].start < deadline && log[i].end <= deadline)
    && forall i, j :: 0 <= i < j < |log| ==> log[i].end <= log[j].start
  }

  /** The time after the first `i` children, each having run as long as it wanted. */
  function ClockAfter(w: World, now: int, i: nat): int {
    if i == 0 then now else ClockAfter(w, now, i - 1) + w.pause(i - 1) + w.run(i - 1)
  }

  /** The `i`th child starts before the deadline, is done by it, and does not fail. */
  predicate Succeeds(w: World, now: int, deadline: int, i: nat) {
    var start := ClockAfter(w, now, i) + w.pause(i);
    start < deadline && start + w.run(i) <= deadline && !w.fails(i)
  }

  /** All children so far have succeeded, and `clock` is the time after them. */
  predicate AllSucceeded(w: World, now: int, deadline: int, log: seq<Child>, clock: int) {
    && InTime(log, now, deadline) && now <= clock == ClockAfter(w, now, |log|)
    && (forall i :: 0 <= i < |log| ==> log[i].end <= clock)
    && forall i :: 0 <= i < |log| ==> Succeeds(w, now, deadline, i)
  }

  /** Runs the next child with what is left of the budget; nothing starts once that is used up, and
      a child that takes longer is killed when it ends. */
  method RunChild(w: World, now: int, deadline: int, log: seq<Child>, clock: int)
    returns (error: Option<Outcome>, log': seq<Child>, clock': int)
    requires AllSucceeded(w, now, deadline, log, clock)
    ensures error == None <==> Succeeds(w, now, deadline, |log|)
    ensures error == None ==> AllSucceeded(w, now, deadline, log', clock') && |log'| == |log| + 1
    ensures InTime(log', now, deadline)
    ensures error.Some? ==>
      var left := deadline - clock - w.pause(|log|);
      error.value == if left <= 0 || w.run(|log|) > left then TimedOut else Failed
  {
    clock' := clock + w.pause(|log|);
    var timeout := deadline - clock';
    if timeout <= 0 {
      return Some(TimedOut), log, clock';
    }
    var run := w.run(|log|);
    if run > timeout {
      return Some(TimedOut), log + [Child(clock', clock' + timeout)], clock' + timeout;
    }
    log' := log + [Child(clock', clock' + run)];
    error := if w.fails(|log|) then Some(Failed) else None;
    clock' := clock' + run;
  }

  function BatchCount(pages: nat, size: nat): nat
    requires size > 0
  {
    if pages == 0 then 0 else if pages <= size then 1 else 1 + BatchCount(pages - size, size)
  }

  /** Two children for each batch, and one to repack unless there is a single batch. */
  function ChildrenNeeded(batches: nat): nat {
    2 * batches + if batches == 1 then 0 else 1
  }

  lemma {:induction false} BatchesCounted<T>(chunks: seq<seq<T>>, size: nat)
    requires size > 0 && Batches(chunks, size)
    ensures |chunks| == BatchCount(|Concat(chunks)|, size)
  {
    if chunks != [] {
      BatchesCounted(chunks[1..], size);
      if |chunks| > 1 {
        assert |chunks[0]| == size && |chunks[1..][0]| > 0;
      } else {
        assert chunks[1..] == [];
      }
    }
  }

  /** The children from number `first` on, one after the other, for so many pages. */
  predicate ChunksSucceed(w: World, now: int, deadline: int, first: nat, pages: nat, size: nat)
    requires size > 0
  {
    forall i :: first <= i < first + ChildrenNeeded(BatchCount(pages, size)) ==> Succeeds(w, now, deadline, i)
  }

  /** Renders and packs the selected pages batch by batch, then repacks the batches when there is
      more than one, after the children that have run `before`. It succeeds exactly when every child
      does in what is left of the time; what comes out then holds the selected pages in their order.
      Every child keeps to the deadline. */
  method ConvertInChunks(
    w: World, selected: seq<nat>, size: nat, now: int, deadline: int, before: seq<Child>, clockBefore: int)
    returns (r: Outcome, log: seq<Child>)
    requires size > 0 && AllSucceeded(w, now, deadline, before, clockBefore)
    ensures r.Packed? <==> ChunksSucceed(w, now, deadline, |before|, |selected|, size)
    ensures r.Packed? ==>
      r.pages == selected && |log| == |before| + ChildrenNeeded(BatchCount(|selected|, size))
    ensures InTime(log, now, deadline)
    ensures !r.Packed? ==> r == TimedOut || r == Failed
  {
    var chunks := Chunked(selected, size);
    BatchesCounted(chunks, size);
    var packed: seq<seq<nat>> := [];
    var clock := clockBefore;
    var error: Option<Outcome>;
    log := before;
    for index := 0 to |chunks|
      invariant AllSucceeded(w, now, deadline, log, clock)
      invariant packed == chunks[..index] && |log| == |before| + 2 * index
    {
      error, log, clock := RunChild(w, now, deadline, log, clock);
      if error.Some? {
        return error.value, log;
      }
      error, log, clock := RunChild(w, now, deadline, log, clock);
      if error.Some? {
        return error.value, log;
      }
      packed := packed + [chunks[index]];
    }
    assert packed == chunks;
    if |packed| == 1 {
      ConcatSnoc([], packed[0]);
      assert [] + [packed[0]] == packed;
      return Packed(packed[0]), log;
    }
    error, log, clock := RunChild(w, now, deadline, log, clock);
    if error.Some? {
      return error.value, log;
    }
    return Packed(Concat(packed)), log;
  }

  // ----- The whole conversion -----

  /** What the inspecting child reports. */
  datatype Inspection = OpenFailed | Encrypted | Info(pageCount: nat)

  datatype Limits = Limits(maxSourcePages: nat, maxSelectedPages: nat)

  /** The pages to convert, unless the upload is rejected. */
  function SelectedPages(found: Inspection, spec: string, limits: Limits): Option<seq<nat>> {
    if !found.Info? || found.pageCount > limits.maxSourcePages then None
    else
      match ContainerPages(spec, found.pageCount)
      case Err(_) => None
      case Ok(pages) => if |pages| > limits.maxSelectedPages then None else Some(pages)
  }

  method SelectPages(found: Inspection, spec: string, limits: Limits) returns (selected: Option<seq<nat>>)
    ensures selected == SelectedPages(found, spec, limits)
  {
    if found.OpenFailed? || found.Encrypted? || found.pageCount > limits.maxSourcePages {
      return None;
    }
    var parsed := ParsePageRange(spec, found.pageCount);
    if parsed.Err? || |parsed.value| > limits.maxSelectedPages {
      return None;
    }
    return Some(parsed.value);
  }

  /** A child inspects the document first, on the same budget; the pages asked for are then
      converted in chunks. The upload is rejected only once that child has succeeded. */
  method ConvertUploadedPdf(
    w: World, found: Inspection, spec: string, limits: Limits, size: nat, now: int, timeoutSeconds: nat)
    returns (r: Outcome, log: seq<Child>)
    requires size > 0
    ensures var deadline, selected := now + timeoutSeconds, SelectedPages(found, spec, limits);
            && InTime(log, now, deadline)
            && (r == Rejected <==> Succeeds(w, now, deadline, 0) && selected == None)
            && (r.Packed? <==>
                  && Succeeds(w, now, deadline, 0) && selected.Some?
                  && ChunksSucceed(w, now, deadline, 1, |selected.value|, size))
            && (r.Packed? ==> r.pages == selected.value)
  {
    var deadline := now + timeoutSeconds;
    var error, clock;
    error, log, clock := RunChild(w, now, deadline, [], now);
    if error.Some? {
      return error.value, log;
    }
    var selected := SelectPages(found, spec, limits);
    if selected == None {
      return Rejected, log;
    }
    r, log := ConvertInChunks(w, selected.value, size, now, deadline, log, clock);
  }
}
