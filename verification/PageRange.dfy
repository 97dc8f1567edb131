/** The page-range language, read twice: by the Worker (`src/pdf-page-range.ts`) and, on its own,
    by the Container (`converter/pdf_upload.py`). Page numbers are unbounded. */
module PageRange {
  import opened Strings

  datatype Result<+T, +E> = Ok(value: T) | Err(error: E)

  // ----- Digits -----

  predicate IsDigit(c: char) {
    '0' <= c <= '9'
  }

  /** `\d+` */
  predicate IsNumber(s: string) {
    s != "" && forall i :: 0 <= i < |s| ==> IsDigit(s[i])
  }

  /** `[1-9]\d*` */
  predicate IsPageNumber(s: string) {
    IsNumber(s) && s[0] != '0'
  }

  function DigitValue(c: char): nat
    requires IsDigit(c)
  {
    (c as int) - ('0' as int)
  }

  function Value(s: string): nat
    requires forall i :: 0 <= i < |s| ==> IsDigit(s[i])
  {
    if s == "" then 0 else 10 * Value(s[..|s| - 1]) + DigitValue(s[|s| - 1])
  }

  lemma {:induction false} PageNumberPositive(s: string)
    requires IsPageNumber(s)
    ensures Value(s) >= 1
    decreases |s|
  {
    if |s| > 1 {
      PageNumberPositive(s[..|s| - 1]);
    }
  }

  /** Index of the first `-`, or the length. */
  function Dash(s: string): (i: nat)
    ensures i <= |s| && (i < |s| ==> s[i] == '-')
    ensures forall k :: 0 <= k < i ==> s[k] != '-'
  {
    if s == "" || s[0] == '-' then 0 else 1 + Dash(s[1..])
  }

  function Left(s: string): string { s[..Dash(s)] }

  function Right(s: string): string {
    if Dash(s) < |s| then s[Dash(s) + 1..] else ""
  }

  // ----- The Worker -----

  predicate IsSingle(s: string) { IsPageNumber(s) }
  predicate IsRange(s: string) { Dash(s) < |s| && IsPageNumber(Left(s)) && IsPageNumber(Right(s)) }
  predicate IsOpenEnd(s: string) { s != "" && s[|s| - 1] == '-' && IsPageNumber(s[..|s| - 1]) }
  predicate IsOpenStart(s: string) { s != "" && s[0] == '-' && IsPageNumber(s[1..]) }

  datatype SyntaxError = EmptySpec | EmptySegment | ReversedRange | InvalidSegment

  function SegmentError(s: string): Option<SyntaxError> {
    if s == "" then Some(EmptySegment)
    else if IsSingle(s) || IsOpenEnd(s) || IsOpenStart(s) then None
    else if IsRange(s) then if Value(Left(s)) > Value(Right(s)) then Some(ReversedRange) else None
    else Some(InvalidSegment)
  }

  function FirstError(segments: seq<string>): Option<SyntaxError> {
    if segments == [] then None
    else if SegmentError(segments[0]).Some? then SegmentError(segments[0])
    else FirstError(segments[1..])
  }

  function SyntaxErrorOf(spec: string): Option<SyntaxError> {
    if spec == "" then Some(EmptySpec) else FirstError(Split(spec, ','))
  }

  method ValidatePageRangeSyntax(spec: string) returns (error: Option<SyntaxError>)
    ensures error == SyntaxErrorOf(spec)
  {
    if |spec| == 0 {
      return Some(EmptySpec);
    }
    var segments := Split(spec, ',');
    for i := 0 to |segments|
      invariant FirstError(segments) == FirstError(segments[i..])
    {
      assert segments[i..][0] == segments[i] && segments[i..][1..] == segments[i + 1..];
      var segment := segments[i];
      if |segment| == 0 {
        return Some(EmptySegment);
      }
      if IsSingle(segment) || IsOpenEnd(segment) || IsOpenStart(segment) {
        continue;
      }
      if IsRange(segment) {
        if Value(Left(segment)) > Value(Right(segment)) {
          return Some(ReversedRange);
        }
        continue;
      }
      return Some(InvalidSegment);
    }
    return None;
  }

  /** Start and end of a segment that passed the syntax check, the end not capped yet. */
  function ResolveSegment(s: string, totalPages: nat): (nat, nat)
    requires SegmentError(s) == None
  {
    if IsSingle(s) then (Value(s), Value(s))
    else if IsRange(s) then (Value(Left(s)), Value(Right(s)))
    else if IsOpenEnd(s) then (Value(s[..|s| - 1]), totalPages)
    else (1, Value(s[1..]))
  }

  datatype ResolveError = Syntax(error: SyntaxError) | BadTotal | OutOfRange | NoPages | TooMany

  // ----- The Container -----

  datatype ParseError = EmptyPages | NoSegment | BelowFirst | BeyondLast | Reversed | Malformed | NothingSelected

  // Python's `$` also matches just before a line break at the end.
  function Chop(s: string): string {
    if s != "" && s[|s| - 1] == '\n' then s[..|s| - 1] else s
  }

  function CheckBounds(page: nat, totalPages: nat): Option<ParseError> {
    if page < 1 then Some(BelowFirst) else if page > totalPages then Some(BeyondLast) else None
  }

  function ParseSegment(segment: string, totalPages: nat): Result<(nat, nat), ParseError> {
    var s := Chop(segment);
    if Dash(s) < |s| && IsNumber(Left(s)) && IsNumber(Right(s)) then
      var start, end := Value(Left(s)), Value(Right(s));
      if CheckBounds(start, totalPages).Some? then Err(CheckBounds(start, totalPages).value)
      else if CheckBounds(end, totalPages).Some? then Err(CheckBounds(end, totalPages).value)
      else if start > end then Err(Reversed)
      else Ok((start, end))
    else if s != "" && s[|s| - 1] == '-' && IsNumber(s[..|s| - 1]) then
      var start := Value(s[..|s| - 1]);
      if CheckBounds(start, totalPages).Some? then Err(CheckBounds(start, totalPages).value)
      else Ok((start, totalPages))
    else if s != "" && s[0] == '-' && IsNumber(s[1..]) then
      var end := Value(s[1..]);
      if CheckBounds(end, totalPages).Some? then Err(CheckBounds(end, totalPages).value)
      else Ok((1, end))
    else if IsNumber(s) then
      var page := Value(s);
      if CheckBounds(page, totalPages).Some? then Err(CheckBounds(page, totalPages).value)
      else Ok((page, page))
    else Err(Malformed)
  }

  // ----- The page list both build -----

  function AddPage(pages: seq<nat>, page: nat): seq<nat> {
    if page in pages then pages else pages + [page]
  }

  function AddRange(pages: seq<nat>, start: nat, end: nat): seq<nat>
    decreases end + 1 - start
  {
    if start > end then pages else AddRange(AddPage(pages, start), start + 1, end)
  }

  function Members(pages: seq<nat>): set<nat> {
    set i | 0 <= i < |pages| :: pages[i]
  }

  // The inner loop of both: `seen` always holds what `pages` holds.
  method AppendRange(pages: seq<nat>, seen: set<nat>, start: nat, end: nat)
    returns (pages': seq<nat>, seen': set<nat>)
    requires seen == Members(pages)
    ensures pages' == AddRange(pages, start, end) && seen' == Members(pages')
  {
    pages', seen' := pages, seen;
    var page := start;
    while page <= end
      invariant seen' == Members(pages')
      invariant AddRange(pages', page, end) == AddRange(pages, start, end)
      decreases end + 1 - page
    {
      assert page in seen' <==> page in pages';
      if page !in seen' {
        ghost var longer := pages' + [page];
        assert forall k :: 0 <= k < |pages'| ==> longer[k] == pages'[k];
        assert longer[|pages'|] == page;
        assert Members(longer) == seen' + {page};
        seen' := seen' + {page};
        pages' := pages' + [page];
      }
      page := page + 1;
    }
  }

  function ContainerFrom(segments: seq<string>, totalPages: nat, pages: seq<nat>): Result<seq<nat>, ParseError> {
    if segments == [] then Ok(pages)
    else if segments[0] == "" then Err(NoSegment)
    else
      match ParseSegment(segments[0], totalPages)
      case Err(e) => Err(e)
      case Ok(range) => ContainerFrom(segments[1..], totalPages, AddRange(pages, range.0, range.1))
  }

  function ContainerPages(spec: string, totalPages: nat): Result<seq<nat>, ParseError> {
    if spec == "" then Err(EmptyPages)
    else
      match ContainerFrom(Split(spec, ','), totalPages, [])
      case Err(e) => Err(e)
      case Ok(pages) => if pages == [] then Err(NothingSelected) else Ok(pages)
  }

  method ParsePageRange(spec: string, totalPages: nat) returns (r: Result<seq<nat>, ParseError>)
    ensures r == ContainerPages(spec, totalPages)
  {
    if |spec| == 0 {
      return Err(EmptyPages);
    }
    var pages: seq<nat>, seen: set<nat> := [], {};
    var segments := Split(spec, ',');
    for i := 0 to |segments|
      invariant seen == Members(pages)
      invariant ContainerFrom(segments, totalPages, []) == ContainerFrom(segments[i..], totalPages, pages)
    {
      assert segments[i..][0] == segments[i] && segments[i..][1..] == segments[i + 1..];
      if segments[i] == "" {
        return Err(NoSegment);
      }
      var parsed := ParseSegment(segments[i], totalPages);
      if parsed.Err? {
        return Err(parsed.error);
      }
      pages, seen := AppendRange(pages, seen, parsed.value.0, parsed.value.1);
    }
    if |pages| == 0 {
      return Err(NothingSelected);
    }
    return Ok(pages);
  }

  function Min(a: nat, b: nat): nat { if a < b then a else b }

  function WorkerFrom(segments: seq<string>, totalPages: nat, pages: seq<nat>): Result<seq<nat>, ResolveError>
    requires FirstError(segments) == None
  {
    if segments == [] then Ok(pages)
    else
      var (start, end) := ResolveSegment(segments[0], totalPages);
      if start > totalPages then Err(OutOfRange)
      else WorkerFrom(segments[1..], totalPages, AddRange(pages, start, Min(end, totalPages)))
  }

  function WorkerPages(spec: string, totalPages: int, maxSelectedPages: nat): Result<seq<nat>, ResolveError> {
    if SyntaxErrorOf(spec).Some? then Err(Syntax(SyntaxErrorOf(spec).value))
    else if totalPages < 1 then Err(BadTotal)
    else
      match WorkerFrom(Split(spec, ','), totalPages, [])
      case Err(e) => Err(e)
      case Ok(pages) =>
        if |pages| == 0 then Err(NoPages)
        else if |pages| > maxSelectedPages then Err(TooMany)
        else Ok(pages)
  }

  method ResolvePageRange(spec: string, totalPages: int, maxSelectedPages: nat)
    returns (r: Result<seq<nat>, ResolveError>)
    ensures r == WorkerPages(spec, totalPages, maxSelectedPages)
  {
    var syntaxError := ValidatePageRangeSyntax(spec);
    if syntaxError.Some? {
      return Err(Syntax(syntaxError.value));
    }
    if totalPages < 1 {
      return Err(BadTotal);
    }
    var pages: seq<nat>, seen: set<nat> := [], {};
    var segments := Split(spec, ',');
    for i := 0 to |segments|
      invariant seen == Members(pages) && FirstError(segments[i..]) == None
      invariant WorkerFrom(segments, totalPages, []) == WorkerFrom(segments[i..], totalPages, pages)
    {
      assert segments[i..][0] == segments[i] && segments[i..][1..] == segments[i + 1..];
      var (start, end) := ResolveSegment(segments[i], totalPages);
      if start > totalPages {
        return Err(OutOfRange);
      }
      pages, seen := AppendRange(pages, seen, start, Min(end, totalPages));
    }
    if |pages| == 0 {
      return Err(NoPages);
    }
    if |pages| > maxSelectedPages {
      return Err(TooMany);
    }
    return Ok(pages);
  }

  // ----- What the page list is -----

  /** All pages of a range, in order. */
  function Span(start: nat, end: nat): (r: seq<nat>)
    ensures forall p :: p in r <==> start <= p <= end
    decreases end + 1 - start
  {
    if start > end then [] else [start] + Span(start + 1, end)
  }

  function AddAll(pages: seq<nat>, more: seq<nat>): seq<nat>
    decreases more
  {
    if more == [] then pages else AddAll(AddPage(pages, more[0]), more[1..])
  }

  lemma {:induction false} AddRangeIsAddAll(pages: seq<nat>, start: nat, end: nat)
    ensures AddRange(pages, start, end) == AddAll(pages, Span(start, end))
    decreases end + 1 - start
  {
    if start <= end {
      AddRangeIsAddAll(AddPage(pages, start), start + 1, end);
      assert Span(start, end)[1..] == Span(start + 1, end);
    }
  }

  lemma {:induction false} AddAllAppend(pages: seq<nat>, a: seq<nat>, b: seq<nat>)
    ensures AddAll(pages, a + b) == AddAll(AddAll(pages, a), b)
    decreases a
  {
    if a == [] {
      assert a + b == b;
    } else {
      assert (a + b)[0] == a[0] && (a + b)[1..] == a[1..] + b;
      AddAllAppend(AddPage(pages, a[0]), a[1..], b);
    }
  }

  function FirstIndex(all: seq<nat>, p: nat): (i: nat)
    requires p in all
    ensures i < |all| && all[i] == p && p !in all[..i]
  {
    if all[0] == p then 0 else 1 + FirstIndex(all[1..], p)
  }

  /** `r` holds the elements of `all`, each once, in the order of their first occurrence. */
  ghost predicate IsFirstOccurrences(all: seq<nat>, r: seq<nat>) {
    && (forall p :: p in r <==> p in all)
    && (forall i, j :: 0 <= i < j < |r| ==> r[i] in all && r[j] in all && FirstIndex(all, r[i]) < FirstIndex(all, r[j]))
  }

  lemma {:induction false} FirstIndexUnique(all: seq<nat>, p: nat, i: nat)
    requires i < |all| && all[i] == p && p !in all[..i]
    ensures FirstIndex(all, p) == i
  {
    if i > 0 {
      assert all[..i][0] == all[0] && all[..i] == [all[0]] + all[1..][..i - 1];
      FirstIndexUnique(all[1..], p, i - 1);
    }
  }

  lemma FirstIndexGrows(all: seq<nat>, p: nat, q: nat)
    requires q in all
    ensures FirstIndex(all + [p], q) == FirstIndex(all, q)
  {
    assert (all + [p])[..FirstIndex(all, q)] == all[..FirstIndex(all, q)];
    FirstIndexUnique(all + [p], q, FirstIndex(all, q));
  }

  lemma FirstOccurrencesStep(all: seq<nat>, r: seq<nat>, p: nat)
    requires IsFirstOccurrences(all, r)
    ensures IsFirstOccurrences(all + [p], AddPage(r, p))
  {
    var r' := AddPage(r, p);
    forall i, j | 0 <= i < j < |r'|
      ensures r'[i] in all + [p] && r'[j] in all + [p]
      ensures FirstIndex(all + [p], r'[i]) < FirstIndex(all + [p], r'[j])
    {
      assert r'[i] == r[i] && r[i] in r;
      FirstIndexGrows(all, p, r[i]);
      if j < |r| {
        assert r[j] in r;
        FirstIndexGrows(all, p, r[j]);
      } else {
        assert (all + [p])[..|all|] == all;
        FirstIndexUnique(all + [p], p, |all|);
      }
    }
  }

  lemma MoveOne(done: seq<nat>, more: seq<nat>)
    requires more != []
    ensures done + [more[0]] + more[1..] == done + more
  {
  }

  lemma {:induction false} AddAllFirstOccurrences(done: seq<nat>, r: seq<nat>, more: seq<nat>)
    requires IsFirstOccurrences(done, r)
    ensures IsFirstOccurrences(done + more, AddAll(r, more))
    decreases more
  {
    if more == [] {
      assert done + more == done;
    } else {
      FirstOccurrencesStep(done, r, more[0]);
      AddAllFirstOccurrences(done + [more[0]], AddPage(r, more[0]), more[1..]);
      MoveOne(done, more);
    }
  }

  /** The ranges the Worker resolves a list of segments to, written out. */
  function Listed(segments: seq<string>, totalPages: nat): seq<nat>
    requires FirstError(segments) == None
  {
    if segments == [] then []
    else
      var (start, end) := ResolveSegment(segments[0], totalPages);
      Span(start, Min(end, totalPages)) + Listed(segments[1..], totalPages)
  }

  lemma {:induction false} WorkerFromListed(segments: seq<string>, totalPages: nat, pages: seq<nat>)
    requires FirstError(segments) == None
    ensures WorkerFrom(segments, totalPages, pages).Ok? <==> StartsInRange(segments, totalPages)
    ensures WorkerFrom(segments, totalPages, pages).Ok?
            ==> WorkerFrom(segments, totalPages, pages).value == AddAll(pages, Listed(segments, totalPages))
    ensures WorkerFrom(segments, totalPages, pages).Err?
            ==> WorkerFrom(segments, totalPages, pages).error == OutOfRange
    decreases segments
  {
    if segments != [] {
      var (start, end) := ResolveSegment(segments[0], totalPages);
      var next := AddRange(pages, start, Min(end, totalPages));
      WorkerFromListed(segments[1..], totalPages, next);
      AddRangeIsAddAll(pages, start, Min(end, totalPages));
      AddAllAppend(pages, Span(start, Min(end, totalPages)), Listed(segments[1..], totalPages));
    }
  }

  // ----- When the two agree -----

  /** Every number a segment starts from is a page of the document. */
  predicate StartsInRange(segments: seq<string>, totalPages: nat)
    requires FirstError(segments) == None
  {
    segments == []
    || (ResolveSegment(segments[0], totalPages).0 <= totalPages && StartsInRange(segments[1..], totalPages))
  }

  /** Every number written in the spec is a page of the document. */
  predicate NumbersInRange(segments: seq<string>, totalPages: nat)
    requires FirstError(segments) == None
  {
    segments == []
    || (ResolveSegment(segments[0], totalPages).0 <= totalPages
        && ResolveSegment(segments[0], totalPages).1 <= totalPages
        && NumbersInRange(segments[1..], totalPages))
  }

  lemma {:induction false} DashAfter(a: string, b: string)
    requires '-' !in a
    ensures Dash(a + b) == |a| + Dash(b)
  {
    if a == "" {
      assert a + b == b;
    } else {
      assert (a + b)[0] == a[0] && (a + b)[1..] == a[1..] + b;
      DashAfter(a[1..], b);
    }
  }

  lemma NumberHasNoDash(s: string)
    requires IsNumber(s)
    ensures '-' !in s && Dash(s) == |s| && Chop(s) == s
  {
    DashAfter(s, "");
    assert s + "" == s;
  }

  lemma SinglePage(s: string, totalPages: nat)
    requires IsSingle(s)
    ensures Value(s) >= 1
    ensures ParseSegment(s, totalPages) == if Value(s) <= totalPages then Ok((Value(s), Value(s))) else Err(BeyondLast)
  {
    NumberHasNoDash(s);
    PageNumberPositive(s);
  }

  lemma OpenEndPages(s: string, totalPages: nat)
    requires IsOpenEnd(s)
    ensures var n := Value(s[..|s| - 1]);
            n >= 1 && ParseSegment(s, totalPages) == if n <= totalPages then Ok((n, totalPages)) else Err(BeyondLast)
    ensures !IsSingle(s) && !IsRange(s)
  {
    var n := s[..|s| - 1];
    NumberHasNoDash(n);
    PageNumberPositive(n);
    assert s == n + "-";
    DashAfter(n, "-");
    assert Right(s) == "";
  }

  lemma OpenStartPages(s: string, totalPages: nat)
    requires IsOpenStart(s)
    ensures var n := Value(s[1..]);
            n >= 1 && ParseSegment(s, totalPages) == if n <= totalPages then Ok((1, n)) else Err(BeyondLast)
    ensures !IsSingle(s) && !IsRange(s) && !IsOpenEnd(s)
  {
    var n := s[1..];
    NumberHasNoDash(n);
    PageNumberPositive(n);
    assert Left(s) == "" && s[|s| - 1] == n[|n| - 1] && IsDigit(n[|n| - 1]);
    assert Chop(s) == s;
  }

  lemma RangePages(s: string, totalPages: nat)
    requires IsRange(s) && Value(Left(s)) <= Value(Right(s))
    ensures var start, end := Value(Left(s)), Value(Right(s));
            start >= 1 && ParseSegment(s, totalPages) == if end <= totalPages then Ok((start, end)) else Err(BeyondLast)
    ensures !IsSingle(s)
  {
    PageNumberPositive(Left(s));
    PageNumberPositive(Right(s));
    assert s[|s| - 1] == Right(s)[|Right(s)| - 1] && IsDigit(Right(s)[|Right(s)| - 1]);
    assert Chop(s) == s;
  }

  /** On a segment the Worker accepts, the Container reads the same start and end, or rejects it
      because one of them is not a page of the document. */
  lemma SameSegment(s: string, totalPages: nat)
    requires SegmentError(s) == None && totalPages >= 1
    ensures var (start, end) := ResolveSegment(s, totalPages);
            && start >= 1 && end >= 1 && (start <= totalPages ==> start <= Min(end, totalPages))
            && ParseSegment(s, totalPages)
               == if start <= totalPages && end <= totalPages then Ok((start, end)) else Err(BeyondLast)
  {
    if IsSingle(s) {
      SinglePage(s, totalPages);
    } else if IsOpenEnd(s) {
      OpenEndPages(s, totalPages);
    } else if IsOpenStart(s) {
      OpenStartPages(s, totalPages);
    } else {
      RangePages(s, totalPages);
    }
  }

  lemma {:induction false} SameSegments(segments: seq<string>, totalPages: nat, pages: seq<nat>)
    requires FirstError(segments) == None && totalPages >= 1
    ensures ContainerFrom(segments, totalPages, pages).Ok? <==> NumbersInRange(segments, totalPages)
    ensures NumbersInRange(segments, totalPages) ==>
              && WorkerFrom(segments, totalPages, pages).Ok?
              && WorkerFrom(segments, totalPages, pages).value == ContainerFrom(segments, totalPages, pages).value
    ensures WorkerFrom(segments, totalPages, pages).Ok? && segments != [] ==>
              WorkerFrom(segments, totalPages, pages).value != []
    decreases segments
  {
    if segments != [] {
      var s := segments[0];
      SameSegment(s, totalPages);
      var (start, end) := ResolveSegment(s, totalPages);
      var next := AddRange(pages, start, Min(end, totalPages));
      SameSegments(segments[1..], totalPages, next);
      WorkerFromListed(segments, totalPages, pages);
      if start <= totalPages {
        AddAllGrows(pages, Listed(segments, totalPages));
        assert start in Span(start, Min(end, totalPages));
        assert start in Listed(segments, totalPages);
      }
    }
  }

  lemma {:induction false} AddAllGrows(pages: seq<nat>, more: seq<nat>)
    ensures forall p :: p in AddAll(pages, more) <==> p in pages || p in more
    decreases more
  {
    if more != [] {
      AddAllGrows(AddPage(pages, more[0]), more[1..]);
    }
  }

  /** For every spec the Worker accepts, the Container succeeds exactly when every number written
      is a page of the document, and then the Worker's own resolution gives the same list, or
      refuses it only for its length. */
  lemma SameLanguage(spec: string, totalPages: nat, maxSelectedPages: nat)
    requires SyntaxErrorOf(spec) == None && totalPages >= 1
    ensures ContainerPages(spec, totalPages).Ok? <==> NumbersInRange(Split(spec, ','), totalPages)
    ensures ContainerPages(spec, totalPages).Ok? ==>
              WorkerPages(spec, totalPages, maxSelectedPages)
              == if |ContainerPages(spec, totalPages).value| > maxSelectedPages then Err(TooMany)
                 else Ok(ContainerPages(spec, totalPages).value)
  {
    SameSegments(Split(spec, ','), totalPages, []);
  }

  /** Where they differ: the Worker clamps and the Container rejects exactly when every segment
      starts inside the document but some written end lies beyond it. */
  lemma WhereTheyDiffer(spec: string, totalPages: nat, maxSelectedPages: nat)
    requires SyntaxErrorOf(spec) == None && totalPages >= 1
    ensures var segments := Split(spec, ',');
            ContainerPages(spec, totalPages).Err? && WorkerPages(spec, totalPages, maxSelectedPages) != Err(OutOfRange)
            <==> StartsInRange(segments, totalPages) && !NumbersInRange(segments, totalPages)
  {
    SameLanguage(spec, totalPages, maxSelectedPages);
    WorkerFromListed(Split(spec, ','), totalPages, []);
  }

  /** The list itself: no page twice, every page of every range, in the order of first occurrence. */
  lemma PagesAreFirstOccurrences(spec: string, totalPages: nat, maxSelectedPages: nat)
    requires SyntaxErrorOf(spec) == None && totalPages >= 1
    requires WorkerPages(spec, totalPages, maxSelectedPages).Ok?
    ensures var pages := WorkerPages(spec, totalPages, maxSelectedPages).value;
            && IsFirstOccurrences(Listed(Split(spec, ','), totalPages), pages)
            && 1 <= |pages| <= maxSelectedPages
  {
    var all := Listed(Split(spec, ','), totalPages);
    WorkerFromListed(Split(spec, ','), totalPages, []);
    AddAllFirstOccurrences([], [], all);
    assert [] + all == all;
  }
}
