/** Finding chapters in a PDF and their table (`converter/app.py`): marker search, the monotonic
    pass, page ranges, and names cut to the container's size in UTF-8. */
module Chapters {
  import opened Strings

  /** A Python string may hold lone surrogates, which UTF-8 cannot encode. */
  type CodePoint = c: int | 0 <= c < 0x110000

  type Text = seq<CodePoint>

  const MAX_CHAPTER_NAME_BYTES := 79

  const MAX_PAGE := 0xFFFE

  // ----- Names -----

  predicate IsSurrogate(c: CodePoint) { 0xD800 <= c < 0xE000 }

  predicate Encodable(text: Text) { forall i :: 0 <= i < |text| ==> !IsSurrogate(text[i]) }

  function Width(c: CodePoint): nat {
    if c < 0x80 then 1 else if c < 0x800 then 2 else if c < 0x10000 then 3 else 4
  }

  /** The length of the UTF-8 encoding. */
  function Bytes(text: Text): nat {
    if text == [] then 0 else Bytes(text[..|text| - 1]) + Width(text[|text| - 1])
  }

  /** `n` is the length of the longest prefix that fits. */
  predicate LongestFitting(text: Text, maxBytes: nat, n: nat) {
    && n <= |text| && Bytes(text[..n]) <= maxBytes
    && forall m :: n < m <= |text| ==> Bytes(text[..m]) > maxBytes
  }

  /** The length of the longest prefix that fits. */
  function Fitting(text: Text, maxBytes: nat): (n: nat)
    ensures LongestFitting(text, maxBytes, n)
  {
    if Bytes(text) <= maxBytes then
      assert text[..|text|] == text;
      |text|
    else
      var n := Fitting(text[..|text| - 1], maxBytes);
      assert forall m :: 0 <= m < |text| ==> text[..|text| - 1][..m] == text[..m];
      assert text[..|text|] == text;
      n
  }

  /** `None` when the text cannot be encoded; otherwise its longest prefix that fits. */
  method TruncateUtf8Bytes(text: Text, maxBytes: nat) returns (r: Option<Text>)
    ensures r.Some? <==> Encodable(text)
    ensures r.Some? ==> r.value == text[..Fitting(text, maxBytes)]
  {
    if !Encodable(text) {
      return None;
    }
    assert text[..|text|] == text;
    var cut := text;
    while cut != [] && Bytes(cut) > maxBytes
      invariant |cut| <= |text| && cut == text[..|cut|]
      invariant forall m :: |cut| < m <= |text| ==> Bytes(text[..m]) > maxBytes
    {
      cut := cut[..|cut| - 1];
    }
    LongestIsUnique(text, maxBytes, |cut|, Fitting(text, maxBytes));
    LongestIsUnique(text, maxBytes, Fitting(text, maxBytes), |cut|);
    r := Some(cut);
  }

  lemma {:induction false} BytesMonotonic(text: Text, n: nat, m: nat)
    requires n <= m <= |text|
    ensures Bytes(text[..n]) <= Bytes(text[..m])
    ensures Bytes(text[..m]) - Bytes(text[..n]) >= m - n
  {
    if n < m {
      assert text[..m][..m - 1] == text[..m - 1];
      BytesMonotonic(text, n, m - 1);
    }
  }

  /** There is one longest prefix that fits, and what fits is no longer than it. */
  lemma LongestIsUnique(text: Text, maxBytes: nat, n: nat, m: nat)
    requires LongestFitting(text, maxBytes, n) && m <= |text|
    ensures Bytes(text[..m]) <= maxBytes <==> m <= n
  {
    if m <= n {
      BytesMonotonic(text, m, n);
    }
  }

  // ----- Detection -----

  datatype Spec = Spec(name: Text, marker: string)

  datatype Located = Located(name: Text, startPage: int)

  predicate Contains(text: string, needle: string) {
    exists i :: 0 <= i <= |text| && needle <= text[i..]
  }

  method FindIn(text: string, needle: string) returns (found: bool)
    ensures found <==> Contains(text, needle)
  {
    for i := 0 to |text| + 1
      invariant forall j :: 0 <= j < i ==> !(needle <= text[j..])
    {
      if needle <= text[i..] {
        return true;
      }
    }
    found := false;
  }

  /** The first page in the range, clamped to the pages there are, that holds the marker. */
  predicate IsFirst(pages: seq<string>, marker: string, from: int, to: int, r: Option<int>) {
    match r
    case None => forall i :: 0 <= i < |pages| && from <= i <= to ==> !Contains(pages[i], marker)
    case Some(p) =>
      && 0 <= p < |pages| && from <= p <= to && Contains(pages[p], marker)
      && forall i :: 0 <= i < p && from <= i ==> !Contains(pages[i], marker)
  }

  method FindFirst(pages: seq<string>, marker: string, from: int, to: int) returns (r: Option<int>)
    ensures IsFirst(pages, marker, from, to, r)
  {
    var lo, hi := if from < 0 then 0 else from, if to < |pages| - 1 then to else |pages| - 1;
    var i := lo;
    while i < hi + 1
      invariant lo <= i
      invariant forall j :: lo <= j < i && j < |pages| ==> !Contains(pages[j], marker)
      decreases hi + 1 - i
    {
      var found := FindIn(pages[i], marker);
      if found {
        return Some(i);
      }
      i := i + 1;
    }
    r := None;
  }

  function FirstPage(pages: seq<string>, marker: string, from: nat): (r: Option<int>)
    requires from <= |pages|
    ensures IsFirst(pages, marker, from, |pages| - 1, r)
    decreases |pages| - from
  {
    if from == |pages| then None
    else if Contains(pages[from], marker) then Some(from)
    else FirstPage(pages, marker, from + 1)
  }

  /** Where each chapter's marker is first found; a chapter without a marker is not looked for. */
  function Hits(pages: seq<string>, chapters: seq<Spec>): (r: seq<Option<int>>)
    ensures |r| == |chapters|
    ensures forall i :: 0 <= i < |r| && r[i].Some? ==> 0 <= r[i].value < |pages|
  {
    if chapters == [] then []
    else
      var c := chapters[|chapters| - 1];
      Hits(pages, chapters[..|chapters| - 1]) + [if c.marker == "" then None else FirstPage(pages, c.marker, 0)]
  }

  /** A hit after every earlier one. */
  predicate IsRecord(hits: seq<Option<int>>, i: nat)
    requires i < |hits|
  {
    hits[i].Some? && forall j :: 0 <= j < i && hits[j].Some? ==> hits[j].value < hits[i].value
  }

  /** The chapters whose hit is a record, in order. */
  function Records(chapters: seq<Spec>, hits: seq<Option<int>>, n: nat): (r: seq<Located>)
    requires n <= |chapters| == |hits|
  {
    if n == 0 then []
    else Records(chapters, hits, n - 1)
         + if IsRecord(hits, n - 1) then [Located(chapters[n - 1].name, hits[n - 1].value)] else []
  }

  /** The largest hit before `n`, or -1. */
  ghost predicate IsMax(hits: seq<Option<int>>, n: nat, last: int)
    requires n <= |hits|
  {
    && (forall j :: 0 <= j < n && hits[j].Some? ==> hits[j].value <= last)
    && (last == -1 || exists j :: 0 <= j < n && hits[j] == Some(last))
  }

  /** The chapters located are those whose first marker page comes after those of all chapters before. */
  method DetectChapterPages(pages: seq<string>, chapters: seq<Spec>) returns (located: seq<Located>)
    ensures located == Records(chapters, Hits(pages, chapters), |chapters|)
  {
    located := [];
    var lastPage: int := -1;
    for k := 0 to |chapters|
      invariant located == Records(chapters[..k], Hits(pages, chapters[..k]), k)
      invariant IsMax(Hits(pages, chapters[..k]), k, lastPage)
    {
      var c := chapters[k];
      var hit: Option<int> := None;
      if c.marker != "" {
        hit := FindFirst(pages, c.marker, 0, |pages| - 1);
      }
      NextRecord(pages, chapters, k, hit, lastPage);
      if hit.Some? && hit.value > lastPage {
        located := located + [Located(c.name, hit.value)];
        lastPage := hit.value;
      }
    }
    assert chapters[..|chapters|] == chapters;
  }

  lemma {:induction false} RecordsOfPrefix(chapters: seq<Spec>, hits: seq<Option<int>>, n: nat, m: nat)
    requires n <= m <= |chapters| == |hits|
    ensures Records(chapters[..m], hits[..m], n) == Records(chapters, hits, n)
  {
    if n > 0 {
      RecordsOfPrefix(chapters, hits, n - 1, m);
      assert forall j :: 0 <= j < n ==> hits[..m][j] == hits[j];
      assert IsRecord(hits[..m], n - 1) <==> IsRecord(hits, n - 1);
    }
  }

  /** A next hit is a record exactly when it is after the largest so far. */
  lemma ExtendRecords(chapters: seq<Spec>, hits: seq<Option<int>>, hit: Option<int>, last: int)
    requires |chapters| == |hits| + 1 && IsMax(hits, |hits|, last) && (hit.Some? ==> hit.value >= 0)
    ensures var all := hits + [hit];
            && Records(chapters, all, |all|)
               == Records(chapters[..|hits|], hits, |hits|)
                  + (if hit.Some? && hit.value > last then [Located(chapters[|hits|].name, hit.value)] else [])
            && IsMax(all, |all|, if hit.Some? && hit.value > last then hit.value else last)
  {
    var all, n := hits + [hit], |hits|;
    assert all[..n] == hits;
    RecordsOfPrefix(chapters, all, n, n);
    assert all[n] == hit && forall j :: 0 <= j < n ==> all[j] == hits[j];
    if last != -1 {
      var j :| 0 <= j < n && hits[j] == Some(last);
      assert all[j] == Some(last);
    }
    assert IsRecord(all, n) <==> hit.Some? && hit.value > last;
  }

  lemma NextRecord(pages: seq<string>, chapters: seq<Spec>, k: nat, hit: Option<int>, last: int)
    requires k < |chapters| && IsMax(Hits(pages, chapters[..k]), k, last)
    requires if chapters[k].marker == "" then hit == None else IsFirst(pages, chapters[k].marker, 0, |pages| - 1, hit)
    ensures var after := Hits(pages, chapters[..k + 1]);
            && Records(chapters[..k + 1], after, k + 1)
               == Records(chapters[..k], Hits(pages, chapters[..k]), k)
                  + (if hit.Some? && hit.value > last then [Located(chapters[k].name, hit.value)] else [])
            && IsMax(after, k + 1, if hit.Some? && hit.value > last then hit.value else last)
  {
    var next := chapters[..k + 1];
    assert next[..k] == chapters[..k] && next[k] == chapters[k];
    FirstIsFirstPage(pages, chapters[k].marker, hit);
    assert Hits(pages, next) == Hits(pages, chapters[..k]) + [hit];
    ExtendRecords(next, Hits(pages, chapters[..k]), hit, last);
  }

  lemma FirstIsFirstPage(pages: seq<string>, marker: string, hit: Option<int>)
    ensures IsFirst(pages, marker, 0, |pages| - 1, hit) ==> hit == FirstPage(pages, marker, 0)
  {
  }

  /** The start pages rise strictly and are pages of the document. */
  predicate Rising(located: seq<Located>, pages: int) {
    && (forall i :: 0 <= i < |located| ==> 0 <= located[i].startPage < pages)
    && forall i, j :: 0 <= i < j < |located| ==> located[i].startPage < located[j].startPage
  }

  lemma {:induction false} RecordsRise(pages: seq<string>, chapters: seq<Spec>, n: nat)
    requires n <= |chapters|
    ensures Rising(Records(chapters, Hits(pages, chapters), n), |pages|)
    ensures forall l :: l in Records(chapters, Hits(pages, chapters), n) ==>
              exists j :: 0 <= j < n && Hits(pages, chapters)[j] == Some(l.startPage)
  {
    var hits := Hits(pages, chapters);
    if n > 0 {
      RecordsRise(pages, chapters, n - 1);
      var front, all := Records(chapters, hits, n - 1), Records(chapters, hits, n);
      forall l | l in all ensures exists j :: 0 <= j < n && hits[j] == Some(l.startPage) {
        if l in front {
          var j :| 0 <= j < n - 1 && hits[j] == Some(l.startPage);
        } else {
          assert hits[n - 1] == Some(l.startPage);
        }
      }
    }
  }

  // ----- The table -----

  datatype Entry = Entry(name: Text, startPage: int, endPage: int)

  function EndPage(located: seq<Located>, total: int, i: nat): int
    requires i < |located|
  {
    (if i + 1 < |located| then located[i + 1].startPage else total) - 1
  }

  predicate InRange(located: seq<Located>, total: int, i: nat)
    requires i < |located|
  {
    0 <= located[i].startPage <= MAX_PAGE && 0 <= EndPage(located, total, i) <= MAX_PAGE
  }

  predicate Kept(located: seq<Located>, total: int, i: nat)
    requires i < |located|
  {
    InRange(located, total, i) && Encodable(located[i].name)
  }

  function EntryOf(located: seq<Located>, total: int, i: nat): Entry
    requires i < |located|
  {
    var name := located[i].name;
    Entry(name[..Fitting(name, MAX_CHAPTER_NAME_BYTES)], located[i].startPage, EndPage(located, total, i))
  }

  /** The chapters kept, by number. */
  function KeptBefore(located: seq<Located>, total: int, n: nat): seq<nat>
    requires n <= |located|
  {
    if n == 0 then []
    else KeptBefore(located, total, n - 1) + if Kept(located, total, n - 1) then [n - 1] else []
  }

  /** The table has an entry for each chapter kept, in order. */
  function Table(located: seq<Located>, total: int, n: nat): seq<Entry>
    requires n <= |located|
  {
    if n == 0 then []
    else Table(located, total, n - 1) + if Kept(located, total, n - 1) then [EntryOf(located, total, n - 1)] else []
  }

  lemma {:induction false} KeptRise(located: seq<Located>, total: int, n: nat)
    requires n <= |located|
    ensures forall i :: i in KeptBefore(located, total, n) ==> i < n && Kept(located, total, i)
    ensures forall k, l :: 0 <= k < l < |KeptBefore(located, total, n)| ==>
              KeptBefore(located, total, n)[k] < KeptBefore(located, total, n)[l]
  {
    if n > 0 {
      KeptRise(located, total, n - 1);
      var front, all := KeptBefore(located, total, n - 1), KeptBefore(located, total, n);
      forall k, l | 0 <= k < l < |all| ensures all[k] < all[l] {
        assert all[k] == front[k] && front[k] in front;
        assert l < |front| ==> all[l] == front[l];
      }
    }
  }

  lemma {:induction false} TableEntries(located: seq<Located>, total: int, n: nat)
    requires n <= |located|
    ensures var from, entries := KeptBefore(located, total, n), Table(located, total, n);
            && |entries| == |from|
            && forall k :: 0 <= k < |from| ==> from[k] < n && entries[k] == EntryOf(located, total, from[k])
  {
    if n > 0 {
      TableEntries(located, total, n - 1);
    }
  }

  method BuildChapterEntries(located: seq<Located>, total: int) returns (entries: seq<Entry>)
    ensures entries == Table(located, total, |located|)
  {
    entries := [];
    for index := 0 to |located|
      invariant entries == Table(located, total, index)
    {
      var c := located[index];
      var endPage := total - 1;
      if index + 1 < |located| {
        endPage := located[index + 1].startPage - 1;
      }
      if 0 <= c.startPage <= MAX_PAGE && 0 <= endPage <= MAX_PAGE {
        var name := TruncateUtf8Bytes(c.name, MAX_CHAPTER_NAME_BYTES);
        if name.Some? {
          entries := entries + [Entry(name.value, c.startPage, endPage)];
        }
      }
    }
  }

  /** Nothing that passes both checks is left out, and a name in the table is never too long. */
  lemma {:induction false} TableKeeps(located: seq<Located>, total: int, n: nat, i: nat)
    requires i < n <= |located| && Kept(located, total, i)
    ensures i in KeptBefore(located, total, n) && EntryOf(located, total, i) in Table(located, total, n)
    ensures Bytes(EntryOf(located, total, i).name) <= MAX_CHAPTER_NAME_BYTES
  {
    var from, entries := KeptBefore(located, total, n), Table(located, total, n);
    if i < n - 1 {
      TableKeeps(located, total, n - 1, i);
    } else {
      assert from[|from| - 1] == i && entries[|entries| - 1] == EntryOf(located, total, i);
    }
  }

  /** The range check drops only a suffix. */
  lemma RangeDropsSuffix(located: seq<Located>, total: int, i: nat, j: nat)
    requires Rising(located, total) && i <= j < |located| && InRange(located, total, j)
    ensures InRange(located, total, i)
  {
    if i < j {
      assert located[i].startPage < located[j].startPage;
      assert located[i + 1].startPage <= located[j].startPage;
    }
  }

  /** Every range of the table is in order and before the next one. */
  lemma TableRises(located: seq<Located>, total: int)
    requires Rising(located, total)
    ensures var entries := Table(located, total, |located|);
            && (forall k :: 0 <= k < |entries| ==> 0 <= entries[k].startPage <= entries[k].endPage < total)
            && forall k, l :: 0 <= k < l < |entries| ==> entries[k].endPage < entries[l].startPage
  {
    var entries, from := Table(located, total, |located|), KeptBefore(located, total, |located|);
    KeptRise(located, total, |located|);
    TableEntries(located, total, |located|);
    forall k, l | 0 <= k < l < |entries| ensures entries[k].endPage < entries[l].startPage {
      assert from[k] < from[l] && located[from[k] + 1].startPage <= located[from[l]].startPage;
    }
  }

  /** When nothing is dropped the ranges follow each other without a gap, from the first start to the last page. */
  lemma TableTiles(located: seq<Located>, total: int)
    requires located != [] && |Table(located, total, |located|)| == |located|
    ensures var entries := Table(located, total, |located|);
            && entries[0].startPage == located[0].startPage && entries[|entries| - 1].endPage == total - 1
            && forall k :: 0 < k < |entries| ==> entries[k].startPage == entries[k - 1].endPage + 1
  {
    var from := KeptBefore(located, total, |located|);
    KeptRise(located, total, |located|);
    TableEntries(located, total, |located|);
    forall k | 0 <= k < |from| ensures from[k] == k {
      AllKept(from, |located|, k);
    }
  }

  /** As many rising indices below `n` as there are: each is its own place. */
  lemma AllKept(from: seq<nat>, n: nat, k: nat)
    requires |from| == n && k < n
    requires forall i :: 0 <= i < n ==> from[i] < n
    requires forall i, j :: 0 <= i < j < n ==> from[i] < from[j]
    ensures from[k] == k
  {
    AtLeastPlace(from, k);
    AtMostPlace(from, n, k);
  }

  lemma {:induction false} AtLeastPlace(from: seq<nat>, k: nat)
    requires k < |from| && forall i, j :: 0 <= i < j < |from| ==> from[i] < from[j]
    ensures from[k] >= k
  {
    if k > 0 {
      AtLeastPlace(from, k - 1);
    }
  }

  lemma {:induction false} AtMostPlace(from: seq<nat>, n: nat, k: nat)
    requires k < |from| == n && forall i :: 0 <= i < n ==> from[i] < n
    requires forall i, j :: 0 <= i < j < n ==> from[i] < from[j]
    ensures from[k] <= k
    decreases n - k
  {
    if k + 1 < n {
      AtMostPlace(from, n, k + 1);
    }
  }
}
