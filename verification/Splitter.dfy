/** Making enough segments, assembling the four chunks and the whole split
    (`splitTextIntoPieces`, `forceEnoughSegments`, `assembleChunks`, `splitContentIntoChunks`). */
module Splitter {
  import opened Strings
  import opened Html
  import opened Segments
  import opened Boundaries

  // ----- Splitting a text into pieces -----

  /** `Math.ceil(length / n)`. */
  function CeilDiv(length: nat, n: nat): nat
    requires n > 0
  {
    (length + n - 1) / n
  }

  function Pieces(text: string, n: nat): (r: seq<string>)
    requires n > 0 ==> |text| >= n
    ensures |r| == n
  {
    if n == 0 then []
    else
      var take := CeilDiv(|text|, n);
      CeilDivBounds(|text|, n);
      [text[..take]] + Pieces(text[take..], n - 1)
  }

  lemma MulSign(k: int, n: int)
    requires n >= 0
    ensures k >= 1 ==> k * n >= n
    ensures k <= -1 ==> k * n <= -n
  {
    if k >= 1 {
      assert k * n == (k - 1) * n + n && (k - 1) * n >= 0;
    } else if k <= -1 {
      assert k * n == (k + 1) * n - n && (k + 1) * n <= 0;
    }
  }

  lemma DivModUnique(a: int, n: nat, q: int, r: int)
    requires n > 0 && a == q * n + r && 0 <= r < n
    ensures a / n == q && a % n == r
  {
    assert (q - a / n) * n == a % n - r;
    MulSign(q - a / n, n);
  }

  lemma CeilIs(length: nat, n: nat)
    requires n > 0
    ensures CeilDiv(length, n) == length / n + if length % n > 0 then 1 else 0
  {
    var q, r := length / n, length % n;
    if r > 0 {
      assert (q + 1) * n == q * n + n;
      DivModUnique(length + n - 1, n, q + 1, r - 1);
    } else {
      DivModUnique(length + n - 1, n, q, n - 1);
    }
  }

  /** Taking the ceiling off leaves the same quotient and one less to spread. */
  lemma CeilDivBounds(length: nat, n: nat)
    requires n > 0 && length >= n
    ensures length / n >= 1
    ensures 1 <= CeilDiv(length, n) && length - CeilDiv(length, n) >= n - 1
    ensures n == 1 ==> CeilDiv(length, n) == length
    ensures n > 1 ==> var left := length - CeilDiv(length, n);
              && left / (n - 1) == length / n
              && left % (n - 1) == if length % n > 0 then length % n - 1 else 0
  {
    CeilIs(length, n);
    Euclid(length, n);
    QuotientAtLeastOne(length / n, length % n, n);
    TakeOne(length / n, length % n, n);
  }

  lemma Euclid(length: nat, n: nat)
    requires n > 0
    ensures (length / n) * n + length % n == length
  {
  }

  lemma QuotientAtLeastOne(q: int, r: int, n: nat)
    requires 0 <= r < n && q * n + r >= n
    ensures q >= 1
  {
    MulSign(q - 1, n);
    assert (q - 1) * n == q * n - n;
  }

  lemma TakeOne(q: nat, r: nat, n: nat)
    requires q >= 1 && r < n
    ensures var left := q * n + r - (q + if r > 0 then 1 else 0);
            && left >= n - 1 && (n == 1 ==> left == 0)
            && (n > 1 ==> left / (n - 1) == q && left % (n - 1) == if r > 0 then r - 1 else 0)
  {
    assert q * n == q * (n - 1) + q;
    MulSign(q, n - 1);
    if n > 1 {
      DivModUnique(q * n + r - (q + if r > 0 then 1 else 0), n - 1, q, if r > 0 then r - 1 else 0);
    } else {
      assert q * 0 == 0;
    }
  }

  lemma PiecesStep(text: string, start: nat, n: nat)
    requires n > 0 && start <= |text| && |text| - start >= n
    ensures var take := CeilDiv(|text| - start, n);
            && take >= 1 && |text| - (start + take) >= n - 1
            && Pieces(text[start..], n) == [text[start..start + take]] + Pieces(text[start + take..], n - 1)
  {
    var take := CeilDiv(|text| - start, n);
    CeilDivBounds(|text| - start, n);
    assert text[start..][take..] == text[start + take..];
    assert text[start..][..take] == text[start..start + take];
  }

  method SplitTextIntoPieces(text: string, n: nat) returns (pieces: Option<seq<string>>)
    ensures |text| < n ==> pieces == None
    ensures |text| >= n ==> pieces == Some(Pieces(text, n))
  {
    if |text| < n {
      return None;
    }
    var out: seq<string>, start := [], 0;
    ghost var all := Pieces(text, n);
    assert text[0..] == text;
    for i := 0 to n
      invariant 0 <= start <= |text| && |text| - start >= n - i
      invariant |out| == i && out == all[..i]
      invariant Pieces(text[start..], n - i) == all[i..]
    {
      var remaining := n - i;
      var take := CeilDiv(|text| - start, remaining);
      PiecesStep(text, start, remaining);
      assert all[i..][1..] == all[i + 1..] && all[..i + 1] == all[..i] + [all[i..][0]];
      out := out + [text[start..start + take]];
      start := start + take;
    }
    assert all[..n] == all;
    return Some(out);
  }

  /** The pieces are non-empty, put together they are the text, and their lengths differ by at
      most one, the longer ones first. */
  lemma {:induction false} PiecesPartition(text: string, n: nat)
    requires n > 0 && |text| >= n
    ensures Concat(Pieces(text, n)) == text
    ensures forall i :: 0 <= i < n ==>
              |Pieces(text, n)[i]| == |text| / n + if i < |text| % n then 1 else 0
    ensures |text| / n >= 1
  {
    var take := CeilDiv(|text|, n);
    CeilDivBounds(|text|, n);
    CeilIs(|text|, n);
    var rest := Pieces(text[take..], n - 1);
    if n == 1 {
      assert text[..take] == text && Pieces(text, n) == [text] && rest == [];
      assert text + "" == text;
    } else {
      PiecesPartition(text[take..], n - 1);
      assert text[..take] + text[take..] == text;
      assert Pieces(text, n)[1..] == rest;
      forall i | 0 <= i < n
        ensures |Pieces(text, n)[i]| == |text| / n + if i < |text| % n then 1 else 0
      {
        assert i > 0 ==> Pieces(text, n)[i] == rest[i - 1];
      }
    }
  }

  // ----- Making at least four segments -----

  /** Index of the first largest segment that is not a line break, or -1. */
  function Largest(segs: seq<Segment>): (k: int)
    ensures -1 <= k < |segs|
    ensures k == -1 ==> forall i :: 0 <= i < |segs| ==> segs[i].isBr
    ensures k >= 0 ==> !segs[k].isBr
    ensures k >= 0 ==> forall i :: 0 <= i < |segs| && !segs[i].isBr ==> segs[i].textLen <= segs[k].textLen
    ensures k >= 0 ==> forall i :: 0 <= i < k && !segs[i].isBr ==> segs[i].textLen < segs[k].textLen
  {
    if segs == [] then -1
    else
      var last := |segs| - 1;
      var best := Largest(segs[..last]);
      if !segs[last].isBr && (best == -1 || segs[last].textLen > segs[best].textLen) then last else best
  }

  function TextSegments(pieces: seq<string>): (r: seq<Segment>)
    ensures |r| == |pieces|
  {
    if pieces == [] then [] else [TextSegment(pieces[0])] + TextSegments(pieces[1..])
  }

  /** Fewer than four segments: the largest one's markup is decoded and cut up. */
  function Forced(segs: seq<Segment>): (r: Option<seq<Segment>>)
    ensures r.Some? && |segs| < CHUNK_COUNT ==> |r.value| == CHUNK_COUNT
  {
    if |segs| >= CHUNK_COUNT then Some(segs)
    else
      var needed := CHUNK_COUNT - |segs| + 1;
      var k := Largest(segs);
      if k == -1 || segs[k].textLen < needed then None
      else
        var rawText := UnescapeText(segs[k].html);
        if |rawText| < needed then None
        else Some(segs[..k] + TextSegments(Pieces(rawText, needed)) + segs[k + 1..])
  }

  method FindLargest(segs: seq<Segment>) returns (largestIdx: int, largestLen: int)
    ensures largestIdx == Largest(segs)
    ensures largestLen == if largestIdx == -1 then -1 else segs[largestIdx].textLen
  {
    largestIdx, largestLen := -1, -1;
    for i := 0 to |segs|
      invariant largestIdx == Largest(segs[..i])
      invariant largestLen == if largestIdx == -1 then -1 else segs[largestIdx].textLen
    {
      assert segs[..i + 1][..i] == segs[..i];
      if !segs[i].isBr && segs[i].textLen > largestLen {
        largestLen := segs[i].textLen;
        largestIdx := i;
      }
    }
    assert segs[..|segs|] == segs;
  }

  lemma {:induction false} TextSegmentsAt(pieces: seq<string>)
    ensures forall i :: 0 <= i < |pieces| ==> TextSegments(pieces)[i] == TextSegment(pieces[i])
  {
    if pieces != [] {
      TextSegmentsAt(pieces[1..]);
    }
  }

  method ReplacementSegments(pieces: seq<string>) returns (replacement: seq<Segment>)
    ensures replacement == TextSegments(pieces)
  {
    replacement := [];
    TextSegmentsAt(pieces);
    for i := 0 to |pieces|
      invariant replacement == TextSegments(pieces)[..i]
    {
      replacement := replacement + [TextSegment(pieces[i])];
    }
  }

  // The last call is the recursion of the source; what it is given never needs forcing again.
  method ForceEnoughSegments(segs: seq<Segment>) returns (r: Option<seq<Segment>>)
    ensures r == Forced(segs)
    decreases if |segs| >= CHUNK_COUNT then 0 else 1
  {
    if |segs| >= CHUNK_COUNT {
      return Some(segs);
    }
    var needed := CHUNK_COUNT - |segs| + 1;
    var largestIdx, largestLen := FindLargest(segs);
    if largestIdx == -1 || largestLen < needed {
      return None;
    }
    var rawText := UnescapeText(segs[largestIdx].html);
    var pieces := SplitTextIntoPieces(rawText, needed);
    if pieces == None {
      return None;
    }
    var replacement := ReplacementSegments(pieces.value);
    r := ForceEnoughSegments(segs[..largestIdx] + replacement + segs[largestIdx + 1..]);
  }

  /** The segment that `forceEnoughSegments` would cut up came from an element. The caller can
      see it: the markup of an element holds a raw `<`, that of a text never does. */
  predicate CutsUpAnElement(segs: seq<Segment>) {
    |segs| < CHUNK_COUNT && Largest(segs) >= 0 && '<' in segs[Largest(segs)].html
  }

  lemma {:induction false} TextSegmentsText(pieces: seq<string>)
    ensures TextsOf(TextSegments(pieces)) == Concat(pieces)
    ensures AllHonest(TextSegments(pieces))
  {
    if pieces != [] {
      TextSegmentHonest(pieces[0]);
      TextSegmentsText(pieces[1..]);
    }
  }

  /** A flattened segment is some text, escaped, or the `outerHTML` of an element. */
  predicate HasOrigin(s: Segment, n: Node) {
    WellFormedNode(n) && match n
      case Text(data) => s == TextSegment(data)
      case Element(_, _, _) => s == ElementSegment(n)
      case Comment(_) => false
  }

  ghost predicate Original(s: Segment) {
    exists n :: HasOrigin(s, n)
  }

  ghost predicate AllOriginal(segs: seq<Segment>) {
    forall i :: 0 <= i < |segs| ==> Original(segs[i])
  }

  lemma {:induction false} FlattenOrigins(ns: seq<Node>, totalLength: nat, depth: nat)
    requires WellFormed(ns)
    ensures AllOriginal(Flatten(ns, totalLength, depth))
    decreases ns
  {
    if ns != [] {
      var head := FlattenNode(ns[0], totalLength, depth);
      FlattenOrigins(ns[1..], totalLength, depth);
      if Dominant(ns[0], totalLength, depth) {
        FlattenOrigins(ns[0].children, totalLength, depth + 1);
      } else if head != [] {
        assert HasOrigin(head[0], ns[0]);
      }
    }
  }

  /** What decoding does to the markup of one segment: it gives the text back for a text segment,
      and something else for an element. */
  lemma DecodedSegment(s: Segment, n: Node)
    requires HasOrigin(s, n)
    ensures '<' !in s.html ==> UnescapeText(s.html) == TextOf(s.html)
    ensures '<' in s.html ==> Count('<', UnescapeText(s.html)) > Count('<', TextOf(s.html))
  {
    match n {
      case Text(data) =>
        TextSegmentHonest(data);
        UnescapeEscape(data);
      case Element(tag, attrs, children) =>
        NodeRoundTrip(n);
        UnescapedElementIsNotItsText(n);
        assert OpenTag(tag, attrs)[0] == '<';
        assert s.html[0] == '<';
    }
  }

  /** The same for a list with one segment replaced by its decoded and re-escaped text. */
  lemma ReplacedSegment(segs: seq<Segment>, k: nat, pieces: seq<string>)
    requires k < |segs| && AllHonest(segs) && AllOriginal(segs)
    requires Concat(pieces) == UnescapeText(segs[k].html)
    ensures var out := segs[..k] + TextSegments(pieces) + segs[k + 1..];
            AllHonest(out) && (TextsOf(out) == TextsOf(segs) <==> '<' !in segs[k].html)
  {
    HonestReplacement(segs, k, pieces);
    var n :| HasOrigin(segs[k], n);
    DecodedSegment(segs[k], n);
    TextSegmentsText(pieces);
    ReplacedText(segs, k, TextSegments(pieces));
    OtherMiddle(TextsOf(segs[..k]), UnescapeText(segs[k].html), TextOf(segs[k].html), TextsOf(segs[k + 1..]));
  }

  lemma HonestReplacement(segs: seq<Segment>, k: nat, pieces: seq<string>)
    requires k < |segs| && AllHonest(segs)
    ensures AllHonest(segs[..k] + TextSegments(pieces) + segs[k + 1..])
  {
    TextSegmentsText(pieces);
  }

  lemma OtherMiddle(x: string, y: string, y': string, z: string)
    ensures Count('<', y) != Count('<', y') ==> x + y + z != x + y' + z
  {
    CountThree('<', x, y, z);
    CountThree('<', x, y', z);
  }

  lemma CountThree(c: char, x: string, y: string, z: string)
    ensures Count(c, x + y + z) == Count(c, x) + Count(c, y) + Count(c, z)
  {
    CountAppend(c, x + y, z);
    CountAppend(c, x, y);
  }

  /** Forcing keeps the text exactly when it does not cut up an element. */
  lemma ForcedKeepsText(root: seq<Node>, totalLength: nat)
    requires WellFormed(root)
    requires Forced(Flatten(root, totalLength, 0)).Some?
    ensures var segs := Flatten(root, totalLength, 0);
            && AllHonest(Forced(segs).value)
            && (TextsOf(Forced(segs).value) == TextContent(root) <==> !CutsUpAnElement(segs))
  {
    var segs := Flatten(root, totalLength, 0);
    FlattenKeepsText(root, totalLength, 0);
    if |segs| < CHUNK_COUNT {
      FlattenOrigins(root, totalLength, 0);
      var k := Largest(segs);
      var pieces := Pieces(UnescapeText(segs[k].html), CHUNK_COUNT - |segs| + 1);
      PiecesPartition(UnescapeText(segs[k].html), CHUNK_COUNT - |segs| + 1);
      ReplacedSegment(segs, k, pieces);
    }
  }

  lemma ReplacedText(segs: seq<Segment>, k: nat, by': seq<Segment>)
    requires k < |segs|
    ensures TextsOf(segs) == TextsOf(segs[..k]) + TextOf(segs[k].html) + TextsOf(segs[k + 1..])
    ensures TextsOf(segs[..k] + by' + segs[k + 1..]) == TextsOf(segs[..k]) + TextsOf(by') + TextsOf(segs[k + 1..])
  {
    assert segs == segs[..k] + [segs[k]] + segs[k + 1..];
    assert TextsOf([segs[k]]) == TextOf(segs[k].html) + "";
    TextsOfAppend(segs[..k] + [segs[k]], segs[k + 1..]);
    TextsOfAppend(segs[..k], [segs[k]]);
    TextsOfAppend(segs[..k] + by', segs[k + 1..]);
    TextsOfAppend(segs[..k], by');
  }

  // The document `<p>text</p>`.
  function OneParagraph(text: string): Node {
    Element("p", [], [Text(text)])
  }

  predicate Plain(text: string) {
    forall i :: 0 <= i < |text| ==> !IsSpace(text[i]) && text[i] !in "&<>"
  }

  lemma OneParagraphText(text: string)
    requires Plain(text)
    ensures WellFormed([OneParagraph(text)])
    ensures NodeText(OneParagraph(text)) == TextContent([OneParagraph(text)]) == Strip(text) == text
  {
    NothingToStrip(text);
    Single(Text(text));
    Single(OneParagraph(text));
  }

  lemma OneParagraphMarkup(text: string)
    requires Plain(text)
    ensures NodeMarkup(OneParagraph(text)) == "<p>" + text + "</p>"
  {
    EscapeIsPerCharacter(text);
    NothingToEscape(text);
    Single(Text(text));
    assert "<p>" + (text + "</p>") == "<p>" + text + "</p>";
  }

  lemma OneParagraphSegment(text: string)
    requires Plain(text)
    ensures var s := ElementSegment(OneParagraph(text));
            && s.textLen == |text| && !s.isBr && '<' in s.html && |UnescapeText(s.html)| >= |text|
  {
    OneParagraphText(text);
    OneParagraphMarkup(text);
    var html := "<p>" + text + "</p>";
    assert html[0] == '<';
    NothingToUnescape(html);
  }

  /** The damage, on the document `<p>text</p>`: its only segment is an element, and its tags
      become text. */
  lemma CutUpElementExample(text: string)
    requires Plain(text) && |text| >= CHUNK_COUNT
    ensures var root := [OneParagraph(text)];
            var segs := Flatten(root, StrippedLength(TextContent(root)), 0);
            && WellFormed(root) && CutsUpAnElement(segs) && Forced(segs).Some?
            && TextsOf(Forced(segs).value) != TextContent(root)
  {
    var e := OneParagraph(text);
    OneParagraphText(text);
    OneParagraphSegment(text);
    OneElementFlattened(e, |text|);
    OnlySegmentForced(ElementSegment(e));
    ForcedKeepsText([e], |text|);
  }

  lemma OnlySegmentForced(s: Segment)
    requires !s.isBr && s.textLen >= CHUNK_COUNT && |UnescapeText(s.html)| >= CHUNK_COUNT
    ensures Largest([s]) == 0 && Forced([s]).Some?
  {
    assert [s][..0] == [];
  }

  lemma OneElementFlattened(e: Node, totalLength: nat)
    requires e.Element? && |e.children| <= 1
    ensures Flatten([e], totalLength, 0) == [ElementSegment(e)]
  {
    assert [e][1..] == [] && !Dominant(e, totalLength, 0);
    assert Flatten([e], totalLength, 0) == [ElementSegment(e)] + Flatten([], totalLength, 0);
  }

  lemma {:induction false} NothingToStrip(s: string)
    requires forall i :: 0 <= i < |s| ==> !IsSpace(s[i])
    ensures Strip(s) == s
  {
    if s != "" {
      NothingToStrip(s[1..]);
      assert s == [s[0]] + s[1..];
    }
  }

  lemma {:induction false} NothingToEscape(s: string)
    requires '&' !in s && '<' !in s && '>' !in s
    ensures EscapeEach(s) == s
  {
    if s != "" {
      NothingToEscape(s[1..]);
      assert s == [s[0]] + s[1..];
    }
  }

  lemma NothingToUnescape(s: string)
    requires '&' !in s
    ensures UnescapeText(s) == s
  {
    SkipPrefix(s, "", "&lt;", "<");
    SkipPrefix(s, "", "&gt;", ">");
    SkipPrefix(s, "", "&amp;", "&");
    assert s + "" == s;
  }

  // ----- Assembling the chunks -----

  datatype Chunk = Chunk(html: string, textLength: nat)

  function ChunkOf(segs: seq<Segment>): Chunk {
    Chunk(HtmlOf(segs), StrippedLength(TextOf(HtmlOf(segs))))
  }

  function CutPoints(segs: seq<Segment>, boundaries: seq<nat>): seq<nat> {
    [0] + boundaries + [|segs|]
  }

  predicate Ordered(cuts: seq<nat>, n: nat) {
    |cuts| == CHUNK_COUNT + 1 && 0 == cuts[0] <= cuts[1] <= cuts[2] <= cuts[3] <= cuts[4] == n
  }

  function Slice(segs: seq<Segment>, cuts: seq<nat>, i: nat): seq<Segment>
    requires Ordered(cuts, |segs|) && i < CHUNK_COUNT
  {
    segs[cuts[i]..cuts[i + 1]]
  }

  function Assembled(segs: seq<Segment>, cuts: seq<nat>): (r: seq<Chunk>)
    requires Ordered(cuts, |segs|)
  {
    [ChunkOf(Slice(segs, cuts, 0)), ChunkOf(Slice(segs, cuts, 1)),
     ChunkOf(Slice(segs, cuts, 2)), ChunkOf(Slice(segs, cuts, 3))]
  }

  method JoinHtml(slice: seq<Segment>) returns (html: string)
    ensures html == HtmlOf(slice)
  {
    html := "";
    for k := 0 to |slice|
      invariant html == HtmlOf(slice[..k])
    {
      assert slice[..k + 1] == slice[..k] + [slice[k]];
      TextsOfAppend(slice[..k], [slice[k]]);
      assert HtmlOf([slice[k]]) == slice[k].html + "" == slice[k].html;
      html := html + slice[k].html;
    }
    assert slice[..|slice|] == slice;
  }

  method AssembleChunks(segs: seq<Segment>, boundaries: seq<nat>) returns (chunks: seq<Chunk>)
    requires |boundaries| == 3 && Ordered(CutPoints(segs, boundaries), |segs|)
    ensures chunks == Assembled(segs, CutPoints(segs, boundaries))
  {
    var cuts := CutPoints(segs, boundaries);
    chunks := [];
    for i := 0 to CHUNK_COUNT
      invariant |chunks| == i && chunks == Assembled(segs, cuts)[..i]
    {
      var html := JoinHtml(Slice(segs, cuts, i));
      chunks := chunks + [Chunk(html, StrippedLength(TextOf(html)))];
    }
  }

  /** The texts of the chunks, one after the other. */
  function ChunkTexts(chunks: seq<Chunk>): string {
    if chunks == [] then "" else TextOf(chunks[0].html) + ChunkTexts(chunks[1..])
  }

  lemma AssembledText(segs: seq<Segment>, cuts: seq<nat>)
    requires AllHonest(segs) && Ordered(cuts, |segs|)
    ensures ChunkTexts(Assembled(segs, cuts)) == TextsOf(segs)
  {
    AssembledTextFrom(segs, cuts, 0);
    assert Assembled(segs, cuts)[0..] == Assembled(segs, cuts) && segs[cuts[0]..] == segs;
  }

  lemma {:induction false} AssembledTextFrom(segs: seq<Segment>, cuts: seq<nat>, i: nat)
    requires AllHonest(segs) && Ordered(cuts, |segs|) && i <= CHUNK_COUNT
    ensures cuts[i] <= |segs| && ChunkTexts(Assembled(segs, cuts)[i..]) == TextsOf(segs[cuts[i]..])
    decreases CHUNK_COUNT - i
  {
    if i < CHUNK_COUNT {
      var chunks := Assembled(segs, cuts);
      AssembledTextFrom(segs, cuts, i + 1);
      AssembledChunk(segs, cuts, i);
      SliceOff(segs, cuts, i);
      assert chunks[i..][0] == chunks[i] && chunks[i..][1..] == chunks[i + 1..];
    }
  }

  lemma AssembledChunk(segs: seq<Segment>, cuts: seq<nat>, i: nat)
    requires AllHonest(segs) && Ordered(cuts, |segs|) && i < CHUNK_COUNT
    ensures TextOf(Assembled(segs, cuts)[i].html) == TextsOf(Slice(segs, cuts, i))
    ensures Assembled(segs, cuts)[i].textLength == Weight(Slice(segs, cuts, i))
  {
    HonestMarkup(Slice(segs, cuts, i));
  }

  lemma SliceOff(segs: seq<Segment>, cuts: seq<nat>, i: nat)
    requires Ordered(cuts, |segs|) && i < CHUNK_COUNT
    ensures cuts[i] <= |segs| && cuts[i + 1] <= |segs|
    ensures TextsOf(segs[cuts[i]..]) == TextsOf(Slice(segs, cuts, i)) + TextsOf(segs[cuts[i + 1]..])
  {
    assert segs[cuts[i]..] == Slice(segs, cuts, i) + segs[cuts[i + 1]..];
    TextsOfAppend(Slice(segs, cuts, i), segs[cuts[i + 1]..]);
  }

  // ----- The whole split -----

  predicate SomeChunkEmpty(chunks: seq<Chunk>) {
    exists i :: 0 <= i < |chunks| && chunks[i].textLength == 0
  }

  function CheckChunks(chunks: seq<Chunk>): Option<seq<Chunk>> {
    if SomeChunkEmpty(chunks) then None else Some(chunks)
  }

  predicate RawInside(segs: seq<Segment>, raw: seq<nat>) {
    forall i :: 0 <= i < |raw| ==> raw[i] <= |segs|
  }

  /** `r` comes from the cuts `raw` once they are moved off orphaned headings. */
  predicate FromCuts(segs: seq<Segment>, raw: seq<nat>, r: Option<seq<Chunk>>) {
    && RawInside(segs, raw)
    && var cuts := CutPoints(segs, Repair(segs, raw, 0));
       Ordered(cuts, |segs|) && r == CheckChunks(Assembled(segs, cuts))
  }

  /** `r` is the split of the document: a failure exactly when it has no text, cannot be forced
      into four segments, or leaves a chunk without text. */
  ghost predicate IsSplit(root: seq<Node>, r: Option<seq<Chunk>>) {
    var total := StrippedLength(TextContent(root));
    var forced := Forced(Flatten(root, total, 0));
    if total == 0 || forced == None then r == None
    else exists raw :: AreCuts(forced.value, raw) && FromCuts(forced.value, raw, r)
  }

  lemma FinalCutsOrdered(segs: seq<Segment>, raw: seq<nat>)
    requires |segs| >= 4 && AreCuts(segs, raw)
    ensures RawInside(segs, raw)
    ensures |Repair(segs, raw, 0)| == 3 && Ordered(CutPoints(segs, Repair(segs, raw, 0)), |segs|)
    ensures NoOrphans(segs, Repair(segs, raw, 0), 0)
  {
    CutsLeaveNoChunkWithoutSegments(segs, raw);
    RisingThree(raw, |segs|);
    RepairIsSafe(segs, raw, 0, 0);
    RisingThree(Repair(segs, raw, 0), |segs|);
  }

  lemma RisingThree(r: seq<nat>, n: nat)
    requires |r| == 3
    ensures Rising(r, 0, n) <==> 0 < r[0] < r[1] < r[2] < n
  {
    assert Rising(r[1..][1..], r[1], n) <==> r[1] < r[2] < n;
    assert Rising(r[1..], r[0], n) <==> r[0] < r[1] < n && Rising(r[1..][1..], r[1], n);
  }

  method SplitContentIntoChunks(root: seq<Node>) returns (r: Option<seq<Chunk>>)
    ensures IsSplit(root, r)
  {
    var totalLength := StrippedLength(TextContent(root));
    if totalLength == 0 {
      return None;
    }
    var flat := FlattenSegments(root, totalLength, 0);
    var forced := ForceEnoughSegments(flat);
    if forced == None {
      return None;
    }
    var segs := forced.value;
    var rawBoundaries := ChooseBoundaries(segs);
    FinalCutsOrdered(segs, rawBoundaries);
    var boundaries := RepairHeadingOrphans(segs, rawBoundaries);
    var chunks := AssembleChunks(segs, boundaries);
    assert FromCuts(segs, rawBoundaries, CheckChunks(chunks));
    if exists i :: 0 <= i < |chunks| && chunks[i].textLength == 0 {
      return None;
    }
    return Some(chunks);
  }

  /** There is one split of a document. */
  lemma SplitUnique(root: seq<Node>, r: Option<seq<Chunk>>, other: Option<seq<Chunk>>)
    requires IsSplit(root, r) && IsSplit(root, other)
    ensures r == other
  {
    var total := StrippedLength(TextContent(root));
    var forced := Forced(Flatten(root, total, 0));
    if total > 0 && forced.Some? {
      var raw :| AreCuts(forced.value, raw) && FromCuts(forced.value, raw, r);
      var raw' :| AreCuts(forced.value, raw') && FromCuts(forced.value, raw', other);
      CutsUnique(forced.value, raw, raw');
    }
  }

  /** A document that splits gives exactly four chunks, each with text, and the texts of the chunks
      put together in order are the text of the document, unless an element was cut up. */
  lemma SplitKeepsText(root: seq<Node>, chunks: seq<Chunk>)
    requires WellFormed(root) && IsSplit(root, Some(chunks))
    ensures |chunks| == CHUNK_COUNT
    ensures forall i :: 0 <= i < CHUNK_COUNT ==>
              chunks[i].textLength == StrippedLength(TextOf(chunks[i].html)) > 0
    ensures ChunkTexts(chunks) == TextContent(root)
       <==> !CutsUpAnElement(Flatten(root, StrippedLength(TextContent(root)), 0))
  {
    var total := StrippedLength(TextContent(root));
    var segs := Forced(Flatten(root, total, 0)).value;
    var raw :| AreCuts(segs, raw) && FromCuts(segs, raw, Some(chunks));
    var cuts := CutPoints(segs, Repair(segs, raw, 0));
    ForcedKeepsText(root, total);
    AssembledText(segs, cuts);
    ChunksHaveText(segs, cuts, chunks);
  }

  lemma ChunksHaveText(segs: seq<Segment>, cuts: seq<nat>, chunks: seq<Chunk>)
    requires Ordered(cuts, |segs|) && CheckChunks(Assembled(segs, cuts)) == Some(chunks)
    ensures |chunks| == CHUNK_COUNT && chunks == Assembled(segs, cuts)
    ensures forall i :: 0 <= i < CHUNK_COUNT ==>
              chunks[i].textLength == StrippedLength(TextOf(chunks[i].html)) > 0
  {
    assert !SomeChunkEmpty(chunks);
    forall i | 0 <= i < CHUNK_COUNT
      ensures chunks[i].textLength == StrippedLength(TextOf(chunks[i].html)) > 0
    {
      assert chunks[i] == ChunkOf(Slice(segs, cuts, i));
    }
  }
}
