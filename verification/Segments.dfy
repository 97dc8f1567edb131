/** Segments of a document and how the tree is flattened into them (`flattenSegments`). */
module Segments {
  import opened Strings
  import opened Html

  const CHUNK_COUNT := 4
  const MAX_RECURSION_DEPTH := 6

  datatype Segment = Segment(
    html: string,
    textLen: nat,
    isHeading: bool,
    isBr: bool,
    isBlock: bool,
    isPageBreak: bool,
    endsSentence: bool)

  function StrippedLength(text: string): nat {
    |Strip(text)|
  }

  /** `/[。」』.!?]\s*$/.test(text.trimEnd())`. */
  predicate EndsSentence(text: string) {
    var t := TrimEnd(text);
    t != "" && t[|t| - 1] in {'。', '」', '』', '.', '!', '?'}
  }

  /** `/page/i.test(cls)`. */
  predicate MentionsPage(cls: string) {
    |cls| >= 4 && ((cls[0] in "pP" && cls[1] in "aA" && cls[2] in "gG" && cls[3] in "eE") || MentionsPage(cls[1..]))
  }

  const PAGE_BREAK_NOTES := {"［＃改ページ］", "［＃改丁］", "［＃改見開き］", "［＃改段］"}

  function TextSegment(text: string): Segment {
    Segment(EscapeText(text), StrippedLength(text), false, false, false, false, EndsSentence(text))
  }

  function ElementSegment(e: Node): Segment
    requires e.Element?
  {
    var text := NodeText(e);
    Segment(
      NodeMarkup(e),
      StrippedLength(text),
      e.tag in {"h1", "h2", "h3", "h4"},
      e.tag == "br",
      e.tag == "div" || e.tag == "section",
      e.tag == "hr" || MentionsPage(Attribute(e.attrs, "class")) || Trim(text) in PAGE_BREAK_NOTES,
      false)
  }

  /** A child that holds more than 0.4 of the whole text is expanded into its own children. */
  predicate Dominant(n: Node, totalLength: nat, depth: nat) {
    && n.Element?
    && depth < MAX_RECURSION_DEPTH
    && totalLength > 0
    && 5 * StrippedLength(NodeText(n)) > 2 * totalLength
    && |n.children| > 1
  }

  function FlattenNode(n: Node, totalLength: nat, depth: nat): seq<Segment>
    decreases n
  {
    match n
    case Text(data) => if data == "" then [] else [TextSegment(data)]
    case Comment(_) => []
    case Element(_, _, children) =>
      if Dominant(n, totalLength, depth) then Flatten(children, totalLength, depth + 1)
      else [ElementSegment(n)]
  }

  function Flatten(ns: seq<Node>, totalLength: nat, depth: nat): seq<Segment>
    decreases ns
  {
    if ns == [] then [] else FlattenNode(ns[0], totalLength, depth) + Flatten(ns[1..], totalLength, depth)
  }

  lemma {:induction false} FlattenPrefix(ns: seq<Node>, totalLength: nat, depth: nat, i: nat)
    requires i < |ns|
    ensures Flatten(ns[..i + 1], totalLength, depth)
         == Flatten(ns[..i], totalLength, depth) + FlattenNode(ns[i], totalLength, depth)
  {
    if i == 0 {
      assert ns[..1][1..] == [];
    } else {
      assert ns[..i + 1][1..] == ns[1..][..i] && ns[..i][1..] == ns[1..][..i - 1];
      FlattenPrefix(ns[1..], totalLength, depth, i - 1);
    }
  }

  method FlattenSegments(children: seq<Node>, totalLength: nat, depth: nat) returns (out: seq<Segment>)
    ensures out == Flatten(children, totalLength, depth)
    decreases children
  {
    out := [];
    for i := 0 to |children|
      invariant out == Flatten(children[..i], totalLength, depth)
    {
      FlattenPrefix(children, totalLength, depth, i);
      var child := children[i];
      match child {
        case Text(text) =>
          if |text| == 0 {
            continue;
          }
          var len := StrippedLength(text);
          if len == 0 {
            BlankEndsNoSentence(text);
            out := out + [Segment(EscapeText(text), 0, false, false, false, false, false)];
            continue;
          }
          out := out + [Segment(EscapeText(text), len, false, false, false, false, EndsSentence(text))];
        case Comment(_) =>
          continue;
        case Element(tag, attrs, grandchildren) =>
          if Dominant(child, totalLength, depth) {
            var inner := FlattenSegments(grandchildren, totalLength, depth + 1);
            out := out + inner;
            continue;
          }
          out := out + [ElementSegment(child)];
      }
    }
    assert children[..|children|] == children;
  }

  lemma BlankEndsNoSentence(text: string)
    requires Strip(text) == ""
    ensures !EndsSentence(text)
  {
    var t := TrimEnd(text);
    assert t != "" ==> t[|t| - 1] == text[|t| - 1];
    StripAllSpace(text);
  }

  // ----- What a list of segments says -----

  /** The markup stands on its own and the recorded weight is that of its text. */
  predicate Honest(s: Segment) {
    Closed(s.html) && s.textLen == StrippedLength(TextOf(s.html))
  }

  predicate AllHonest(segs: seq<Segment>) {
    forall i :: 0 <= i < |segs| ==> Honest(segs[i])
  }

  function HtmlOf(segs: seq<Segment>): string {
    if segs == [] then "" else segs[0].html + HtmlOf(segs[1..])
  }

  /** The texts of the segments, in order. */
  function TextsOf(segs: seq<Segment>): string {
    if segs == [] then "" else TextOf(segs[0].html) + TextsOf(segs[1..])
  }

  /** The summed weight of the segments. */
  function Weight(segs: seq<Segment>): nat {
    if segs == [] then 0 else segs[0].textLen + Weight(segs[1..])
  }

  lemma {:induction false} HonestMarkup(segs: seq<Segment>)
    requires AllHonest(segs)
    ensures Closed(HtmlOf(segs)) && TextOf(HtmlOf(segs)) == TextsOf(segs)
    ensures Weight(segs) == StrippedLength(TextsOf(segs))
  {
    if segs != [] {
      HonestMarkup(segs[1..]);
      ClosedAppend(segs[0].html, HtmlOf(segs[1..]));
      StripAppend(TextOf(segs[0].html), TextsOf(segs[1..]));
    }
  }

  lemma {:induction false} TextsOfAppend(a: seq<Segment>, b: seq<Segment>)
    ensures TextsOf(a + b) == TextsOf(a) + TextsOf(b)
    ensures HtmlOf(a + b) == HtmlOf(a) + HtmlOf(b)
    ensures Weight(a + b) == Weight(a) + Weight(b)
  {
    if a == [] {
      assert a + b == b;
    } else {
      assert (a + b)[1..] == a[1..] + b;
      TextsOfAppend(a[1..], b);
    }
  }

  lemma TextSegmentHonest(text: string)
    ensures Honest(TextSegment(text)) && TextOf(TextSegment(text).html) == text
    ensures '<' !in TextSegment(text).html
  {
    EscapeIsPerCharacter(text);
    ScanEscaped(text);
    EscapedHasNoLt(text);
  }

  lemma {:induction false} EscapedHasNoLt(text: string)
    ensures '<' !in EscapeEach(text)
  {
    if text != "" {
      EscapedHasNoLt(text[1..]);
      assert '<' !in EscapeChar(text[0]);
    }
  }

  /** Flattening, however deep it unwraps, keeps the text of the tree in document order. */
  lemma {:induction false} FlattenNodeKeepsText(n: Node, totalLength: nat, depth: nat)
    requires WellFormedNode(n)
    ensures AllHonest(FlattenNode(n, totalLength, depth))
    ensures TextsOf(FlattenNode(n, totalLength, depth)) == NodeText(n)
    decreases n
  {
    match n {
      case Text(data) =>
        TextSegmentHonest(data);
        assert NodeText(n) + "" == data;
      case Comment(_) =>
      case Element(_, _, children) =>
        if Dominant(n, totalLength, depth) {
          FlattenKeepsText(children, totalLength, depth + 1);
        } else {
          NodeRoundTrip(n);
          assert NodeText(n) + "" == NodeText(n);
        }
    }
  }

  lemma {:induction false} FlattenKeepsText(ns: seq<Node>, totalLength: nat, depth: nat)
    requires WellFormed(ns)
    ensures AllHonest(Flatten(ns, totalLength, depth))
    ensures TextsOf(Flatten(ns, totalLength, depth)) == TextContent(ns)
    decreases ns
  {
    if ns != [] {
      FlattenNodeKeepsText(ns[0], totalLength, depth);
      FlattenKeepsText(ns[1..], totalLength, depth);
      TextsOfAppend(FlattenNode(ns[0], totalLength, depth), Flatten(ns[1..], totalLength, depth));
    }
  }

  // ----- How often flattening unwraps -----

  /** Elements unwrapped exactly `level` levels below siblings that sit at `depth`. */
  function UnwrapsAt(ns: seq<Node>, totalLength: nat, depth: nat, level: nat): nat
    decreases ns
  {
    if ns == [] then 0
    else
      (if !Dominant(ns[0], totalLength, depth) then 0
       else if level == 0 then 1
       else UnwrapsAt(ns[0].children, totalLength, depth + 1, level - 1))
      + UnwrapsAt(ns[1..], totalLength, depth, level)
  }

  /** All elements unwrapped while flattening. */
  function Unwraps(ns: seq<Node>, totalLength: nat, depth: nat): nat
    decreases ns
  {
    if ns == [] then 0
    else
      (if Dominant(ns[0], totalLength, depth) then 1 + Unwraps(ns[0].children, totalLength, depth + 1) else 0)
      + Unwraps(ns[1..], totalLength, depth)
  }

  /** Elements unwrapped on one level are disjoint and each hold more than 0.4 of the text. */
  lemma {:induction false} UnwrappedShareTheText(ns: seq<Node>, totalLength: nat, depth: nat, level: nat)
    ensures var u := UnwrapsAt(ns, totalLength, depth, level);
            var held := 5 * StrippedLength(TextContent(ns));
            u * (2 * totalLength) <= held && (u > 0 ==> u * (2 * totalLength) < held)
    decreases ns
  {
    if ns != [] {
      var head := if !Dominant(ns[0], totalLength, depth) then 0 else if level == 0 then 1
                  else UnwrapsAt(ns[0].children, totalLength, depth + 1, level - 1);
      var rest := UnwrapsAt(ns[1..], totalLength, depth, level);
      UnwrappedShareTheText(ns[1..], totalLength, depth, level);
      StripAppend(NodeText(ns[0]), TextContent(ns[1..]));
      if Dominant(ns[0], totalLength, depth) && level > 0 {
        UnwrappedShareTheText(ns[0].children, totalLength, depth + 1, level - 1);
      }
      Distribute(head, rest, 2 * totalLength);
    }
  }

  lemma Distribute(a: nat, b: nat, k: nat)
    ensures (a + b) * k == a * k + b * k
  {
  }

  lemma UnwrapsPerLevel(ns: seq<Node>, totalLength: nat, level: nat)
    requires totalLength == StrippedLength(TextContent(ns))
    ensures UnwrapsAt(ns, totalLength, 0, level) <= 2
  {
    var u := UnwrapsAt(ns, totalLength, 0, level);
    UnwrappedShareTheText(ns, totalLength, 0, level);
    Monotone(3, u, 2 * totalLength);
  }

  lemma Monotone(a: nat, b: nat, k: nat)
    ensures a <= b ==> a * k <= b * k
  {
    if a <= b {
      Distribute(a, b - a, k);
    }
  }

  function UnwrapsBelow(ns: seq<Node>, totalLength: nat, depth: nat, levels: nat): nat {
    if levels == 0 then 0
    else UnwrapsBelow(ns, totalLength, depth, levels - 1) + UnwrapsAt(ns, totalLength, depth, levels - 1)
  }

  lemma {:induction false} UnwrapsBelowSplits(ns: seq<Node>, totalLength: nat, depth: nat, levels: nat)
    requires ns != []
    ensures UnwrapsBelow(ns, totalLength, depth, levels)
         == (if Dominant(ns[0], totalLength, depth) && levels > 0
             then 1 + UnwrapsBelow(ns[0].children, totalLength, depth + 1, levels - 1) else 0)
            + UnwrapsBelow(ns[1..], totalLength, depth, levels)
  {
    if levels > 0 {
      UnwrapsBelowSplits(ns, totalLength, depth, levels - 1);
    }
  }

  lemma {:induction false} NoUnwrapsBelow(totalLength: nat, depth: nat, levels: nat)
    ensures UnwrapsBelow([], totalLength, depth, levels) == 0
  {
    if levels > 0 {
      NoUnwrapsBelow(totalLength, depth, levels - 1);
    }
  }

  /** Below depth six nothing is unwrapped, so the levels above it account for every unwrapping. */
  lemma {:induction false} UnwrapsByLevel(ns: seq<Node>, totalLength: nat, depth: nat)
    requires depth <= MAX_RECURSION_DEPTH
    ensures Unwraps(ns, totalLength, depth)
         == UnwrapsBelow(ns, totalLength, depth, MAX_RECURSION_DEPTH - depth)
    decreases ns
  {
    if ns == [] {
      NoUnwrapsBelow(totalLength, depth, MAX_RECURSION_DEPTH - depth);
    } else {
      UnwrapsBelowSplits(ns, totalLength, depth, MAX_RECURSION_DEPTH - depth);
      UnwrapsByLevel(ns[1..], totalLength, depth);
      if Dominant(ns[0], totalLength, depth) {
        UnwrapsByLevel(ns[0].children, totalLength, depth + 1);
      }
    }
  }

  /** Flattening unwraps at most two elements per level and so at most twelve in any document. */
  lemma AtMostTwelveUnwraps(root: seq<Node>)
    ensures forall level: nat :: UnwrapsAt(root, StrippedLength(TextContent(root)), 0, level) <= 2
    ensures Unwraps(root, StrippedLength(TextContent(root)), 0) <= 12
  {
    var total := StrippedLength(TextContent(root));
    forall level: nat ensures UnwrapsAt(root, total, 0, level) <= 2 {
      UnwrapsPerLevel(root, total, level);
    }
    UnwrapsByLevel(root, total, 0);
    AtMostTwoPerLevel(root, total, MAX_RECURSION_DEPTH);
  }

  lemma {:induction false} AtMostTwoPerLevel(ns: seq<Node>, totalLength: nat, levels: nat)
    requires forall level: nat :: UnwrapsAt(ns, totalLength, 0, level) <= 2
    ensures UnwrapsBelow(ns, totalLength, 0, levels) <= 2 * levels
  {
    if levels > 0 {
      AtMostTwoPerLevel(ns, totalLength, levels - 1);
    }
  }
}
