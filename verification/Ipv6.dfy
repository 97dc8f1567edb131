/** Parsing of IP addresses (`src/validate.ts`) and the rate-limit key made from them
    (`src/ratelimit.ts`), against the text forms of section 2.2 of RFC 4291. */
module Ipv6 {
  import opened Strings

  // ----- Numbers -----

  predicate IsDecimal(c: char) { '0' <= c <= '9' }

  predicate IsHex(c: char) { IsDecimal(c) || 'a' <= c <= 'f' || 'A' <= c <= 'F' }

  function HexDigit(c: char): (d: nat)
    requires IsHex(c)
    ensures d < 16
  {
    if IsDecimal(c) then (c as int) - ('0' as int)
    else if 'a' <= c <= 'f' then (c as int) - ('a' as int) + 10
    else (c as int) - ('A' as int) + 10
  }

  predicate AllHex(s: string) { forall i :: 0 <= i < |s| ==> IsHex(s[i]) }

  predicate AllDecimal(s: string) { forall i :: 0 <= i < |s| ==> IsDecimal(s[i]) }

  /** `Number.parseInt(s, 16)`. */
  function HexValue(s: string): nat
    requires AllHex(s)
  {
    if s == "" then 0 else 16 * HexValue(s[..|s| - 1]) + HexDigit(s[|s| - 1])
  }

  function DecimalValue(s: string): nat
    requires AllDecimal(s)
  {
    if s == "" then 0 else 10 * DecimalValue(s[..|s| - 1]) + HexDigit(s[|s| - 1])
  }

  function HexChar(d: nat): (c: char)
    requires d < 16
    ensures IsHex(c) && HexDigit(c) == d
  {
    if d < 10 then (d + '0' as int) as char else (d - 10 + 'a' as int) as char
  }

  /** `n.toString(16)`. */
  function ToHex(n: nat): (s: string)
    ensures s != "" && AllHex(s) && HexValue(s) == n
  {
    if n < 16 then
      var s := [HexChar(n)];
      assert s[..0] == "";
      s
    else
      var s := ToHex(n / 16) + [HexChar(n % 16)];
      assert s[..|s| - 1] == ToHex(n / 16);
      s
  }

  lemma {:induction false} ToHexLength(n: nat)
    ensures n < 16 ==> |ToHex(n)| == 1
    ensures n < 256 ==> |ToHex(n)| <= 2
    ensures n < 4096 ==> |ToHex(n)| <= 3
    ensures n < 65536 ==> |ToHex(n)| <= 4
    decreases n
  {
    if n >= 16 {
      ToHexLength(n / 16);
    }
  }

  lemma {:induction false} HexBound(s: string)
    requires AllHex(s)
    ensures |s| <= 1 ==> HexValue(s) < 16
    ensures |s| <= 2 ==> HexValue(s) < 256
    ensures |s| <= 3 ==> HexValue(s) < 4096
    ensures |s| <= 4 ==> HexValue(s) < 65536
  {
    if s != "" {
      HexBound(s[..|s| - 1]);
    }
  }

  // ----- The parsers -----

  predicate IsOctet(s: string) {
    1 <= |s| <= 3 && AllDecimal(s) && DecimalValue(s) <= 255
  }

  /** The four octets of a dotted quad. */
  function ParseIpv4(host: string): Option<seq<nat>> {
    var parts := Split(host, '.');
    if |parts| == 4 && IsOctet(parts[0]) && IsOctet(parts[1]) && IsOctet(parts[2]) && IsOctet(parts[3]) then
      Some([DecimalValue(parts[0]), DecimalValue(parts[1]), DecimalValue(parts[2]), DecimalValue(parts[3])])
    else None
  }

  /** `s.split("::")`. */
  function SplitDouble(s: string): (r: seq<string>)
    ensures |r| >= 1
  {
    if s == "" then [""]
    else if "::" <= s then [""] + SplitDouble(s[2..])
    else
      var rest := SplitDouble(s[1..]);
      [[s[0]] + rest[0]] + rest[1..]
  }

  function SplitGroups(part: string): seq<string> {
    if part == "" then [] else Split(part, ':')
  }

  function ExpandV4Tail(groups: seq<string>): Option<seq<string>> {
    if groups == [] || '.' !in groups[|groups| - 1] then Some(groups)
    else
      match ParseIpv4(groups[|groups| - 1])
      case None => None
      case Some(o) => Some(groups[..|groups| - 1] + [ToHex(o[0] * 256 + o[1]), ToHex(o[2] * 256 + o[3])])
  }

  predicate IsGroup(s: string) {
    1 <= |s| <= 4 && AllHex(s)
  }

  function Words(groups: seq<string>): Option<seq<nat>> {
    if groups == [] then Some([])
    else if !IsGroup(groups[0]) || Words(groups[1..]) == None then None
    else Some([HexValue(groups[0])] + Words(groups[1..]).value)
  }

  function Fill(n: nat): seq<string> {
    if n == 0 then [] else ["0"] + Fill(n - 1)
  }

  /** The groups of an address, `::` filled up with zero groups. */
  function GroupsOf(addr: string): Option<seq<string>> {
    var halves := SplitDouble(addr);
    if |halves| > 2 then None
    else
      var head := SplitGroups(halves[0]);
      if |halves| == 1 then ExpandV4Tail(head)
      else
        match ExpandV4Tail(SplitGroups(halves[1]))
        case None => None
        case Some(tail) =>
          var fill := 8 - |head| - |tail|;
          if fill < 1 then None else Some(head + Fill(fill) + tail)
  }

  function ParseIpv6(literal: string): Option<seq<nat>> {
    match GroupsOf(Split(literal, '%')[0])
    case None => None
    case Some(groups) => if |groups| != 8 then None else Words(groups)
  }

  /** The name of the counter for a client address. */
  function RateLimitKey(clientIp: string): Option<string> {
    var ip := Trim(clientIp);
    if |ip| == 0 then None
    else if ':' in ip then
      match ParseIpv6(ip)
      case None => None
      case Some(words) => if |words| < 4 then None else Some("v6:" + Join(Hexes(words[..4]), ":"))
    else Some("v4:" + ip)
  }

  function Hexes(words: seq<nat>): (r: seq<string>)
    ensures |r| == |words| && forall i :: 0 <= i < |words| ==> r[i] == ToHex(words[i])
  {
    if words == [] then [] else [ToHex(words[0])] + Hexes(words[1..])
  }

  // ----- The text forms of section 2.2 of RFC 4291 -----

  /** One to four hexadecimal digits for each word. */
  predicate SpellsHex(groups: seq<string>, words: seq<nat>) {
    |groups| == |words| && forall i :: 0 <= i < |words| ==> IsGroup(groups[i]) && HexValue(groups[i]) == words[i]
  }

  /** Four decimal numbers of one to three digits, none above 255, two of them to a word. */
  predicate QuadOf(text: string, octets: seq<string>, words: seq<nat>) {
    && |octets| == 4 && (forall i :: 0 <= i < 4 ==> IsOctet(octets[i])) && text == Join(octets, ".")
    && |words| == 2
    && words[0] == DecimalValue(octets[0]) * 256 + DecimalValue(octets[1])
    && words[1] == DecimalValue(octets[2]) * 256 + DecimalValue(octets[3])
  }

  /** A dotted quad for two words. */
  ghost predicate SpellsQuad(text: string, words: seq<nat>) {
    exists octets :: QuadOf(text, octets, words)
  }

  /** Hexadecimal groups, the last two words possibly as a dotted quad. */
  ghost predicate Spells(groups: seq<string>, words: seq<nat>) {
    || SpellsHex(groups, words)
    || (groups != [] && |words| == |groups| + 1
        && SpellsHex(groups[..|groups| - 1], words[..|words| - 2])
        && SpellsQuad(groups[|groups| - 1], words[|words| - 2..]))
  }

  function Zeros(n: nat): (r: seq<nat>)
    ensures |r| == n
  {
    if n == 0 then [] else [0] + Zeros(n - 1)
  }

  /** All eight words written out. */
  ghost predicate FullForm(addr: string, words: seq<nat>) {
    exists groups :: |words| == 8 && Spells(groups, words) && addr == Join(groups, ":")
  }

  /** `::` in place of one run of zero words. */
  ghost predicate Compresses(
    addr: string, words: seq<nat>, head: seq<string>, tail: seq<string>, hw: seq<nat>, tw: seq<nat>)
  {
    && SpellsHex(head, hw) && Spells(tail, tw) && |hw| + |tw| <= 7
    && addr == Join(head, ":") + "::" + Join(tail, ":")
    && words == hw + Zeros(8 - |hw| - |tw|) + tw
  }

  ghost predicate CompressedForm(addr: string, words: seq<nat>) {
    exists head, tail, hw, tw :: Compresses(addr, words, head, tail, hw, tw)
  }

  // ----- Parsing exactly these forms -----

  lemma {:induction false} WordsSpelled(groups: seq<string>, words: seq<nat>)
    ensures Words(groups) == Some(words) <==> SpellsHex(groups, words)
  {
    if groups != [] && words != [] {
      WordsSpelled(groups[1..], words[1..]);
      if SpellsHex(groups, words) {
        forall i | 0 <= i < |words[1..]| ensures IsGroup(groups[1..][i]) && HexValue(groups[1..][i]) == words[1..][i] {
          assert groups[1..][i] == groups[i + 1] && words[1..][i] == words[i + 1];
        }
        assert words == [words[0]] + words[1..];
      }
      if Words(groups) == Some(words) {
        assert words[1..] == Words(groups[1..]).value;
        forall i | 0 <= i < |words| ensures IsGroup(groups[i]) && HexValue(groups[i]) == words[i] {
          assert i > 0 ==> groups[i] == groups[1..][i - 1] && words[i] == words[1..][i - 1];
        }
      }
    }
  }

  lemma SpelledBound(groups: seq<string>, words: seq<nat>)
    requires SpellsHex(groups, words)
    ensures forall i :: 0 <= i < |words| ==> words[i] < 65536
  {
    forall i | 0 <= i < |words| ensures words[i] < 65536 {
      HexBound(groups[i]);
    }
  }

  lemma GroupHasNoSeparator(s: string)
    requires IsGroup(s)
    ensures ':' !in s && '.' !in s && s != ""
  {
  }

  /** The IPv4 parser reads exactly the dotted quads. */
  lemma ParsesExactlyQuads(text: string, words: seq<nat>)
    ensures SpellsQuad(text, words) <==>
      && ParseIpv4(text).Some? && |words| == 2
      && var o := ParseIpv4(text).value;
         |o| == 4 && words[0] == o[0] * 256 + o[1] && words[1] == o[2] * 256 + o[3]
  {
    if SpellsQuad(text, words) {
      var octets :| QuadOf(text, octets, words);
      SplitJoin(octets, '.');
    }
    if ParseIpv4(text).Some? && |words| == 2 {
      var o := ParseIpv4(text).value;
      JoinSplit(text, '.');
      if words[0] == o[0] * 256 + o[1] && words[1] == o[2] * 256 + o[3] {
        assert QuadOf(text, Split(text, '.'), words);
      }
    }
  }

  lemma QuadHasNoColon(s: string)
    requires ParseIpv4(s).Some?
    ensures ':' !in s && '.' in s && s != ""
  {
    var parts := Split(s, '.');
    JoinSplit(s, '.');
    assert parts[1..][1..][1..][1..] == [];
    NoColonInJoin(parts, '.');
    assert s == parts[0] + "." + Join(parts[1..], ".");
    assert s[|parts[0]|] == '.';
  }

  lemma {:induction false} NoColonInJoin(parts: seq<string>, sep: char)
    requires sep != ':' && forall i :: 0 <= i < |parts| ==> ':' !in parts[i]
    ensures ':' !in Join(parts, [sep])
  {
    if |parts| > 1 {
      NoColonInJoin(parts[1..], sep);
    }
  }

  /** Expanding the dotted tail and reading the groups reads any spelling. */
  lemma ExpandSpelled(groups: seq<string>, words: seq<nat>)
    ensures Spells(groups, words) <==> ExpandV4Tail(groups).Some? && SpellsHex(ExpandV4Tail(groups).value, words)
  {
    if groups != [] {
      var last := groups[|groups| - 1];
      if |words| >= 2 {
        ParsesExactlyQuads(last, words[|words| - 2..]);
      }
      if '.' !in last {
        if ParseIpv4(last).Some? {
          QuadHasNoColon(last);
        }
      } else {
        assert !IsGroup(last);
        assert !SpellsHex(groups, words);
        if ParseIpv4(last).Some? {
          var o := ParseIpv4(last).value;
          ExpandQuad(groups[..|groups| - 1], o, words);
        }
      }
    }
  }

  lemma ExpandQuad(front: seq<string>, o: seq<nat>, words: seq<nat>)
    requires |o| == 4 && forall i :: 0 <= i < 4 ==> o[i] <= 255
    ensures SpellsHex(front + [ToHex(o[0] * 256 + o[1]), ToHex(o[2] * 256 + o[3])], words)
       <==> |words| == |front| + 2 && SpellsHex(front, words[..|words| - 2])
            && words[|words| - 2] == o[0] * 256 + o[1] && words[|words| - 1] == o[2] * 256 + o[3]
  {
    var hi, lo := ToHex(o[0] * 256 + o[1]), ToHex(o[2] * 256 + o[3]);
    ToHexLength(o[0] * 256 + o[1]);
    ToHexLength(o[2] * 256 + o[3]);
    var all := front + [hi, lo];
    assert all[|front|] == hi && all[|front| + 1] == lo && all[..|front|] == front;
    if |words| == |front| + 2 {
      assert forall i :: 0 <= i < |front| ==> all[i] == front[i] && words[..|words| - 2][i] == words[i];
    }
  }

  lemma {:induction false} NoDouble(groups: seq<string>)
    requires forall i :: 0 <= i < |groups| ==> groups[i] != "" && ':' !in groups[i]
    ensures SplitDouble(Join(groups, ":")) == [Join(groups, ":")]
    ensures SplitGroups(Join(groups, ":")) == groups
  {
    if groups != [] {
      SplitJoin(groups, ':');
      NoDoubleBefore(groups, "");
      assert Join(groups, ":") + "" == Join(groups, ":");
      JoinNotEmpty(groups);
    }
  }

  lemma JoinNotEmpty(groups: seq<string>)
    requires groups != [] && groups[0] != ""
    ensures Join(groups, ":") != ""
  {
  }

  lemma {:induction false} SkipGroup(s: string, rest: string)
    requires ':' !in s
    ensures SplitDouble(s + rest) == [s + SplitDouble(rest)[0]] + SplitDouble(rest)[1..]
  {
    var r := SplitDouble(rest);
    if s == "" {
      assert s + rest == rest && s + r[0] == r[0] && [r[0]] + r[1..] == r;
    } else {
      var t := s + rest;
      assert t[0] == s[0] && s[0] in s && t[1..] == s[1..] + rest;
      SkipGroup(s[1..], rest);
      assert [s[0]] + (s[1..] + r[0]) == s + r[0];
    }
  }

  lemma SkipColon(rest: string)
    requires rest != "" && rest[0] != ':'
    ensures SplitDouble(":" + rest) == [":" + SplitDouble(rest)[0]] + SplitDouble(rest)[1..]
  {
    var t := ":" + rest;
    assert t != "" && t[0] == ':' && t[1] == rest[0] && t[1..] == rest;
    assert [t[0]] == ":";
    var r := SplitDouble(rest);
    assert SplitDouble(t) == [[t[0]] + r[0]] + r[1..];
  }

  /** Groups without an empty one hold no `::`, whatever double colon may follow them. */
  lemma {:induction false} NoDoubleBefore(groups: seq<string>, after: string)
    requires groups != [] && (after == "" || "::" <= after)
    requires forall i :: 0 <= i < |groups| ==> groups[i] != "" && ':' !in groups[i]
    ensures SplitDouble(Join(groups, ":") + after)
         == [Join(groups, ":")] + if after == "" then [] else SplitDouble(after[2..])
  {
    if |groups| == 1 {
      SkipGroup(groups[0], after);
      StartsDouble(after);
      assert groups[0] + "" == groups[0];
    } else {
      var rest := Join(groups[1..], ":");
      NoDoubleBefore(groups[1..], after);
      JoinStart(groups[1..]);
      SkipColonGroup(groups[0], rest, after);
    }
  }

  lemma StartsDouble(after: string)
    requires after == "" || "::" <= after
    ensures SplitDouble(after) == [""] + if after == "" then [] else SplitDouble(after[2..])
  {
    var none: seq<string> := [];
    assert [""] + none == [""];
  }

  lemma JoinStart(groups: seq<string>)
    requires groups != [] && groups[0] != ""
    ensures Join(groups, ":") != "" && Join(groups, ":")[0] == groups[0][0]
  {
  }

  /** One group and a colon in front of a text that does not start with a colon. */
  lemma SkipColonGroup(group: string, rest: string, after: string)
    requires ':' !in group && rest != "" && rest[0] != ':'
    requires SplitDouble(rest + after)[0] == rest
    ensures SplitDouble(group + ":" + rest + after) == [group + ":" + rest] + SplitDouble(rest + after)[1..]
  {
    Assoc(group, ":", rest);
    Assoc(":", rest, after);
    Assoc(group, ":" + rest, after);
    assert (rest + after)[0] == rest[0];
    SkipColon(rest + after);
    SkipGroup(group, ":" + (rest + after));
  }

  lemma {:induction false} JoinDouble(s: string)
    ensures |SplitDouble(s)| == 1 ==> SplitDouble(s)[0] == s
    ensures |SplitDouble(s)| == 2 ==> s == SplitDouble(s)[0] + "::" + SplitDouble(s)[1]
  {
    if s != "" {
      if "::" <= s {
        JoinDouble(s[2..]);
        assert s == "" + "::" + s[2..];
      } else {
        var r := SplitDouble(s[1..]);
        JoinDouble(s[1..]);
        assert s == [s[0]] + s[1..];
        PutInFront([s[0]], r[0], "::", if |r| == 2 then r[1] else "");
      }
    }
  }

  lemma PutInFront(c: string, x: string, sep: string, y: string)
    ensures c + (x + sep + y) == (c + x) + sep + y
  {
  }

  lemma SpelledGroups(groups: seq<string>, words: seq<nat>)
    requires Spells(groups, words)
    ensures forall i :: 0 <= i < |groups| ==> groups[i] != "" && ':' !in groups[i]
  {
    forall i | 0 <= i < |groups| ensures groups[i] != "" && ':' !in groups[i] {
      if SpellsHex(groups, words) {
        GroupHasNoSeparator(groups[i]);
      } else if i < |groups| - 1 {
        assert groups[..|groups| - 1][i] == groups[i];
        GroupHasNoSeparator(groups[i]);
      } else {
        ParsesExactlyQuads(groups[i], words[|words| - 2..]);
        QuadHasNoColon(groups[i]);
      }
    }
  }

  lemma {:induction false} FillSpellsZeros(n: nat)
    ensures |Fill(n)| == n && SpellsHex(Fill(n), Zeros(n))
  {
    if n > 0 {
      FillSpellsZeros(n - 1);
      assert "0"[..0] == "";
      assert HexValue("0") == 0;
    }
  }

  lemma SpellsHexAppend(a: seq<string>, b: seq<string>, aw: seq<nat>, bw: seq<nat>)
    requires SpellsHex(a, aw)
    ensures SpellsHex(b, bw) <==> SpellsHex(a + b, aw + bw)
  {
    if SpellsHex(a + b, aw + bw) {
      forall i | 0 <= i < |bw| ensures IsGroup(b[i]) && HexValue(b[i]) == bw[i] {
        assert (a + b)[|a| + i] == b[i] && (aw + bw)[|a| + i] == bw[i];
      }
    }
  }

  lemma ParsesFullForm(literal: string, words: seq<nat>, groups: seq<string>)
    requires Split(literal, '%')[0] == Join(groups, ":") && |words| == 8 && Spells(groups, words)
    ensures ParseIpv6(literal) == Some(words)
  {
    SpelledGroups(groups, words);
    NoDouble(groups);
    ExpandSpelled(groups, words);
    WordsSpelled(ExpandV4Tail(groups).value, words);
  }

  lemma HalvesOfCompressed(head: seq<string>, tail: seq<string>)
    requires forall i :: 0 <= i < |head| ==> head[i] != "" && ':' !in head[i]
    requires forall i :: 0 <= i < |tail| ==> tail[i] != "" && ':' !in tail[i]
    ensures SplitDouble(Join(head, ":") + "::" + Join(tail, ":")) == [Join(head, ":"), Join(tail, ":")]
  {
    NoDouble(tail);
    var after := "::" + Join(tail, ":");
    Assoc(Join(head, ":"), "::", Join(tail, ":"));
    assert after[2..] == Join(tail, ":");
    if head == [] {
      assert Join(head, ":") + after == after;
    } else {
      NoDoubleBefore(head, after);
    }
  }

  /** The head, the zeros put in, and the tail are read as the words of the three parts. */
  lemma WordsOfParts(head: seq<string>, t: seq<string>, hw: seq<nat>, tw: seq<nat>, fill: nat)
    requires SpellsHex(head, hw) && SpellsHex(t, tw)
    ensures Words(head + Fill(fill) + t) == Some(hw + Zeros(fill) + tw)
    ensures |head + Fill(fill) + t| == |hw| + fill + |tw|
  {
    FillSpellsZeros(fill);
    SpellsHexAppend(head, Fill(fill), hw, Zeros(fill));
    SpellsHexAppend(head + Fill(fill), t, hw + Zeros(fill), tw);
    WordsSpelled(head + Fill(fill) + t, hw + Zeros(fill) + tw);
  }

  lemma GroupsOfTwoHalves(addr: string, head: seq<string>, tail: seq<string>, t: seq<string>, fill: nat)
    requires |SplitDouble(addr)| == 2
    requires SplitGroups(SplitDouble(addr)[0]) == head && SplitGroups(SplitDouble(addr)[1]) == tail
    requires ExpandV4Tail(tail) == Some(t) && fill == 8 - |head| - |t| && fill >= 1
    ensures GroupsOf(addr) == Some(head + Fill(fill) + t)
  {
  }

  lemma GroupsOfCompressed(addr: string, head: seq<string>, tail: seq<string>, hw: seq<nat>, tw: seq<nat>)
    returns (t: seq<string>)
    requires SpellsHex(head, hw) && Spells(tail, tw) && |hw| + |tw| <= 7
    requires addr == Join(head, ":") + "::" + Join(tail, ":")
    ensures SpellsHex(t, tw) && GroupsOf(addr) == Some(head + Fill(8 - |hw| - |tw|) + t)
  {
    t := SpelledTail(tail, tw);
    SpelledSplit(addr, head, tail, hw, tw);
    GroupsOfTwoHalves(addr, head, tail, t, 8 - |hw| - |tw|);
  }

  lemma SpelledTail(tail: seq<string>, tw: seq<nat>) returns (t: seq<string>)
    requires Spells(tail, tw)
    ensures ExpandV4Tail(tail) == Some(t) && SpellsHex(t, tw) && |t| == |tw|
  {
    ExpandSpelled(tail, tw);
    t := ExpandV4Tail(tail).value;
  }

  lemma SpelledSplit(addr: string, head: seq<string>, tail: seq<string>, hw: seq<nat>, tw: seq<nat>)
    requires Spells(head, hw) && Spells(tail, tw) && addr == Join(head, ":") + "::" + Join(tail, ":")
    ensures |SplitDouble(addr)| == 2
    ensures SplitGroups(SplitDouble(addr)[0]) == head && SplitGroups(SplitDouble(addr)[1]) == tail
  {
    var left := SpelledHalf(head, hw);
    var right := SpelledHalf(tail, tw);
    HalvesOfCompressed(head, tail);
  }

  lemma SpelledHalf(groups: seq<string>, words: seq<nat>) returns (text: string)
    requires Spells(groups, words)
    ensures text == Join(groups, ":") && SplitGroups(text) == groups
    ensures forall i :: 0 <= i < |groups| ==> groups[i] != "" && ':' !in groups[i]
  {
    text := Join(groups, ":");
    SpelledGroups(groups, words);
    NoDouble(groups);
  }

  lemma ParsesCompressedForm(
    literal: string, words: seq<nat>, head: seq<string>, tail: seq<string>, hw: seq<nat>, tw: seq<nat>)
    requires Compresses(Split(literal, '%')[0], words, head, tail, hw, tw)
    ensures ParseIpv6(literal) == Some(words)
  {
    var t := GroupsOfCompressed(Split(literal, '%')[0], head, tail, hw, tw);
    WordsOfEight(head, t, hw, tw, words);
    ReadsGroups(literal, head + Fill(8 - |hw| - |tw|) + t);
  }

  lemma WordsOfEight(head: seq<string>, t: seq<string>, hw: seq<nat>, tw: seq<nat>, words: seq<nat>)
    requires SpellsHex(head, hw) && SpellsHex(t, tw) && |hw| + |tw| <= 7
    requires words == hw + Zeros(8 - |hw| - |tw|) + tw
    ensures Words(head + Fill(8 - |hw| - |tw|) + t) == Some(words) && |head + Fill(8 - |hw| - |tw|) + t| == 8
  {
    WordsOfParts(head, t, hw, tw, 8 - |hw| - |tw|);
  }

  lemma ReadsGroups(literal: string, groups: seq<string>)
    requires GroupsOf(Split(literal, '%')[0]) == Some(groups) && |groups| == 8
    ensures ParseIpv6(literal) == Words(groups)
  {
  }

  lemma FullFormOfParsed(literal: string, words: seq<nat>)
    requires ParseIpv6(literal) == Some(words) && |SplitDouble(Split(literal, '%')[0])| == 1
    ensures FullForm(Split(literal, '%')[0], words)
  {
    var addr := Split(literal, '%')[0];
    JoinDouble(addr);
    var groups := SplitGroups(addr);
    WordsSpelled(ExpandV4Tail(groups).value, words);
    ExpandSpelled(groups, words);
    JoinSplit(addr, ':');
    assert addr == Join(groups, ":");
  }

  lemma SplitGroupsJoin(part: string)
    ensures part == Join(SplitGroups(part), ":")
  {
    JoinSplit(part, ':');
  }

  /** What the words read from a head, zeros and a tail are made of. */
  lemma PartsOfWords(head: seq<string>, t: seq<string>, fill: nat, words: seq<nat>)
    requires Words(head + Fill(fill) + t) == Some(words)
    ensures |words| == |head| + fill + |t|
    ensures SpellsHex(head, words[..|head|]) && SpellsHex(t, words[|head| + fill..])
    ensures words == words[..|head|] + Zeros(fill) + words[|head| + fill..]
  {
    FillSpellsZeros(fill);
    WordsSpelled(head + Fill(fill) + t, words);
    SpelledAround(head, Fill(fill), t, words, Zeros(fill));
  }

  lemma SpelledAround(head: seq<string>, z: seq<string>, t: seq<string>, words: seq<nat>, zeros: seq<nat>)
    requires SpellsHex(head + z + t, words) && SpellsHex(z, zeros)
    ensures |words| == |head| + |z| + |t|
    ensures SpellsHex(head, words[..|head|]) && SpellsHex(t, words[|head| + |z|..])
    ensures words == words[..|head|] + zeros + words[|head| + |z|..]
  {
    SpelledParts(head, z, t, words);
    assert words[|head|..|head| + |z|] == zeros;
    Cut(words, |head|, |head| + |z|);
  }

  lemma Cut(words: seq<nat>, i: nat, j: nat)
    requires i <= j <= |words|
    ensures words == words[..i] + words[i..j] + words[j..]
  {
  }

  lemma HalvesOfGroups(addr: string) returns (head: seq<string>, tail: seq<string>, t: seq<string>, fill: nat)
    requires |SplitDouble(addr)| == 2 && GroupsOf(addr).Some?
    ensures addr == Join(head, ":") + "::" + Join(tail, ":")
    ensures ExpandV4Tail(tail) == Some(t) && fill >= 1 && |head| + fill + |t| == 8
    ensures GroupsOf(addr).value == head + Fill(fill) + t
  {
    var halves := SplitDouble(addr);
    JoinDouble(addr);
    SplitGroupsJoin(halves[0]);
    SplitGroupsJoin(halves[1]);
    head, tail := SplitGroups(halves[0]), SplitGroups(halves[1]);
    t := ExpandV4Tail(tail).value;
    fill := 8 - |head| - |t|;
  }

  lemma CompressedFormOfGroups(addr: string, words: seq<nat>)
    requires |SplitDouble(addr)| == 2 && GroupsOf(addr).Some? && Words(GroupsOf(addr).value) == Some(words)
    ensures CompressedForm(addr, words)
  {
    var head, tail, t, fill := HalvesOfGroups(addr);
    PartsOfWords(head, t, fill, words);
    var hw, tw := words[..|head|], words[|head| + fill..];
    ExpandSpelled(tail, tw);
    assert |hw| + |tw| == 8 - fill;
    assert Compresses(addr, words, head, tail, hw, tw);
  }

  lemma CompressedFormOfParsed(literal: string, words: seq<nat>)
    requires ParseIpv6(literal) == Some(words) && |SplitDouble(Split(literal, '%')[0])| == 2
    ensures CompressedForm(Split(literal, '%')[0], words)
  {
    CompressedFormOfGroups(Split(literal, '%')[0], words);
  }

  lemma SpelledParts(a: seq<string>, b: seq<string>, c: seq<string>, words: seq<nat>)
    requires SpellsHex(a + b + c, words)
    ensures |words| == |a| + |b| + |c|
    ensures SpellsHex(a, words[..|a|]) && SpellsHex(b, words[|a|..|a| + |b|]) && SpellsHex(c, words[|a| + |b|..])
  {
    var all := a + b + c;
    assert forall i :: 0 <= i < |a| ==> all[i] == a[i];
    assert forall i :: 0 <= i < |b| ==> all[|a| + i] == b[i];
    assert forall i :: 0 <= i < |c| ==> all[|a| + |b| + i] == c[i];
  }

  /** The parser reads exactly the texts of section 2.2 of RFC 4291, each as the words it spells,
      a zone index after `%` set aside; and every word fits sixteen bits. */
  lemma ParsesExactlyTheTextForms(literal: string, words: seq<nat>)
    ensures ParseIpv6(literal) == Some(words)
       <==> FullForm(Split(literal, '%')[0], words) || CompressedForm(Split(literal, '%')[0], words)
    ensures ParseIpv6(literal) == Some(words) ==> |words| == 8 && forall i :: 0 <= i < 8 ==> words[i] < 65536
  {
    var addr := Split(literal, '%')[0];
    if FullForm(addr, words) {
      var groups :| |words| == 8 && Spells(groups, words) && addr == Join(groups, ":");
      ParsesFullForm(literal, words, groups);
    }
    if CompressedForm(addr, words) {
      var head, tail, hw, tw :| Compresses(addr, words, head, tail, hw, tw);
      ParsesCompressedForm(literal, words, head, tail, hw, tw);
    }
    if ParseIpv6(literal) == Some(words) {
      if |SplitDouble(addr)| == 1 {
        FullFormOfParsed(literal, words);
      } else {
        CompressedFormOfParsed(literal, words);
      }
      ParsedBound(literal, words);
    }
  }

  lemma ParsedBound(literal: string, words: seq<nat>)
    requires ParseIpv6(literal) == Some(words)
    ensures |words| == 8 && forall i :: 0 <= i < 8 ==> words[i] < 65536
  {
    var halves := SplitDouble(Split(literal, '%')[0]);
    var head := SplitGroups(halves[0]);
    var groups := if |halves| == 1 then ExpandV4Tail(head).value
                  else var tail := ExpandV4Tail(SplitGroups(halves[1])).value;
                       head + Fill(8 - |head| - |tail|) + tail;
    WordsSpelled(groups, words);
    SpelledBound(groups, words);
  }

  // ----- The key -----

  lemma HexesInjective(a: seq<nat>, b: seq<nat>)
    requires |a| >= 1 && |b| >= 1 && Join(Hexes(a), ":") == Join(Hexes(b), ":")
    ensures a == b
  {
    NoColonInHexes(a);
    NoColonInHexes(b);
    SplitJoin(Hexes(a), ':');
    SplitJoin(Hexes(b), ':');
    forall i | 0 <= i < |a| ensures a[i] == b[i] {
      assert Hexes(a)[i] == ToHex(a[i]) && Hexes(b)[i] == ToHex(b[i]);
    }
  }

  lemma NoColonInHexes(a: seq<nat>)
    ensures forall i :: 0 <= i < |a| ==> ':' !in Hexes(a)[i]
  {
  }

  /** Two IPv6 texts share a counter exactly when their first four words, the /64 prefix, agree. */
  lemma KeyIsPrefix(a: string, b: string, aw: seq<nat>, bw: seq<nat>)
    requires ':' in Trim(a) && ':' in Trim(b)
    requires ParseIpv6(Trim(a)) == Some(aw) && ParseIpv6(Trim(b)) == Some(bw)
    ensures |aw| == |bw| == 8 && RateLimitKey(a).Some? && RateLimitKey(b).Some?
    ensures RateLimitKey(a) == RateLimitKey(b) <==> aw[..4] == bw[..4]
  {
    ParsedBound(Trim(a), aw);
    ParsedBound(Trim(b), bw);
    var ka, kb := Join(Hexes(aw[..4]), ":"), Join(Hexes(bw[..4]), ":");
    if "v6:" + ka == "v6:" + kb {
      assert ("v6:" + ka)[3..] == ka && ("v6:" + kb)[3..] == kb;
      HexesInjective(aw[..4], bw[..4]);
    }
  }

  /** An IPv4 client never shares a counter with an IPv6 one, nor with another IPv4 text. */
  lemma KeysOfOtherKinds(a: string, b: string)
    requires ':' !in Trim(a) && RateLimitKey(a).Some? && RateLimitKey(b) == RateLimitKey(a)
    ensures ':' !in Trim(b) && Trim(a) == Trim(b)
  {
    var k := RateLimitKey(a).value;
    assert k[1] == '4' && k[3..] == Trim(a);
    if ':' !in Trim(b) {
      assert k[3..] == Trim(b);
    }
  }
}
