/** The small part of a DOM that the document splitter depends on: a tree, its
    `textContent`, its `outerHTML`, and the text a reader of that markup gets back. */
module Html {
  import opened Strings

  datatype Node =
    | Text(data: string)
    | Comment(data: string)
    | Element(tag: string, attrs: seq<(string, string)>, children: seq<Node>)

  /** `textContent` of one node; a comment prints nothing. */
  function NodeText(n: Node): string
    decreases n
  {
    match n
    case Text(data) => data
    case Comment(_) => ""
    case Element(_, _, children) => TextContent(children)
  }

  /** `textContent` of a list of siblings. */
  function TextContent(ns: seq<Node>): string
    decreases ns
  {
    if ns == [] then "" else NodeText(ns[0]) + TextContent(ns[1..])
  }

  /** `getAttribute(name) ?? ""`. */
  function Attribute(attrs: seq<(string, string)>, name: string): string {
    if attrs == [] then "" else if attrs[0].0 == name then attrs[0].1 else Attribute(attrs[1..], name)
  }

  // ----- Escaping: three global replaces one after the other -----

  function EscapeText(text: string): string {
    ReplaceAll(ReplaceAll(ReplaceAll(text, "&", "&amp;"), "<", "&lt;"), ">", "&gt;")
  }

  function UnescapeText(html: string): string {
    ReplaceAll(ReplaceAll(ReplaceAll(html, "&lt;", "<"), "&gt;", ">"), "&amp;", "&")
  }

  /** The meaning of `EscapeText`, one character at a time. */
  function EscapeChar(c: char): string {
    if c == '&' then "&amp;" else if c == '<' then "&lt;" else if c == '>' then "&gt;" else [c]
  }

  function EscapeEach(text: string): string {
    if text == "" then "" else EscapeChar(text[0]) + EscapeEach(text[1..])
  }

  lemma {:induction false} ReplaceOneAppend(a: string, b: string, c: char, rep: string)
    ensures ReplaceAll(a + b, [c], rep) == ReplaceAll(a, [c], rep) + ReplaceAll(b, [c], rep)
  {
    if a == "" {
      assert a + b == b;
    } else {
      var head := if a[0] == c then rep else [a[0]];
      ReplaceOneStep(a, c, rep);
      ReplaceOneStep(a + b, c, rep);
      assert (a + b)[1..] == a[1..] + b;
      ReplaceOneAppend(a[1..], b, c, rep);
      assert head + (ReplaceAll(a[1..], [c], rep) + ReplaceAll(b, [c], rep))
          == (head + ReplaceAll(a[1..], [c], rep)) + ReplaceAll(b, [c], rep);
    }
  }

  lemma ReplaceOneStep(s: string, c: char, rep: string)
    requires s != ""
    ensures ReplaceAll(s, [c], rep) == (if s[0] == c then rep else [s[0]]) + ReplaceAll(s[1..], [c], rep)
  {
    if s[0] == c {
      assert [c] <= s && s[|[c]|..] == s[1..];
    }
  }

  lemma ReplaceOneChar(a: char, c: char, rep: string)
    ensures ReplaceAll([a], [c], rep) == if a == c then rep else [a]
  {
    ReplaceOneStep([a], c, rep);
  }

  lemma {:induction false} EscapeIsPerCharacter(text: string)
    ensures EscapeText(text) == EscapeEach(text)
  {
    if text != "" {
      var c, rest := text[0], text[1..];
      EscapeIsPerCharacter(rest);
      assert text == [c] + rest;
      var s1, r1 := ReplaceAll([c], "&", "&amp;"), ReplaceAll(rest, "&", "&amp;");
      ReplaceOneAppend([c], rest, '&', "&amp;");
      ReplaceOneAppend(s1, r1, '<', "&lt;");
      ReplaceOneAppend(ReplaceAll(s1, "<", "&lt;"), ReplaceAll(r1, "<", "&lt;"), '>', "&gt;");
      EscapeOneChar(c);
    }
  }

  lemma EscapeOneChar(c: char)
    ensures EscapeText([c]) == EscapeChar(c)
  {
    ReplaceOneChar(c, '&', "&amp;");
    if c == '&' {
      assert ReplaceAll("&amp;", "<", "&lt;") == "&amp;" by { UnchangedByReplace("&amp;", '<', "&lt;"); }
      UnchangedByReplace("&amp;", '>', "&gt;");
    } else {
      ReplaceOneChar(c, '<', "&lt;");
      if c == '<' {
        UnchangedByReplace("&lt;", '>', "&gt;");
      } else {
        ReplaceOneChar(c, '>', "&gt;");
      }
    }
  }

  lemma {:induction false} UnchangedByReplace(s: string, c: char, rep: string)
    requires c !in s
    ensures ReplaceAll(s, [c], rep) == s
  {
    if s != "" {
      UnchangedByReplace(s[1..], c, rep);
      assert s == [s[0]] + s[1..];
    }
  }

  // The text while some of the three references have been decoded already.
  function PartlyEscaped(text: string, lt: bool, gt: bool): string {
    if text == "" then "" else PartlyEscapedChar(text[0], lt, gt) + PartlyEscaped(text[1..], lt, gt)
  }

  function PartlyEscapedChar(c: char, lt: bool, gt: bool): string {
    if (c == '<' && !lt) || (c == '>' && !gt) then [c] else EscapeChar(c)
  }

  lemma {:induction false} SkipPrefix(a: string, b: string, pat: string, rep: string)
    requires pat != "" && pat[0] !in a
    ensures ReplaceAll(a + b, pat, rep) == a + ReplaceAll(b, pat, rep)
  {
    if a == "" {
      assert a + b == b;
    } else {
      assert (a + b)[0] == a[0] && (a + b)[1..] == a[1..] + b;
      SkipPrefix(a[1..], b, pat, rep);
      assert a == [a[0]] + a[1..];
    }
  }

  lemma SkipReference(ref: string, b: string, pat: string, rep: string)
    requires |pat| >= 2 && pat[0] == '&' && |ref| >= 2 && ref[0] == '&' && '&' !in ref[1..] && ref[1] != pat[1]
    ensures ReplaceAll(ref + b, pat, rep) == ref + ReplaceAll(b, pat, rep)
  {
    var s := ref + b;
    assert s[1] == ref[1] && s[1..] == ref[1..] + b;
    SkipPrefix(ref[1..], b, pat, rep);
    assert ref == [ref[0]] + ref[1..];
    Assoc([ref[0]], ref[1..], ReplaceAll(b, pat, rep));
  }

  lemma DecodeReference(pat: string, b: string, rep: string)
    requires pat != ""
    ensures ReplaceAll(pat + b, pat, rep) == rep + ReplaceAll(b, pat, rep)
  {
    assert (pat + b)[|pat|..] == b;
  }

  lemma DecodeLtChar(c: char, rest: string)
    ensures ReplaceAll(PartlyEscapedChar(c, true, true) + rest, "&lt;", "<")
         == PartlyEscapedChar(c, false, true) + ReplaceAll(rest, "&lt;", "<")
  {
    match c {
      case '&' => SkipReference("&amp;", rest, "&lt;", "<");
      case '<' => DecodeReference("&lt;", rest, "<");
      case '>' => SkipReference("&gt;", rest, "&lt;", "<");
      case _ => SkipPrefix([c], rest, "&lt;", "<");
    }
  }

  lemma {:induction false} DecodeLt(text: string)
    ensures ReplaceAll(PartlyEscaped(text, true, true), "&lt;", "<") == PartlyEscaped(text, false, true)
  {
    if text != "" {
      DecodeLt(text[1..]);
      DecodeLtChar(text[0], PartlyEscaped(text[1..], true, true));
    }
  }

  lemma DecodeGtChar(c: char, rest: string)
    ensures ReplaceAll(PartlyEscapedChar(c, false, true) + rest, "&gt;", ">")
         == PartlyEscapedChar(c, false, false) + ReplaceAll(rest, "&gt;", ">")
  {
    match c {
      case '&' => SkipReference("&amp;", rest, "&gt;", ">");
      case '>' => DecodeReference("&gt;", rest, ">");
      case _ => SkipPrefix([c], rest, "&gt;", ">");
    }
  }

  lemma {:induction false} DecodeGt(text: string)
    ensures ReplaceAll(PartlyEscaped(text, false, true), "&gt;", ">") == PartlyEscaped(text, false, false)
  {
    if text != "" {
      DecodeGt(text[1..]);
      DecodeGtChar(text[0], PartlyEscaped(text[1..], false, true));
    }
  }

  lemma DecodeAmpChar(c: char, rest: string)
    ensures ReplaceAll(PartlyEscapedChar(c, false, false) + rest, "&amp;", "&")
         == [c] + ReplaceAll(rest, "&amp;", "&")
  {
    if c == '&' {
      DecodeReference("&amp;", rest, "&");
    } else {
      SkipPrefix([c], rest, "&amp;", "&");
    }
  }

  lemma {:induction false} DecodeAmp(text: string)
    ensures ReplaceAll(PartlyEscaped(text, false, false), "&amp;", "&") == text
  {
    if text != "" {
      DecodeAmp(text[1..]);
      DecodeAmpChar(text[0], PartlyEscaped(text[1..], false, false));
      assert text == [text[0]] + text[1..];
    }
  }

  lemma {:induction false} AllEscaped(text: string)
    ensures PartlyEscaped(text, true, true) == EscapeEach(text)
  {
    if text != "" {
      AllEscaped(text[1..]);
    }
  }

  /** Decoding in the order `&lt;`, `&gt;`, `&amp;` undoes the escape for every text. */
  lemma UnescapeEscape(text: string)
    ensures UnescapeText(EscapeText(text)) == text
  {
    EscapeIsPerCharacter(text);
    AllEscaped(text);
    DecodeLt(text);
    DecodeGt(text);
    DecodeAmp(text);
  }

  // ----- Markup -----

  predicate IsVoid(tag: string) {
    tag in {"area", "base", "br", "col", "embed", "hr", "img", "input", "link", "meta", "source", "track", "wbr"}
  }

  function EscapeAttribute(value: string): string {
    ReplaceAll(ReplaceAll(value, "&", "&amp;"), "\"", "&quot;")
  }

  function AttributesHtml(attrs: seq<(string, string)>): string {
    if attrs == [] then ""
    else " " + attrs[0].0 + "=\"" + EscapeAttribute(attrs[0].1) + "\"" + AttributesHtml(attrs[1..])
  }

  function OpenTag(tag: string, attrs: seq<(string, string)>): string {
    "<" + tag + AttributesHtml(attrs) + ">"
  }

  /** `outerHTML` of an element, and the markup of the other nodes. */
  function NodeMarkup(n: Node): string
    decreases n
  {
    match n
    case Text(data) => EscapeText(data)
    case Comment(data) => "<!--" + data + "-->"
    case Element(tag, attrs, children) =>
      OpenTag(tag, attrs) + if IsVoid(tag) then "" else Markup(children) + CloseTag(tag)
  }

  function CloseTag(tag: string): string {
    "</" + tag + ">"
  }

  function Markup(ns: seq<Node>): string
    decreases ns
  {
    if ns == [] then "" else NodeMarkup(ns[0]) + Markup(ns[1..])
  }

  // ----- Reading the text back out of markup -----

  datatype Mode =
    | Data
    | Reference(name: string)
    | TagStart
    | Tag
    | Quoted
    | CommentBody(dashes: int)   // counts the run of '-', starting at -2 for the opening one

  function Decode(name: string): string {
    match name
    case "lt" => "<"
    case "gt" => ">"
    case "amp" => "&"
    case "quot" => "\""
    case _ => "&" + name + ";"
  }

  function Read(m: Mode, c: char): (string, Mode) {
    match m
    case Data =>
      if c == '<' then ("", TagStart) else if c == '&' then ("", Reference("")) else ([c], Data)
    case Reference(name) =>
      if c == ';' then (Decode(name), Data) else ("", Reference(name + [c]))
    case TagStart =>
      ("", if c == '!' then CommentBody(-2) else if c == '>' then Data else Tag)
    case Tag =>
      ("", if c == '"' then Quoted else if c == '>' then Data else Tag)
    case Quoted =>
      ("", if c == '"' then Tag else Quoted)
    case CommentBody(k) =>
      ("", if c == '-' then CommentBody(if k < 2 then k + 1 else 2)
           else if c == '>' && k >= 2 then Data else CommentBody(0))
  }

  function Scan(m: Mode, s: string): (string, Mode)
    decreases s
  {
    if s == "" then ("", m)
    else
      var (t, m1) := Read(m, s[0]);
      var (u, m2) := Scan(m1, s[1..]);
      (t + u, m2)
  }

  /** From mode `m`, reading `s` prints `text` and ends in mode `m1`. */
  predicate Reads(m: Mode, s: string, text: string, m1: Mode) {
    Scan(m, s).0 == text && Scan(m, s).1 == m1
  }

  /** `textContent` of the document that the fragment `html` parses to. */
  function TextOf(html: string): string {
    Scan(Data, html).0
  }

  lemma {:induction false} ScanAppend(m: Mode, a: string, b: string)
    ensures Scan(m, a + b).0 == Scan(m, a).0 + Scan(Scan(m, a).1, b).0
    ensures Scan(m, a + b).1 == Scan(Scan(m, a).1, b).1
    decreases a
  {
    if a == "" {
      assert a + b == b;
    } else {
      assert (a + b)[0] == a[0] && (a + b)[1..] == a[1..] + b;
      ScanStep(m, a);
      ScanStep(m, a + b);
      var m1 := Read(m, a[0]).1;
      ScanAppend(m1, a[1..], b);
      Assoc(Read(m, a[0]).0, Scan(m1, a[1..]).0, Scan(Scan(m, a).1, b).0);
    }
  }

  lemma ScanStep(m: Mode, s: string)
    requires s != ""
    ensures Scan(m, s).0 == Read(m, s[0]).0 + Scan(Read(m, s[0]).1, s[1..]).0
    ensures Scan(m, s).1 == Scan(Read(m, s[0]).1, s[1..]).1
  {
  }

  /** Markup that starts and ends outside any tag, reference or comment. */
  predicate Closed(html: string) {
    Scan(Data, html).1 == Data
  }

  lemma ClosedAppend(a: string, b: string)
    requires Closed(a)
    ensures TextOf(a + b) == TextOf(a) + TextOf(b)
    ensures Closed(a + b) <==> Closed(b)
  {
    ScanAppend(Data, a, b);
  }

  lemma {:induction false} ScanEscaped(text: string)
    ensures Reads(Data, EscapeEach(text), text, Data)
  {
    if text != "" {
      ScanEscaped(text[1..]);
      ScanEscapedChar(text[0]);
      ScanAppend(Data, EscapeChar(text[0]), EscapeEach(text[1..]));
      assert text == [text[0]] + text[1..];
    }
  }

  lemma ScanEscapedChar(c: char)
    ensures Reads(Data, EscapeChar(c), [c], Data)
  {
    match c {
      case '&' =>
        ScanReference("amp");
        assert "&" + "amp" + ";" == "&amp;";
      case '<' =>
        ScanReference("lt");
        assert "&" + "lt" + ";" == "&lt;";
      case '>' =>
        ScanReference("gt");
        assert "&" + "gt" + ";" == "&gt;";
      case _ =>
    }
  }

  lemma ScanReference(name: string)
    requires ';' !in name
    ensures Reads(Data, "&" + name + ";", Decode(name), Data)
  {
    assert ("&" + name + ";")[1..] == name + ";";
    ScanReferenceName("", name);
    assert "" + name == name;
  }

  lemma {:induction false} ScanReferenceName(done: string, name: string)
    requires ';' !in name
    ensures Reads(Reference(done), name + ";", Decode(done + name), Data)
    decreases name
  {
    if name == "" {
      assert name + ";" == ";" && done + name == done;
    } else {
      assert (name + ";")[0] == name[0] && (name + ";")[1..] == name[1..] + ";";
      ScanReferenceName(done + [name[0]], name[1..]);
      assert done + [name[0]] + name[1..] == done + name;
    }
  }

  predicate NameOk(name: string) {
    '"' !in name && '>' !in name
  }

  /** The comment does not close before its end. */
  predicate StaysInComment(k: int, data: string)
    decreases data
  {
    data == "" || (Read(CommentBody(k), data[0]).1.CommentBody?
                   && StaysInComment(Read(CommentBody(k), data[0]).1.dashes, data[1..]))
  }

  /** What holds of every tree a parser returns. */
  predicate WellFormedNode(n: Node)
    decreases n
  {
    match n
    case Text(_) => true
    case Comment(data) => StaysInComment(0, data)
    case Element(tag, attrs, children) =>
      && NameOk(tag) && tag != "" && tag[0] != '!'
      && (forall i :: 0 <= i < |attrs| ==> NameOk(attrs[i].0))
      && (IsVoid(tag) ==> children == [])
      && WellFormed(children)
  }

  predicate WellFormed(ns: seq<Node>)
    decreases ns
  {
    ns == [] || (WellFormedNode(ns[0]) && WellFormed(ns[1..]))
  }

  lemma {:induction false} ScanInTag(s: string)
    requires NameOk(s)
    ensures Reads(Tag, s, "", Tag)
  {
    if s != "" {
      assert NameOk(s[1..]);
      ScanInTag(s[1..]);
    }
  }

  lemma {:induction false} ScanInQuotes(s: string)
    requires '"' !in s
    ensures Reads(Quoted, s, "", Quoted)
  {
    if s != "" {
      ScanInQuotes(s[1..]);
    }
  }

  lemma {:induction false} ScanInComment(k: int, s: string)
    requires 0 <= k <= 2 && StaysInComment(k, s)
    ensures Scan(CommentBody(k), s).0 == "" && Scan(CommentBody(k), s).1.CommentBody?
    ensures 0 <= Scan(CommentBody(k), s).1.dashes <= 2
    decreases s
  {
    if s != "" {
      ScanInComment(Read(CommentBody(k), s[0]).1.dashes, s[1..]);
    }
  }

  lemma {:induction false} NoQuoteLeft(s: string)
    ensures '"' !in ReplaceAll(s, "\"", "&quot;")
  {
    if s != "" {
      NoQuoteLeft(s[1..]);
      assert "\"" <= s ==> s[|"\""|..] == s[1..];
    }
  }

  lemma AttributesHtmlParts(attrs: seq<(string, string)>)
    requires attrs != []
    ensures AttributesHtml(attrs)
         == (" " + attrs[0].0 + "=") + ("\"" + (EscapeAttribute(attrs[0].1) + ("\"" + AttributesHtml(attrs[1..]))))
  {
    var name, value, rest := " " + attrs[0].0, EscapeAttribute(attrs[0].1), AttributesHtml(attrs[1..]);
    assert "=\"" == "=" + "\"";
    Assoc(name, "=", "\"");
    FromTheRight(name + "=", "\"", value, "\"", rest);
  }

  lemma FromTheRight(a: string, b: string, c: string, d: string, e: string)
    ensures a + b + c + d + e == a + (b + (c + (d + e)))
  {
  }

  lemma {:induction false} ScanAttributes(attrs: seq<(string, string)>)
    requires forall i :: 0 <= i < |attrs| ==> NameOk(attrs[i].0)
    ensures Reads(Tag, AttributesHtml(attrs), "", Tag)
  {
    if attrs != [] {
      var name, value := " " + attrs[0].0 + "=", EscapeAttribute(attrs[0].1);
      var rest := AttributesHtml(attrs[1..]);
      ScanAttributes(attrs[1..]);
      ScanInTag(name);
      NoQuoteLeft(ReplaceAll(attrs[0].1, "&", "&amp;"));
      ScanInQuotes(value);
      AttributesHtmlParts(attrs);
      ScanAppend(Tag, name, "\"" + (value + ("\"" + rest)));
      ScanAppend(Tag, "\"", value + ("\"" + rest));
      ScanAppend(Quoted, value, "\"" + rest);
      ScanAppend(Quoted, "\"", rest);
    }
  }

  lemma ScanOpenTag(tag: string, attrs: seq<(string, string)>)
    requires NameOk(tag) && tag != "" && tag[0] != '!'
    requires forall i :: 0 <= i < |attrs| ==> NameOk(attrs[i].0)
    ensures Reads(Data, OpenTag(tag, attrs), "", Data)
  {
    ScanAttributes(attrs);
    ScanInTag(tag[1..]);
    assert OpenTag(tag, attrs) == ['<', tag[0]] + (tag[1..] + (AttributesHtml(attrs) + ">"));
    ScanAppend(Data, ['<', tag[0]], tag[1..] + (AttributesHtml(attrs) + ">"));
    ScanAppend(Tag, tag[1..], AttributesHtml(attrs) + ">");
    ScanAppend(Tag, AttributesHtml(attrs), ">");
  }

  lemma ScanCloseTag(tag: string)
    requires NameOk(tag)
    ensures Reads(Data, CloseTag(tag), "", Data)
  {
    ScanInTag(tag);
    assert CloseTag(tag) == "</" + (tag + ">");
    ScanAppend(Data, "</", tag + ">");
    ScanAppend(Tag, tag, ">");
  }

  lemma ScanCommentMarkup(data: string)
    requires StaysInComment(0, data)
    ensures Reads(Data, "<!--" + data + "-->", "", Data)
  {
    ScanInComment(0, data);
    assert "<!--" + data + "-->" == "<!" + ("--" + (data + "-->"));
    assert Scan(CommentBody(-1), "-").1 == CommentBody(0);
    assert Reads(CommentBody(-2), "--", "", CommentBody(0));
    ScanAppend(Data, "<!", "--" + (data + "-->"));
    ScanAppend(CommentBody(-2), "--", data + "-->");
    ScanAppend(CommentBody(0), data, "-->");
    var k := Scan(CommentBody(0), data).1;
    assert Read(k, '-').1.CommentBody? && Read(k, '-').1.dashes >= 1;
    ScanAppend(k, "--", ">");
    assert "-->" == "--" + ">";
    assert Scan(Read(k, '-').1, "-").1 == CommentBody(2);
    assert Reads(k, "--", "", CommentBody(2));
  }

  /** Writing a node as markup and reading that markup's text gives the node's text back. */
  lemma {:induction false} NodeRoundTrip(n: Node)
    requires WellFormedNode(n)
    ensures TextOf(NodeMarkup(n)) == NodeText(n) && Closed(NodeMarkup(n))
    decreases n
  {
    match n {
      case Text(data) =>
        EscapeIsPerCharacter(data);
        ScanEscaped(data);
      case Comment(data) =>
        ScanCommentMarkup(data);
      case Element(tag, attrs, children) =>
        ScanOpenTag(tag, attrs);
        if !IsVoid(tag) {
          MarkupRoundTrip(children);
          ScanCloseTag(tag);
          ClosedAppend(OpenTag(tag, attrs), Markup(children) + CloseTag(tag));
          ClosedAppend(Markup(children), CloseTag(tag));
        } else {
          assert NodeMarkup(n) == OpenTag(tag, attrs);
        }
    }
  }

  lemma {:induction false} MarkupRoundTrip(ns: seq<Node>)
    requires WellFormed(ns)
    ensures TextOf(Markup(ns)) == TextContent(ns) && Closed(Markup(ns))
    decreases ns
  {
    if ns != [] {
      NodeRoundTrip(ns[0]);
      MarkupRoundTrip(ns[1..]);
      ClosedAppend(NodeMarkup(ns[0]), Markup(ns[1..]));
    }
  }

  lemma Single(n: Node)
    ensures TextContent([n]) == NodeText(n) && Markup([n]) == NodeMarkup(n)
    ensures WellFormed([n]) <==> WellFormedNode(n)
  {
    assert [n][1..] == [] && NodeText(n) + "" == NodeText(n) && NodeMarkup(n) + "" == NodeMarkup(n);
  }

  // ----- Decoding the markup of an element does not give its text -----

  function Count(c: char, s: string): nat {
    if s == "" then 0 else (if s[0] == c then 1 else 0) + Count(c, s[1..])
  }

  /** Occurrences of the reference `&lt;`. */
  function LtReferences(s: string): nat {
    if s == "" then 0 else (if "&lt;" <= s then 1 else 0) + LtReferences(s[1..])
  }

  lemma {:induction false} CountAppend(c: char, a: string, b: string)
    ensures Count(c, a + b) == Count(c, a) + Count(c, b)
  {
    if a == "" {
      assert a + b == b;
    } else {
      assert (a + b)[1..] == a[1..] + b;
      CountAppend(c, a[1..], b);
    }
  }

  lemma {:induction false} LtReferencesAppend(a: string, b: string)
    ensures LtReferences(a + b) >= LtReferences(a) + LtReferences(b)
  {
    if a == "" {
      assert a + b == b;
    } else {
      assert (a + b)[1..] == a[1..] + b;
      LtReferencesAppend(a[1..], b);
    }
  }

  lemma {:induction false} CountAfterReplace(s: string, pat: string, rep: string)
    requires pat != "" && '<' !in pat && '<' !in rep
    ensures Count('<', ReplaceAll(s, pat, rep)) == Count('<', s)
  {
    if s != "" {
      if pat <= s {
        assert s == pat + s[|pat|..];
        CountAppend('<', pat, s[|pat|..]);
        CountAppend('<', rep, ReplaceAll(s[|pat|..], pat, rep));
        CountAfterReplace(s[|pat|..], pat, rep);
        NoneToCount('<', pat);
        NoneToCount('<', rep);
      } else {
        CountAppend('<', [s[0]], ReplaceAll(s[1..], pat, rep));
        CountAfterReplace(s[1..], pat, rep);
      }
    }
  }

  lemma {:induction false} NoneToCount(c: char, s: string)
    requires c !in s
    ensures Count(c, s) == 0
  {
    if s != "" {
      NoneToCount(c, s[1..]);
    }
  }

  lemma {:induction false} CountAfterDecodeLt(s: string)
    ensures Count('<', ReplaceAll(s, "&lt;", "<")) == Count('<', s) + LtReferences(s)
  {
    if s != "" {
      if "&lt;" <= s {
        var r := s[4..];
        assert s == "&lt;" + r && s[1..] == "lt;" + r;
        CountAppend('<', "&lt;", r);
        NoneToCount('<', "&lt;");
        SkippedReferences("lt;", r);
        assert LtReferences(s) == 1 + LtReferences(r);
        CountAppend('<', "<", ReplaceAll(r, "&lt;", "<"));
        CountAfterDecodeLt(r);
      } else {
        CountAppend('<', [s[0]], ReplaceAll(s[1..], "&lt;", "<"));
        CountAfterDecodeLt(s[1..]);
      }
    }
  }

  lemma {:induction false} SkippedReferences(a: string, b: string)
    requires '&' !in a
    ensures LtReferences(a + b) == LtReferences(b)
  {
    if a == "" {
      assert a + b == b;
    } else {
      assert (a + b)[0] == a[0] && (a + b)[1..] == a[1..] + b;
      SkippedReferences(a[1..], b);
    }
  }

  lemma CountAfterUnescape(s: string)
    ensures Count('<', UnescapeText(s)) == Count('<', s) + LtReferences(s)
  {
    var s1 := ReplaceAll(s, "&lt;", "<");
    CountAfterDecodeLt(s);
    CountAfterReplace(s1, "&gt;", ">");
    CountAfterReplace(ReplaceAll(s1, "&gt;", ">"), "&amp;", "&");
  }

  lemma {:induction false} EscapedLtReferences(text: string)
    ensures LtReferences(EscapeEach(text)) >= Count('<', text)
  {
    if text != "" {
      EscapedLtReferences(text[1..]);
      LtReferencesAppend(EscapeChar(text[0]), EscapeEach(text[1..]));
    }
  }

  // The '<' characters that decoding `s` leaves in it.
  function DecodedLt(s: string): nat {
    Count('<', s) + LtReferences(s)
  }

  lemma DecodedLtAppend(a: string, b: string)
    ensures DecodedLt(a + b) >= DecodedLt(a) + DecodedLt(b)
  {
    CountAppend('<', a, b);
    LtReferencesAppend(a, b);
  }

  /** Markup holds, as raw `<` or as `&lt;`, at least every `<` of the text it stands for. */
  lemma {:induction false} NodeMarkupHoldsEveryLt(n: Node)
    requires WellFormedNode(n)
    ensures DecodedLt(NodeMarkup(n)) >= Count('<', NodeText(n)) + if n.Element? then 1 else 0
    decreases n
  {
    match n {
      case Text(data) =>
        EscapeIsPerCharacter(data);
        EscapedLtReferences(data);
      case Comment(data) =>
      case Element(tag, attrs, children) =>
        var open := OpenTag(tag, attrs);
        assert open[0] == '<' && DecodedLt(open) >= 1;
        if IsVoid(tag) {
          assert NodeMarkup(n) == open;
          MarkupHoldsEveryLt(children);
        } else {
          MarkupHoldsEveryLt(children);
          DecodedLtAppend(open, Markup(children) + CloseTag(tag));
          DecodedLtAppend(Markup(children), CloseTag(tag));
        }
    }
  }

  lemma {:induction false} MarkupHoldsEveryLt(ns: seq<Node>)
    requires WellFormed(ns)
    ensures DecodedLt(Markup(ns)) >= Count('<', TextContent(ns))
    decreases ns
  {
    if ns != [] {
      NodeMarkupHoldsEveryLt(ns[0]);
      MarkupHoldsEveryLt(ns[1..]);
      DecodedLtAppend(NodeMarkup(ns[0]), Markup(ns[1..]));
      CountAppend('<', NodeText(ns[0]), TextContent(ns[1..]));
    }
  }

  /** For an element, decoding the `outerHTML` as if it were escaped text never gives the text:
      the tag's own `<` is left over. */
  lemma UnescapedElementIsNotItsText(e: Node)
    requires e.Element? && WellFormedNode(e)
    ensures Count('<', UnescapeText(NodeMarkup(e))) > Count('<', NodeText(e))
  {
    CountAfterUnescape(NodeMarkup(e));
    NodeMarkupHoldsEveryLt(e);
  }
}
