/** The parser of GameLib/tinyxml/tinyxmlparser.cpp, as functions on a document and a place in it.

    Places run up to the end of the document, where the source has a null byte. Characters are bytes. The
    encoding is that of the source: undeclared to begin with, unless the caller says otherwise. */
module XmlParse {
  import opened Common
  import opened XmlTree

  /** `TiXmlEncoding`. In UTF-8 some characters are more than one byte long. */
  datatype Encoding = Undeclared | Utf8 | Legacy

  /** One of the three byte order marks. */
  predicate ByteOrderMark(doc: string, p: nat) {
    && p + 3 <= |doc| && doc[p] == 0xef as char
    && ((doc[p + 1] == 0xbb as char && doc[p + 2] == 0xbf as char)
        || (doc[p + 1] == 0xbf as char && (doc[p + 2] == 0xbe as char || doc[p + 2] == 0xbf as char)))
  }

  /** `SkipWhiteSpace`. */
  function SkipWhite(doc: string, p: nat, enc: Encoding := Undeclared): (q: nat)
    requires p <= |doc|
    ensures p <= q <= |doc|
    ensures q < |doc| ==> !IsWhite(doc[q])
    decreases |doc| - p
  {
    if enc == Utf8 && ByteOrderMark(doc, p) then SkipWhite(doc, p + 3, enc)
    else if p < |doc| && IsWhite(doc[p]) then SkipWhite(doc, p + 1, enc)
    else p
  }

  lemma SkipTwice(doc: string, p: nat, enc: Encoding := Undeclared)
    requires p <= |doc|
    ensures SkipWhite(doc, SkipWhite(doc, p, enc), enc) == SkipWhite(doc, p, enc)
    decreases |doc| - p
  {
    if enc == Utf8 && ByteOrderMark(doc, p) {
      SkipTwice(doc, p + 3, enc);
    } else if p < |doc| && IsWhite(doc[p]) {
      SkipTwice(doc, p + 1, enc);
    }
  }

  function NameEnd(doc: string, p: nat): (q: nat)
    requires p <= |doc|
    ensures p <= q <= |doc|
    decreases |doc| - p
  {
    if p < |doc| && IsNameChar(doc[p]) then NameEnd(doc, p + 1) else p
  }

  /** `ReadName`: where the name ends. */
  function ReadName(doc: string, p: nat): (q: Option<nat>)
    requires p <= |doc|
    ensures q.Some? ==> p < q.value <= |doc|
  {
    if p < |doc| && IsNameStart(doc[p]) then Some(NameEnd(doc, p)) else None
  }

  // ----- Entities ---------------------------------------------------------------------------

  /** What has been read: where reading goes on, and the characters. Otherwise a reference is ill-formed, or
      reading leaves the document in the middle of a character; the characters are those before that. */
  datatype Got = Bad(leaves: bool, text: string) | Got(next: nat, text: string)

  function Find(doc: string, p: nat, c: char): (q: Option<nat>)
    requires p <= |doc|
    ensures q.Some? ==> p <= q.value < |doc| && doc[q.value] == c && c !in doc[p..q.value]
    ensures q.None? ==> c !in doc[p..]
    decreases |doc| - p
  {
    if p == |doc| then None else if doc[p] == c then Some(p) else Find(doc, p + 1, c)
  }

  function Digit(c: char, base: nat): (d: Option<nat>)
  {
    if '0' <= c <= '9' then Some(c as int - '0' as int)
    else if base == 16 && 'a' <= c <= 'f' then Some(c as int - 'a' as int + 10)
    else if base == 16 && 'A' <= c <= 'F' then Some(c as int - 'A' as int + 10)
    else None
  }

  /** The digits before place q, read backwards up to a mark. */
  function DigitsBack(doc: string, from: nat, q: nat, base: nat, mark: char): Option<nat>
    requires from < q <= |doc| && doc[from] == mark
    decreases q
  {
    if doc[q - 1] == mark then Some(0)
    else if Digit(doc[q - 1], base) == None then None
    else
      var rest := DigitsBack(doc, from, q - 1, base, mark);
      if rest == None then None else Some(Digit(doc[q - 1], base).value + base * rest.value)
  }

  /** What a number stands for, in a word of 32 bits: in UTF-8 the bytes of `ConvertUTF32ToUTF8`, which
      knows no number of more than 21 bits, and otherwise its last byte. */
  function Character(n: nat, enc: Encoding): string {
    var ucs := n % 0x1_0000_0000;
    if enc != Utf8 then [(ucs % 256) as char]
    else if ucs < 0x80 then [ucs as char]
    else if ucs < 0x800 then [(0xc0 + ucs / 64) as char, (0x80 + ucs % 64) as char]
    else if ucs < 0x1_0000 then
      [(0xe0 + ucs / 4096) as char, (0x80 + ucs / 64 % 64) as char, (0x80 + ucs % 64) as char]
    else if ucs < 0x20_0000 then
      [(0xf0 + ucs / 262144) as char, (0x80 + ucs / 4096 % 64) as char,
       (0x80 + ucs / 64 % 64) as char, (0x80 + ucs % 64) as char]
    else ""
  }

  function Numeric(doc: string, p: nat, from: nat, base: nat, enc: Encoding := Undeclared): (g: Got)
    requires p <= from < |doc|
    ensures g.Got? ==> from < g.next <= |doc|
    ensures g.Bad? ==> !g.leaves
  {
    var semi := Find(doc, from + 1, ';');
    if semi == None then Bad(false, "")
    else
      var v := DigitsBack(doc, from, semi.value, base, doc[from]);
      if v == None then Bad(false, "") else Got(semi.value + 1, Character(v.value, enc))
  }

  /** `GetEntity`. An ampersand that starts no entity is dropped. */
  function GetEntity(doc: string, p: nat, enc: Encoding := Undeclared): (g: Got)
    requires p < |doc|
    ensures g.Got? ==> p < g.next <= |doc|
    ensures g.Bad? ==> !g.leaves
  {
    if p + 2 < |doc| && doc[p + 1] == '#' then
      if doc[p + 2] == 'x' then
        if p + 3 == |doc| then Bad(false, "") else Numeric(doc, p, p + 2, 16, enc)
      else Numeric(doc, p, p + 1, 10, enc)
    else if Matches(doc, p, "&amp;") then Got(p + 5, "&")
    else if Matches(doc, p, "&lt;") then Got(p + 4, "<")
    else if Matches(doc, p, "&gt;") then Got(p + 4, ">")
    else if Matches(doc, p, "&quot;") then Got(p + 6, "\"")
    else if Matches(doc, p, "&apos;") then Got(p + 6, "\'")
    else Got(p + 1, "")
  }

  /** `utf8ByteTable`. */
  function CharLength(c: char): (n: nat)
    ensures 1 <= n <= 4
  {
    if 0xc2 as char <= c <= 0xdf as char then 2
    else if 0xe0 as char <= c <= 0xef as char then 3
    else if 0xf0 as char <= c <= 0xf4 as char then 4
    else 1
  }

  /** `GetChar`. */
  function GetChar(doc: string, p: nat, enc: Encoding := Undeclared): (g: Got)
    requires p < |doc|
    ensures g.Got? ==> p < g.next <= |doc|
  {
    var n := if enc == Utf8 then CharLength(doc[p]) else 1;
    if n > 1 then
      if p + n <= |doc| then Got(p + n, doc[p..p + n]) else Bad(true, "")
    else if doc[p] == '&' then GetEntity(doc, p, enc)
    else Got(p + 1, [doc[p]])
  }

  // ----- Text -------------------------------------------------------------------------------

  /** `ReadText` that keeps white space: where it ends, past the end mark if there is one. */
  function ReadKept(doc: string, p: nat, end: char, text: string, enc: Encoding := Undeclared): (g: Got)
    requires p <= |doc|
    ensures g.Got? ==> p <= g.next <= |doc|
    decreases |doc| - p
  {
    if p == |doc| then Got(p, text)
    else if doc[p] == end then Got(p + 1, text)
    else
      var g := GetChar(doc, p, enc);
      if g.Bad? then Bad(g.leaves, text) else ReadKept(doc, g.next, end, text + g.text, enc)
  }

  /** `ReadText` that condenses it, up to a '<' or the end. */
  function ReadCondensed(doc: string, p: nat, white: bool, text: string, enc: Encoding := Undeclared): (g: Got)
    requires p <= |doc|
    ensures g.Got? ==> p <= g.next <= |doc|
    ensures g.Got? && p < |doc| && doc[p] != '<' ==> p < g.next
    ensures g.Got? && g.next < |doc| ==> doc[g.next] == '<'
    decreases |doc| - p
  {
    if p == |doc| || doc[p] == '<' then Got(p, text)
    else if IsWhite(doc[p]) then ReadCondensed(doc, p + 1, true, text, enc)
    else
      var g := GetChar(doc, p, enc);
      if g.Bad? then Bad(g.leaves, text)
      else ReadCondensed(doc, g.next, false, text + (if white then " " else "") + g.text, enc)
  }

  // ----- Attributes -------------------------------------------------------------------------

  datatype AttributeRead = BadAttribute(leaves: bool, value: string) | AttributeRead(next: nat, attribute: Attribute)

  /** A value without quotes. */
  function ReadBare(doc: string, p: nat, text: string): (g: Got)
    requires p <= |doc|
    ensures g.Got? ==> p <= g.next <= |doc|
    ensures g.Bad? ==> !g.leaves
    decreases |doc| - p
  {
    if p == |doc| || IsWhite(doc[p]) || doc[p] == '/' || doc[p] == '>' then Got(p, text)
    else if doc[p] == '\'' || doc[p] == '\"' then Bad(false, text)
    else ReadBare(doc, p + 1, text + [doc[p]])
  }

  function ReadAttributeValue(doc: string, p: nat, enc: Encoding := Undeclared): (g: Got)
    requires p < |doc|
    ensures g.Got? ==> p <= g.next <= |doc|
  {
    if doc[p] == '\'' || doc[p] == '\"' then ReadKept(doc, p + 1, doc[p], "", enc) else ReadBare(doc, p, "")
  }

  /** `TiXmlAttribute::Parse`. */
  function ReadAttribute(doc: string, p: nat, enc: Encoding := Undeclared): (r: AttributeRead)
    requires p <= |doc|
    ensures r.AttributeRead? ==> p < r.next <= |doc|
  {
    var start := SkipWhite(doc, p, enc);
    var end := ReadName(doc, start);
    if end == None then BadAttribute(false, "")
    else
      var equals := SkipWhite(doc, end.value, enc);
      if equals == |doc| || doc[equals] != '=' then BadAttribute(false, "")
      else
        var q := SkipWhite(doc, equals + 1, enc);
        if q == |doc| then BadAttribute(false, "")
        else
          var g := ReadAttributeValue(doc, q, enc);
          if g.Bad? then BadAttribute(g.leaves, g.text)
          else AttributeRead(g.next, Attribute(doc[start..end.value], g.text))
  }

  datatype Tag =
    | BadTag(leaves: bool)
    | Closed(next: nat, attributes: seq<Attribute>)
    | Open(next: nat, attributes: seq<Attribute>)

  predicate HasName(attributes: seq<Attribute>, name: string) {
    exists a | a in attributes :: a.name == name
  }

  /** The rest of a start tag. The end of the document is an error wherever it is met. */
  function ReadTag(doc: string, p: nat, attributes: seq<Attribute>, enc: Encoding := Undeclared): (t: Tag)
    requires p <= |doc|
    ensures !t.BadTag? ==> p < t.next <= |doc|
    decreases |doc| - p
  {
    var q := SkipWhite(doc, p, enc);
    if q == |doc| then BadTag(false)
    else if doc[q] == '/' then
      if q + 1 < |doc| && doc[q + 1] == '>' then Closed(q + 2, attributes) else BadTag(false)
    else if doc[q] == '>' then Open(q + 1, attributes)
    else
      var a := ReadAttribute(doc, q, enc);
      if a.BadAttribute? then BadTag(a.leaves)
      else if a.next == |doc| || HasName(attributes, a.attribute.name) then BadTag(false)
      else ReadTag(doc, a.next, attributes + [a.attribute], enc)
  }

  /** The end tag of an element. */
  function ReadEnd(doc: string, p: nat, name: string, enc: Encoding := Undeclared): (q: Option<nat>)
    requires p <= |doc|
    ensures q.Some? ==> p < q.value <= |doc|
  {
    if !Matches(doc, p, "</" + name) then None
    else
      var q := SkipWhite(doc, p + 2 + |name|, enc);
      if q < |doc| && doc[q] == '>' then Some(q + 1) else None
  }

  // ----- Other markup -----------------------------------------------------------------------

  /** What reading a node comes to. `Hang`: the text at the end of the document is read over and over.
      `Leaves`: reading goes on behind the end of the document. `Cut`: a declaration without an end, which
      is kept and ends the parse without an error. */
  datatype Outcome = Error | Hang | Leaves | Cut(node: Node) | Parsed(next: nat, node: Node)

  function Failed(leaves: bool): (o: Outcome)
    ensures !o.Parsed? && !o.Hang? && !o.Cut?
  {
    if leaves then Leaves else Error
  }

  /** The first place from p on where the mark lies, or the end of the document. */
  function Seek(doc: string, p: nat, mark: string): (q: nat)
    requires p <= |doc|
    ensures p <= q <= |doc|
    ensures q < |doc| ==> Matches(doc, q, mark)
    ensures forall k | p <= k < q :: !Matches(doc, k, mark)
    decreases |doc| - p
  {
    if p == |doc| || Matches(doc, p, mark) then p else Seek(doc, p + 1, mark)
  }

  /** Behind the mark, if it was found. */
  function Behind(doc: string, q: nat, mark: string): (r: nat)
    requires q <= |doc| && (q < |doc| ==> Matches(doc, q, mark))
    ensures q <= r <= |doc|
  {
    if q < |doc| then q + |mark| else q
  }

  /** What a comment, CDATA or an unknown tag encloses: from p up to its mark. */
  function Enclosed(doc: string, p: nat, mark: string): string
    requires p <= |doc|
  {
    doc[p..Seek(doc, p, mark)]
  }

  /** A run of characters of a declaration that is none of its values. */
  function SkipWord(doc: string, p: nat): (q: nat)
    requires p <= |doc|
    ensures p <= q <= |doc|
    ensures p < |doc| && doc[p] != '>' && !IsWhite(doc[p]) ==> p < q
    decreases |doc| - p
  {
    if p < |doc| && doc[p] != '>' && !IsWhite(doc[p]) then SkipWord(doc, p + 1) else p
  }

  /** One of the three values is named here, or something that begins with its name. */
  predicate Declares(doc: string, p: nat) {
    MatchesFold(doc, p, "version") || MatchesFold(doc, p, "encoding") || MatchesFold(doc, p, "standalone")
  }

  function SetDeclared(d: Node, doc: string, p: nat, value: string): (r: Node)
    requires d.Declaration?
    ensures r.Declaration?
  {
    if MatchesFold(doc, p, "version") then d.(version := CStr(value))
    else if MatchesFold(doc, p, "encoding") then d.(encoding := CStr(value))
    else d.(standalone := CStr(value))
  }

  /** The loop of `TiXmlDeclaration::Parse`. An attribute that cannot be read ends it. */
  function ReadDeclared(doc: string, p: nat, d: Node, enc: Encoding := Undeclared): (o: Outcome)
    requires p <= |doc| && d.Declaration?
    ensures o.Parsed? ==> p < o.next <= |doc| && o.node.Declaration?
    ensures o.Cut? ==> o.node.Declaration?
    ensures !o.Error? && !o.Hang?
    decreases |doc| - p
  {
    if p == |doc| then Cut(d)
    else if doc[p] == '>' then Parsed(p + 1, d)
    else
      var q := SkipWhite(doc, p, enc);
      if Declares(doc, q) then
        var a := ReadAttribute(doc, q, enc);
        if a.AttributeRead? then ReadDeclared(doc, a.next, SetDeclared(d, doc, q, a.attribute.value), enc)
        else if a.leaves then Leaves
        else Cut(SetDeclared(d, doc, q, a.value))
      else
        assert q == p ==> !IsWhite(doc[q]);
        ReadDeclared(doc, SkipWord(doc, q), d, enc)
  }

  /** Markup that is no element. */
  function ReadMarkup(doc: string, q: nat, enc: Encoding := Undeclared): (o: Outcome)
    requires q < |doc| && doc[q] == '<' && !StartsElement(doc, q)
    ensures o.Parsed? ==> q < o.next <= |doc|
    ensures !o.Error? && !o.Hang?
  {
    if StartsDeclaration(doc, q) then ReadDeclared(doc, q + 5, Declaration("", "", ""), enc)
    else if Matches(doc, q, "<!--") then
      Parsed(Behind(doc, Seek(doc, q + 4, "-->"), "-->"), Comment(Enclosed(doc, q + 4, "-->")))
    else if Matches(doc, q, "<![CDATA[") then
      Parsed(Behind(doc, Seek(doc, q + 9, "]]>"), "]]>"), CData(Enclosed(doc, q + 9, "]]>")))
    else
      Parsed(Behind(doc, Seek(doc, q + 1, ">"), ">"), Unknown(Enclosed(doc, q + 1, ">")))
  }

  // ----- Elements ---------------------------------------------------------------------------

  datatype Inside = Stopped(why: Outcome) | Children(next: nat, children: seq<Node>)

  /** What comes of a text that reaches the end of the document: reading goes on at its last character. (In
      UTF-8 that may be a '<' or the first byte of a longer character.) */
  function AtEnd(doc: string, enc: Encoding := Undeclared): Outcome
    requires doc != []
  {
    var last := doc[|doc| - 1];
    if IsWhite(last) || last == '<' then Error
    else if enc == Utf8 && CharLength(last) > 1 then Leaves
    else Hang
  }

  /** What is left of the outcome of a child that was not parsed. */
  function Passed(o: Outcome): (r: Outcome)
    ensures !r.Parsed? && !r.Cut?
  {
    if o.Hang? || o.Leaves? then o else Error
  }

  /** `Identify`, and then `Parse` of the node. */
  function ReadNode(doc: string, q: nat, enc: Encoding := Undeclared): (o: Outcome)
    requires q < |doc| && doc[q] == '<'
    ensures o.Parsed? ==> q < o.next <= |doc|
    decreases |doc| - q, 1
  {
    if StartsElement(doc, q) then ReadElement(doc, q, enc) else ReadMarkup(doc, q, enc)
  }

  /** `TiXmlElement::Parse`. */
  function ReadElement(doc: string, p: nat, enc: Encoding := Undeclared): (o: Outcome)
    requires p <= |doc|
    ensures o.Parsed? ==> p < o.next <= |doc|
    ensures !o.Cut?
    decreases |doc| - p, 0
  {
    var q := SkipWhite(doc, p, enc);
    if q == |doc| || doc[q] != '<' then Error
    else
      var start := SkipWhite(doc, q + 1, enc);
      var end := ReadName(doc, start);
      if end == None then Error
      else
        var name := doc[start..end.value];
        match ReadTag(doc, end.value, [], enc)
        case BadTag(leaves) => Failed(leaves)
        case Closed(next, attributes) => Parsed(next, Element(name, attributes, []))
        case Open(next, attributes) =>
          match ReadValue(doc, next, [], enc)
          case Stopped(why) => Passed(why)
          case Children(at, children) =>
            var past := ReadEnd(doc, at, name, enc);
            if past == None then Error else Parsed(past.value, Element(name, attributes, children))
  }

  /** `TiXmlElement::ReadValue`: nodes up to a "</". */
  function ReadValue(doc: string, p: nat, children: seq<Node>, enc: Encoding := Undeclared): (i: Inside)
    requires p <= |doc|
    ensures i.Children? ==> p <= i.next <= |doc|
    decreases |doc| - p, 2
  {
    var q := SkipWhite(doc, p, enc);
    if q == |doc| then Stopped(Error)
    else if doc[q] != '<' then
      var g := ReadCondensed(doc, q, false, "", enc);
      if g.Bad? then Stopped(Failed(g.leaves))
      else if g.next == |doc| then Stopped(AtEnd(doc, enc))
      else ReadValue(doc, g.next, if White(g.text) then children else children + [Text(g.text)], enc)
    else if Matches(doc, q, "</") then Children(q, children)
    else
      var o := ReadNode(doc, q, enc);
      if o.Parsed? then ReadValue(doc, o.next, children + [o.node], enc) else Stopped(Passed(o))
  }

  // ----- Documents --------------------------------------------------------------------------

  datatype Document = NoDocument(why: Outcome) | Document(nodes: seq<Node>)

  /** The encoding after a node: the first declaration says what it is. */
  function NextEncoding(enc: Encoding, n: Node): Encoding {
    if enc != Undeclared || !n.Declaration? then enc
    else if n.encoding == "" || MatchesFold(n.encoding, 0, "UTF-8") || MatchesFold(n.encoding, 0, "UTF8") then Utf8
    else Legacy
  }

  function ReadNodes(doc: string, p: nat, nodes: seq<Node>, enc: Encoding := Undeclared): Document
    requires p <= |doc|
    decreases |doc| - p
  {
    var q := SkipWhite(doc, p, enc);
    if q == |doc| || doc[q] != '<' then
      if nodes == [] then NoDocument(Error) else Document(nodes)
    else
      match ReadNode(doc, q, enc)
      case Parsed(next, node) => ReadNodes(doc, next, nodes + [node], NextEncoding(enc, node))
      case Cut(node) => Document(nodes + [node])
      case why => NoDocument(why)
  }

  /** The encoding a document begins with: the bytes that mark UTF-8 tell it if the caller does not. */
  function FirstEncoding(doc: string, enc: Encoding): Encoding {
    if enc == Undeclared && Matches(doc, 0, [0xef as char, 0xbb as char, 0xbf as char]) then Utf8 else enc
  }

  /** `TiXmlDocument::Parse`. */
  function Parse(doc: string, enc: Encoding := Undeclared): Document {
    ReadNodes(doc, 0, [], FirstEncoding(doc, enc))
  }
}
