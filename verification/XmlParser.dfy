/** The parser of GameLib/tinyxml/tinyxmlparser.cpp in the source's own form: loops that move a cursor
    and append to strings. Every method finds exactly what its function in `XmlParse` says. */
module XmlParser {
  import opened Common
  import opened XmlTree
  import opened XmlParse

  method SkipWhiteSpace(doc: string, p: nat, enc: Encoding) returns (q: nat)
    requires p <= |doc|
    ensures q == SkipWhite(doc, p, enc)
  {
    q := p;
    if enc == Utf8 {
      while q < |doc|
        invariant p <= q <= |doc| && SkipWhite(doc, q, enc) == SkipWhite(doc, p, enc)
      {
        if ByteOrderMark(doc, q) {
          q := q + 3;
        } else if IsWhite(doc[q]) {
          q := q + 1;
        } else {
          break;
        }
      }
    } else {
      while q < |doc| && IsWhite(doc[q])
        invariant p <= q <= |doc| && SkipWhite(doc, q, enc) == SkipWhite(doc, p, enc)
      {
        q := q + 1;
      }
    }
  }

  method ReadNameAt(doc: string, p: nat) returns (end: Option<nat>)
    requires p <= |doc|
    ensures end == ReadName(doc, p)
  {
    if p < |doc| && IsNameStart(doc[p]) {
      var q := p;
      while q < |doc| && IsNameChar(doc[q])
        invariant p <= q <= |doc| && NameEnd(doc, q) == NameEnd(doc, p)
      {
        q := q + 1;
      }
      return Some(q);
    }
    return None;
  }

  // ----- Entities ---------------------------------------------------------------------------

  /** `strchr`. */
  method SeekCharacter(doc: string, p: nat, c: char) returns (q: Option<nat>)
    requires p <= |doc|
    ensures q == Find(doc, p, c)
  {
    var k := p;
    while k < |doc| && doc[k] != c
      invariant p <= k <= |doc| && Find(doc, k, c) == Find(doc, p, c)
    {
      k := k + 1;
    }
    return if k < |doc| then Some(k) else None;
  }

  /** What the digits back to the mark add up to once those read so far have given `ucs`. */
  function Remaining(ucs: nat, mult: nat, rest: Option<nat>): Option<nat> {
    if rest == None then None else Some(ucs + mult * rest.value)
  }

  lemma OneDigit(ucs: nat, mult: nat, digit: nat, base: nat, rest: nat)
    ensures ucs + mult * (digit + base * rest) == ucs + mult * digit + mult * base * rest
  {
    assert mult * (digit + base * rest) == mult * digit + mult * (base * rest);
    assert mult * (base * rest) == mult * base * rest;
  }

  /** One step of the loop over the digits. */
  lemma DigitTaken(doc: string, from: nat, q: nat, base: nat, mark: char, ucs: nat, mult: nat)
    requires from < q <= |doc| && doc[from] == mark && doc[q - 1] != mark
    ensures Digit(doc[q - 1], base) == None ==> DigitsBack(doc, from, q, base, mark) == None
    ensures Digit(doc[q - 1], base).Some? ==>
      var d := Digit(doc[q - 1], base).value;
      Remaining(ucs, mult, DigitsBack(doc, from, q, base, mark)) ==
        Remaining(ucs + mult * d, mult * base, DigitsBack(doc, from, q - 1, base, mark))
  {
    hide Digit;
    var d, rest := Digit(doc[q - 1], base), DigitsBack(doc, from, q - 1, base, mark);
    if d.Some? && rest.Some? {
      OneDigit(ucs, mult, d.value, base, rest.value);
    }
  }

  /** The loop over the digits of a numeric reference, from the last to the first. */
  method ReadDigits(doc: string, from: nat, semi: nat, base: nat, mark: char) returns (v: Option<nat>)
    requires from < semi <= |doc| && doc[from] == mark
    ensures v == DigitsBack(doc, from, semi, base, mark)
  {
    hide Digit, DigitsBack, Remaining;
    var ucs: nat, mult: nat, q := 0, 1, semi;
    AllRemaining(DigitsBack(doc, from, semi, base, mark));
    while doc[q - 1] != mark
      invariant from < q <= semi
      invariant Remaining(ucs, mult, DigitsBack(doc, from, q, base, mark)) == DigitsBack(doc, from, semi, base, mark)
      decreases q
    {
      DigitTaken(doc, from, q, base, mark, ucs, mult);
      var d := Digit(doc[q - 1], base);
      if d == None {
        NoneRemaining(ucs, mult);
        return None;
      }
      ucs := ucs + mult * d.value;
      mult := mult * base;
      q := q - 1;
    }
    MarkReached(doc, from, q, base, mark, ucs, mult);
    return Some(ucs);
  }

  lemma AllRemaining(rest: Option<nat>)
    ensures Remaining(0, 1, rest) == rest
  {
  }

  lemma NoneRemaining(ucs: nat, mult: nat)
    ensures Remaining(ucs, mult, None) == None
  {
  }

  lemma MarkReached(doc: string, from: nat, q: nat, base: nat, mark: char, ucs: nat, mult: nat)
    requires from < q <= |doc| && doc[from] == mark == doc[q - 1]
    ensures Remaining(ucs, mult, DigitsBack(doc, from, q, base, mark)) == Some(ucs)
  {
    assert mult * 0 == 0;
  }

  /** `ConvertUTF32ToUTF8`: the bytes are written from the last to the first, each from the lowest six bits
      that are left. */
  method ConvertToUtf8(n: nat) returns (out: string)
    ensures out == Character(n, Utf8)
  {
    var input := n % 0x1_0000_0000;
    var length;
    if input < 0x80 {
      length := 1;
    } else if input < 0x800 {
      length := 2;
    } else if input < 0x1_0000 {
      length := 3;
    } else if input < 0x20_0000 {
      length := 4;
    } else {
      return "";
    }
    SixBits(input);
    out := "";
    if length >= 4 {
      out := [(0x80 + input % 64) as char] + out;
      input := input / 64;
    }
    if length >= 3 {
      out := [(0x80 + input % 64) as char] + out;
      input := input / 64;
    }
    if length >= 2 {
      out := [(0x80 + input % 64) as char] + out;
      input := input / 64;
    }
    var firstByteMark := [0, 0, 0xc0, 0xe0, 0xf0];
    out := [(firstByteMark[length] + input) as char] + out;
  }

  /** Dividing by 64 again and again. */
  lemma SixBits(n: nat)
    ensures n / 64 / 64 == n / 4096 && n / 64 / 64 / 64 == n / 262144
  {
  }

  method ReadNumeric(doc: string, p: nat, from: nat, base: nat, enc: Encoding) returns (g: Got)
    requires p <= from < |doc|
    ensures g == Numeric(doc, p, from, base, enc)
  {
    hide Character;
    var semi := SeekCharacter(doc, from + 1, ';');
    if semi == None {
      return Bad(false, "");
    }
    var ucs := ReadDigits(doc, from, semi.value, base, doc[from]);
    if ucs == None {
      return Bad(false, "");
    }
    var text;
    if enc == Utf8 {
      text := ConvertToUtf8(ucs.value);
    } else {
      text := [(ucs.value % 256) as char];
      LastByte(ucs.value, enc);
    }
    return Got(semi.value + 1, text);
  }

  lemma LastByte(n: nat, enc: Encoding)
    requires enc != Utf8
    ensures Character(n, enc) == [(n % 256) as char]
  {
    assert n % 0x1_0000_0000 % 256 == n % 256;
  }

  /** The table of entities. */
  const ENTITIES: seq<(string, char)> :=
    [("&amp;", '&'), ("&lt;", '<'), ("&gt;", '>'), ("&quot;", '\"'), ("&apos;", '\'')]

  /** `GetEntity`. */
  method ReadEntity(doc: string, p: nat, enc: Encoding) returns (g: Got)
    requires p < |doc|
    ensures g == GetEntity(doc, p, enc)
  {
    hide Matches, Numeric;
    if p + 2 < |doc| && doc[p + 1] == '#' {
      if doc[p + 2] == 'x' {
        if p + 3 == |doc| {
          return Bad(false, "");
        }
        g := ReadNumeric(doc, p, p + 2, 16, enc);
      } else {
        g := ReadNumeric(doc, p, p + 1, 10, enc);
      }
      return;
    }
    var i := 0;
    while i < 5
      invariant i <= 5 && forall k | 0 <= k < i :: !Matches(doc, p, ENTITIES[k].0)
    {
      if Matches(doc, p, ENTITIES[i].0) {
        assert ENTITIES[0].0 == "&amp;" && ENTITIES[1].0 == "&lt;" && ENTITIES[2].0 == "&gt;";
        assert ENTITIES[3].0 == "&quot;" && ENTITIES[4].0 == "&apos;";
        return Got(p + |ENTITIES[i].0|, [ENTITIES[i].1]);
      }
      i := i + 1;
    }
    assert ENTITIES[0].0 == "&amp;" && ENTITIES[1].0 == "&lt;" && ENTITIES[2].0 == "&gt;";
    assert ENTITIES[3].0 == "&quot;" && ENTITIES[4].0 == "&apos;";
    return Got(p + 1, "");
  }

  /** `GetChar`. */
  method ReadChar(doc: string, p: nat, enc: Encoding) returns (g: Got)
    requires p < |doc|
    ensures g == GetChar(doc, p, enc)
  {
    var length := if enc == Utf8 then CharLength(doc[p]) else 1;
    if length == 1 {
      if doc[p] == '&' {
        g := ReadEntity(doc, p, enc);
      } else {
        g := Got(p + 1, [doc[p]]);
      }
    } else {
      g := if p + length <= |doc| then Got(p + length, doc[p..p + length]) else Bad(true, "");
    }
  }

  // ----- Text -------------------------------------------------------------------------------

  /** `ReadText` that keeps white space. */
  method ReadKeptText(doc: string, p: nat, end: char, enc: Encoding) returns (g: Got)
    requires p <= |doc|
    ensures g == ReadKept(doc, p, end, "", enc)
  {
    hide GetChar;
    var q, text := p, "";
    while q < |doc| && doc[q] != end
      invariant q <= |doc| && ReadKept(doc, q, end, text, enc) == ReadKept(doc, p, end, "", enc)
      decreases |doc| - q
    {
      var c := ReadChar(doc, q, enc);
      if c.Bad? {
        return Bad(c.leaves, text);
      }
      q, text := c.next, text + c.text;
    }
    return Got(if q < |doc| then q + 1 else q, text);
  }

  /** `ReadText` that condenses it, up to a '<'. */
  method ReadCondensedText(doc: string, p: nat, enc: Encoding) returns (g: Got)
    requires p <= |doc|
    ensures g == ReadCondensed(doc, p, false, "", enc)
  {
    hide GetChar;
    var q, text, whitespace := p, "", false;
    while q < |doc| && doc[q] != '<'
      invariant q <= |doc| && ReadCondensed(doc, q, whitespace, text, enc) == ReadCondensed(doc, p, false, "", enc)
      decreases |doc| - q
    {
      if IsWhite(doc[q]) {
        whitespace := true;
        q := q + 1;
      } else {
        ghost var before := text;
        var c := ReadChar(doc, q, enc);
        if c.Bad? {
          return Bad(c.leaves, text);
        }
        if whitespace {
          text := text + " ";
        }
        assert whitespace ==> before + " " + c.text == text + c.text;
        assert !whitespace ==> before + "" + c.text == text + c.text;
        whitespace := false;
        q, text := c.next, text + c.text;
      }
    }
    return Got(q, text);
  }

  // ----- Attributes -------------------------------------------------------------------------

  method ReadBareText(doc: string, p: nat) returns (g: Got)
    requires p <= |doc|
    ensures g == ReadBare(doc, p, "")
  {
    var q, text := p, "";
    while q < |doc| && !IsWhite(doc[q]) && doc[q] != '/' && doc[q] != '>'
      invariant q <= |doc| && ReadBare(doc, q, text) == ReadBare(doc, p, "")
    {
      if doc[q] == '\'' || doc[q] == '\"' {
        return Bad(false, text);
      }
      text := text + [doc[q]];
      q := q + 1;
    }
    return Got(q, text);
  }

  /** `TiXmlAttribute::Parse`. */
  method ParseAttribute(doc: string, p: nat, enc: Encoding) returns (r: AttributeRead)
    requires p <= |doc|
    ensures r == ReadAttribute(doc, p, enc)
  {
    hide SkipWhite, ReadName, ReadKept, ReadBare;
    var start := SkipWhiteSpace(doc, p, enc);
    var end := ReadNameAt(doc, start);
    if end == None {
      return BadAttribute(false, "");
    }
    var q := SkipWhiteSpace(doc, end.value, enc);
    if q == |doc| || doc[q] != '=' {
      return BadAttribute(false, "");
    }
    q := SkipWhiteSpace(doc, q + 1, enc);
    if q == |doc| {
      return BadAttribute(false, "");
    }
    var g;
    if doc[q] == '\'' || doc[q] == '\"' {
      g := ReadKeptText(doc, q + 1, doc[q], enc);
    } else {
      g := ReadBareText(doc, q);
    }
    if g.Bad? {
      return BadAttribute(g.leaves, g.text);
    }
    return AttributeRead(g.next, Attribute(doc[start..end.value], g.text));
  }

  /** `TiXmlAttributeSet::Find`. */
  method FindName(attributes: seq<Attribute>, name: string) returns (found: bool)
    ensures found == HasName(attributes, name)
  {
    var i := 0;
    while i < |attributes|
      invariant i <= |attributes| && forall k | 0 <= k < i :: attributes[k].name != name
    {
      if attributes[i].name == name {
        return true;
      }
      i := i + 1;
    }
    return false;
  }

  // ----- Elements ---------------------------------------------------------------------------

  /** The attribute loop of `TiXmlElement::Parse`. */
  method ParseTag(doc: string, p: nat, enc: Encoding) returns (t: Tag)
    requires p <= |doc|
    ensures t == ReadTag(doc, p, [], enc)
  {
    hide SkipWhite, ReadAttribute, HasName;
    var q, attributes := p, [];
    while true
      invariant q <= |doc| && ReadTag(doc, q, attributes, enc) == ReadTag(doc, p, [], enc)
      decreases |doc| - q
    {
      var at := SkipWhiteSpace(doc, q, enc);
      if at == |doc| {
        return BadTag(false);
      }
      if doc[at] == '/' {
        return if at + 1 < |doc| && doc[at + 1] == '>' then Closed(at + 2, attributes) else BadTag(false);
      } else if doc[at] == '>' {
        return Open(at + 1, attributes);
      }
      var attrib := ParseAttribute(doc, at, enc);
      if attrib.BadAttribute? {
        return BadTag(attrib.leaves);
      }
      if attrib.next == |doc| {
        return BadTag(false);
      }
      var found := FindName(attributes, attrib.attribute.name);
      if found {
        return BadTag(false);
      }
      q, attributes := attrib.next, attributes + [attrib.attribute];
    }
  }

  method ParseEnd(doc: string, p: nat, name: string, enc: Encoding) returns (past: Option<nat>)
    requires p <= |doc|
    ensures past == ReadEnd(doc, p, name, enc)
  {
    if !Matches(doc, p, "</" + name) {
      return None;
    }
    var q := SkipWhiteSpace(doc, p + 2 + |name|, enc);
    return if q < |doc| && doc[q] == '>' then Some(q + 1) else None;
  }

  /** `TiXmlElement::Parse`. */
  method ParseElement(doc: string, p: nat, enc: Encoding) returns (o: Outcome)
    requires p <= |doc|
    ensures o == ReadElement(doc, p, enc)
    decreases |doc| - p, 0
  {
    hide SkipWhite, ReadName, ReadTag, ReadValue, ReadEnd;
    var q := SkipWhiteSpace(doc, p, enc);
    if q == |doc| || doc[q] != '<' {
      return Error;
    }
    var start := SkipWhiteSpace(doc, q + 1, enc);
    var end := ReadNameAt(doc, start);
    if end == None {
      return Error;
    }
    var name := doc[start..end.value];
    var tag := ParseTag(doc, end.value, enc);
    match tag
    case BadTag(leaves) => return Failed(leaves);
    case Closed(next, attributes) => return Parsed(next, Element(name, attributes, []));
    case Open(next, attributes) =>
      var inside := ParseValue(doc, next, enc);
      if inside.Stopped? {
        return Passed(inside.why);
      }
      var past := ParseEnd(doc, inside.next, name, enc);
      return if past == None then Error else Parsed(past.value, Element(name, attributes, inside.children));
  }

  /** `TiXmlText::Blank`. */
  method Blank(s: string) returns (blank: bool)
    ensures blank == White(s)
  {
    for i := 0 to |s|
      invariant forall k | 0 <= k < i :: IsWhite(s[k])
    {
      if !IsWhite(s[i]) {
        return false;
      }
    }
    return true;
  }

  // ----- Other markup -----------------------------------------------------------------------

  /** The loops that take what is in a comment, CDATA or an unknown tag, up to its mark. */
  method ReadUntil(doc: string, p: nat, mark: string) returns (value: string, q: nat)
    requires p <= |doc|
    ensures value == Enclosed(doc, p, mark) && q == Seek(doc, p, mark)
  {
    value, q := "", p;
    while q < |doc| && !Matches(doc, q, mark)
      invariant p <= q <= |doc| && value == doc[p..q] && Seek(doc, q, mark) == Seek(doc, p, mark)
    {
      value := value + [doc[q]];
      q := q + 1;
    }
  }

  /** `TiXmlComment::Parse`, `TiXmlText::Parse` of CDATA and `TiXmlUnknown::Parse`. */
  method ParseEnclosed(doc: string, q: nat) returns (next: nat, node: Node)
    requires q < |doc| && doc[q] == '<' && !StartsElement(doc, q) && !StartsDeclaration(doc, q)
    ensures ReadMarkup(doc, q) == Parsed(next, node)
    ensures forall enc :: ReadMarkup(doc, q, enc) == Parsed(next, node)
  {
    hide Seek;
    var value, end;
    if Matches(doc, q, "<!--") {
      value, end := ReadUntil(doc, q + 4, "-->");
      next, node := if end < |doc| then end + 3 else end, Comment(value);
    } else if Matches(doc, q, "<![CDATA[") {
      value, end := ReadUntil(doc, q + 9, "]]>");
      next, node := if end < |doc| then end + 3 else end, CData(value);
    } else {
      value, end := ReadUntil(doc, q + 1, ">");
      next, node := if end < |doc| then end + 1 else end, Unknown(value);
    }
  }

  /** Reading over what is none of the values. */
  method SkipOverWord(doc: string, p: nat) returns (q: nat)
    requires p <= |doc|
    ensures q == SkipWord(doc, p)
  {
    q := p;
    while q < |doc| && doc[q] != '>' && !IsWhite(doc[q])
      invariant p <= q <= |doc| && SkipWord(doc, q) == SkipWord(doc, p)
    {
      q := q + 1;
    }
  }

  /** `TiXmlDeclaration::Parse`, behind its start. */
  method ParseDeclared(doc: string, p: nat, enc: Encoding) returns (o: Outcome)
    requires p <= |doc|
    ensures o == ReadDeclared(doc, p, Declaration("", "", ""), enc)
  {
    hide SkipWhite, SkipWord, ReadAttribute, MatchesFold;
    var q, node := p, Declaration("", "", "");
    while q < |doc|
      invariant q <= |doc| && node.Declaration?
      invariant ReadDeclared(doc, q, node, enc) == ReadDeclared(doc, p, Declaration("", "", ""), enc)
      decreases |doc| - q
    {
      if doc[q] == '>' {
        return Parsed(q + 1, node);
      }
      var at := SkipWhiteSpace(doc, q, enc);
      if Declares(doc, at) {
        var attrib := ParseAttribute(doc, at, enc);
        if attrib.BadAttribute? {
          return if attrib.leaves then Leaves else Cut(SetDeclared(node, doc, at, attrib.value));
        }
        node := SetDeclared(node, doc, at, attrib.attribute.value);
        q := attrib.next;
      } else {
        WordPassed(doc, q, at, enc);
        q := SkipOverWord(doc, at);
      }
    }
    return Cut(node);
  }

  lemma WordPassed(doc: string, q: nat, at: nat, enc: Encoding)
    requires q < |doc| && doc[q] != '>' && at == SkipWhite(doc, q, enc)
    ensures q < SkipWord(doc, at) <= |doc|
  {
  }

  /** `Identify`, and then `Parse` of the node. */
  method ParseNode(doc: string, q: nat, enc: Encoding) returns (o: Outcome)
    requires q < |doc| && doc[q] == '<'
    ensures o == ReadNode(doc, q, enc)
    decreases |doc| - q, 1
  {
    hide ReadElement, MatchesFold, Matches, ReadDeclared;
    if StartsElement(doc, q) {
      o := ParseElement(doc, q, enc);
    } else if StartsDeclaration(doc, q) {
      DeclarationFits(doc, q);
      o := ParseDeclared(doc, q + 5, enc);
    } else {
      var next, node := ParseEnclosed(doc, q);
      o := Parsed(next, node);
    }
  }

  lemma DeclarationFits(doc: string, q: nat)
    requires StartsDeclaration(doc, q)
    ensures q + 5 <= |doc|
  {
  }

  lemma ValueLater(doc: string, p: nat, children: seq<Node>, enc: Encoding)
    requires p <= |doc|
    ensures ReadValue(doc, p, children, enc) == ReadValue(doc, SkipWhite(doc, p, enc), children, enc)
  {
    SkipTwice(doc, p, enc);
    hide SkipWhite, Matches, ReadNode, ReadCondensed;
  }

  /** One turn of the loop of `ReadValue`. */
  lemma ValueStep(doc: string, q: nat, children: seq<Node>, enc: Encoding)
    requires q <= |doc| && q == SkipWhite(doc, q, enc)
    ensures q == |doc| ==> ReadValue(doc, q, children, enc) == Stopped(Error)
    ensures q < |doc| && doc[q] != '<' ==>
      var g := ReadCondensed(doc, q, false, "", enc);
      ReadValue(doc, q, children, enc) ==
        if g.Bad? then Stopped(Failed(g.leaves))
        else if g.next == |doc| then Stopped(AtEnd(doc, enc))
        else ReadValue(doc, g.next, if White(g.text) then children else children + [Text(g.text)], enc)
    ensures q < |doc| && doc[q] == '<' ==>
      var o := ReadNode(doc, q, enc);
      ReadValue(doc, q, children, enc) ==
        if Matches(doc, q, "</") then Children(q, children)
        else if o.Parsed? then ReadValue(doc, o.next, children + [o.node], enc)
        else Stopped(Passed(o))
  {
    hide SkipWhite, Matches, ReadNode, ReadCondensed, White;
  }

  /** `TiXmlElement::ReadValue`. */
  method ParseValue(doc: string, p: nat, enc: Encoding) returns (inside: Inside)
    requires p <= |doc|
    ensures inside == ReadValue(doc, p, [], enc)
    decreases |doc| - p, 2
  {
    hide SkipWhite, ReadCondensed, ReadNode, Matches, White, ReadValue, AtEnd;
    var children := [];
    var q := SkipWhiteSpace(doc, p, enc);
    SkipTwice(doc, p, enc);
    ValueLater(doc, p, children, enc);
    while q < |doc|
      invariant p <= q <= |doc| && q == SkipWhite(doc, q, enc)
      invariant ReadValue(doc, q, children, enc) == ReadValue(doc, p, [], enc)
      decreases |doc| - q
    {
      ValueStep(doc, q, children, enc);
      if doc[q] != '<' {
        var text := ReadCondensedText(doc, q, enc);
        if text.Bad? {
          return Stopped(Failed(text.leaves));
        }
        if text.next == |doc| {
          return Stopped(AtEnd(doc, enc));
        }
        var blank := Blank(text.text);
        if !blank {
          children := children + [Text(text.text)];
        }
        q := text.next;
      } else if Matches(doc, q, "</") {
        return Children(q, children);
      } else {
        var node := ParseNode(doc, q, enc);
        if !node.Parsed? {
          return Stopped(Passed(node));
        }
        children := children + [node.node];
        q := node.next;
      }
      SkipTwice(doc, q, enc);
      ValueLater(doc, q, children, enc);
      q := SkipWhiteSpace(doc, q, enc);
    }
    ValueStep(doc, q, children, enc);
    return Stopped(Error);
  }

  // ----- Documents --------------------------------------------------------------------------

  /** `TiXmlDocument::Parse`. */
  method ParseDocument(doc: string, encoding: Encoding) returns (d: Document)
    ensures d == Parse(doc, encoding)
  {
    hide SkipWhite, ReadNode, NextEncoding;
    var enc := encoding;
    if enc == Undeclared && Matches(doc, 0, [0xef as char, 0xbb as char, 0xbf as char]) {
      enc := Utf8;
    }
    var nodes := [];
    var p := SkipWhiteSpace(doc, 0, enc);
    SkipTwice(doc, 0, enc);
    while p < |doc| && doc[p] == '<'
      invariant p <= |doc| && p == SkipWhite(doc, p, enc) && ReadNodes(doc, p, nodes, enc) == Parse(doc, encoding)
      decreases |doc| - p
    {
      var node := ParseNode(doc, p, enc);
      if node.Cut? {
        return Document(nodes + [node.node]);
      } else if !node.Parsed? {
        return NoDocument(node);
      }
      nodes := nodes + [node.node];
      enc := NextEncoding(enc, node.node);
      SkipTwice(doc, node.next, enc);
      p := SkipWhiteSpace(doc, node.next, enc);
    }
    return if nodes == [] then NoDocument(Error) else Document(nodes);
  }
}
