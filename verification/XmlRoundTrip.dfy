/** Printing and then parsing: what comes back, and which trees come back unchanged, whatever white space
    the printer is set to indent and break lines with. */
module XmlRoundTrip {
  import opened Common
  import opened XmlTree
  import opened XmlParse
  import opened XmlFormed
  import opened XmlLayout
  import opened XmlDeclared

  // ----- What comes back --------------------------------------------------------------------

  predicate Blank(n: Node) {
    n.Text? && White(n.value)
  }

  /** What a node comes back as, if its references are well-formed: texts condensed, and references read. */
  function Again(n: Node, enc: Encoding): Option<Node>
    decreases n
  {
    match n
    case Text(s) => if Squeeze(s, enc) == None then None else Some(Text(Squeeze(s, enc).value))
    case Element(name, attributes, children) =>
      if AttributesAgain(attributes, enc) == None || NodesAgain(children, enc) == None then None
      else Some(Element(name, AttributesAgain(attributes, enc).value, NodesAgain(children, enc).value))
    case _ => Some(n)
  }

  /** A text that has become blank is dropped. */
  function NodesAgain(nodes: seq<Node>, enc: Encoding): Option<seq<Node>>
    decreases nodes
  {
    if nodes == [] then Some([])
    else if Again(nodes[0], enc) == None || NodesAgain(nodes[1..], enc) == None then None
    else Some(Unless(Again(nodes[0], enc).value) + NodesAgain(nodes[1..], enc).value)
  }

  function Unless(n: Node): seq<Node> {
    if Blank(n) then [] else [n]
  }

  /** The same at the top of a document, where the first declaration tells the encoding of what follows. */
  function TopAgain(nodes: seq<Node>, enc: Encoding): Option<seq<Node>>
    decreases |nodes|
  {
    if nodes == [] then Some([])
    else
      var rest := TopAgain(nodes[1..], NextEncoding(enc, nodes[0]));
      if Again(nodes[0], enc) == None || rest == None then None else Some([Again(nodes[0], enc).value] + rest.value)
  }

  function OutcomeAgain(n: Node, next: nat, enc: Encoding): Outcome {
    if Again(n, enc) == None then Error else Parsed(next, Again(n, enc).value)
  }

  function InsideAgain(nodes: seq<Node>, done: seq<Node>, next: nat, enc: Encoding): Inside {
    if NodesAgain(nodes, enc) == None then Stopped(Error) else Children(next, done + NodesAgain(nodes, enc).value)
  }

  function DocumentAgain(nodes: seq<Node>, done: seq<Node>, enc: Encoding): Document {
    if TopAgain(nodes, enc) == None then NoDocument(Error) else Document(done + TopAgain(nodes, enc).value)
  }

  lemma AgainSplit(done: seq<Node>, nodes: seq<Node>, next: nat, enc: Encoding)
    ensures nodes == [] ==> InsideAgain(nodes, done, next, enc) == Children(next, done)
    ensures nodes != [] && Again(nodes[0], enc) == None ==> InsideAgain(nodes, done, next, enc) == Stopped(Error)
    ensures nodes != [] && Again(nodes[0], enc).Some? ==>
      InsideAgain(nodes, done, next, enc) ==
      InsideAgain(nodes[1..], done + Unless(Again(nodes[0], enc).value), next, enc)
  {
    hide Again, Unless;
    if nodes == [] {
      assert done + [] == done;
    } else if Again(nodes[0], enc).Some? && NodesAgain(nodes[1..], enc).Some? {
      Regroup(done, Unless(Again(nodes[0], enc).value), NodesAgain(nodes[1..], enc).value);
    }
  }

  lemma TopSplit(done: seq<Node>, nodes: seq<Node>, enc: Encoding)
    ensures nodes == [] ==> DocumentAgain(nodes, done, enc) == Document(done)
    ensures nodes != [] && Again(nodes[0], enc) == None ==> DocumentAgain(nodes, done, enc) == NoDocument(Error)
    ensures nodes != [] && Again(nodes[0], enc).Some? ==>
      DocumentAgain(nodes, done, enc) ==
      DocumentAgain(nodes[1..], done + [Again(nodes[0], enc).value], NextEncoding(enc, nodes[0]))
  {
    hide Again, NextEncoding;
    if nodes == [] {
      assert done + [] == done;
    } else {
      var rest := TopAgain(nodes[1..], NextEncoding(enc, nodes[0]));
      if Again(nodes[0], enc).Some? && rest.Some? {
        Regroup(done, [Again(nodes[0], enc).value], rest.value);
      }
    }
  }

  // ----- Texts ------------------------------------------------------------------------------

  lemma {:induction false} SkipIsWhite(doc: string, p: nat)
    requires p <= |doc|
    ensures White(doc[p..SkipWhite(doc, p)])
    decreases |doc| - p
  {
    if p < |doc| && IsWhite(doc[p]) {
      SkipIsWhite(doc, p + 1);
      var q := SkipWhite(doc, p + 1);
      assert doc[p..q] == [doc[p]] + doc[p + 1..q];
    }
  }

  /** A text node up to the '<' after it. */
  lemma TextParsed(doc: string, p: nat, v: string, children: seq<Node>, enc: Encoding)
    requires Complete(v, enc) && !White(v) && !Marked(v, Lead(v), enc) && Matches(doc, p, Encode(v, Lead(v)))
    requires var r := SkipWhite(doc, p + |Encode(v, Lead(v))|); r < |doc| && doc[r] == '<'
    ensures p < |doc| && Stops(doc, p, enc)
    ensures var r := SkipWhite(doc, p + |Encode(v, Lead(v))|);
      p < r && ReadValue(doc, p, children, enc) ==
      if Squeeze(v, enc) == None then Stopped(Error)
      else ReadValue(doc, r, children + Unless(Text(Squeeze(v, enc).value)), enc)
  {
    hide SkipWhite, ReadCondensed, Encode, SqueezeFrom, Matches, White, Complete, ReadNode, Lead, Stops, Marked,
      ReadValue;
    TextRead(doc, p, v, enc);
    ShownStarts(Text(v), STREAM, 0);
    MatchesAt(doc, p, Encode(v, Lead(v)), 0);
    TextStops(doc, p, v, enc);
    SkipNone(doc, p, enc);
    TextTaken(doc, p, children, enc);
    assert children + [] == children;
  }

  lemma TextRead(doc: string, p: nat, v: string, enc: Encoding)
    requires Complete(v, enc) && Matches(doc, p, Encode(v, Lead(v)))
    requires var r := SkipWhite(doc, p + |Encode(v, Lead(v))|); r < |doc| && doc[r] == '<'
    ensures p <= |doc|
    ensures var r, g := SkipWhite(doc, p + |Encode(v, Lead(v))|), ReadCondensed(doc, p, false, "", enc);
      if Squeeze(v, enc) == None then g.Bad? && !g.leaves else g == Got(r, Squeeze(v, enc).value)
  {
    hide SkipWhite, ReadCondensed, Encode, SqueezeFrom, Matches, White, Complete, Lead;
    var e := p + |Encode(v, Lead(v))|;
    var r := SkipWhite(doc, e);
    var w := doc[e..r];
    SkipIsWhite(doc, e);
    assert doc[e..r + 1] == w + "<";
    MatchesIs(doc, e, w + "<");
    MatchesSplit(doc, p, Encode(v, Lead(v)), w + "<");
    CondensedRead(doc, p, v, Lead(v), false, "", w, enc);
    assert Squeeze(v, enc).Some? ==> "" + Squeeze(v, enc).value == Squeeze(v, enc).value;
  }

  /** One turn of the loop of `ReadValue`, over a text. */
  lemma TextTaken(doc: string, p: nat, children: seq<Node>, enc: Encoding)
    requires p < |doc| && SkipWhite(doc, p, enc) == p && doc[p] != '<'
    ensures var g := ReadCondensed(doc, p, false, "", enc);
      ReadValue(doc, p, children, enc) ==
        if g.Bad? then Stopped(Failed(g.leaves))
        else if g.next == |doc| then Stopped(AtEnd(doc, enc))
        else ReadValue(doc, g.next, if White(g.text) then children else children + [Text(g.text)], enc)
  {
    hide SkipWhite, ReadCondensed, White, ReadNode, Matches;
  }

  /** A text does not begin with what would be skipped. */
  lemma TextStops(doc: string, p: nat, v: string, enc: Encoding)
    requires Complete(v, enc) && !White(v) && !Marked(v, Lead(v), enc) && Matches(doc, p, Encode(v, Lead(v)))
    ensures Stops(doc, p, enc)
  {
    hide White, Complete, Encode, Lead, Matches, Written, UnitEnd;
    var k := Lead(v);
    NotWhiteLead(v);
    LeadIsNoBlank(v);
    EncodeUnit(v, k, "", enc);
    UnitIs(v, k, enc);
    var j := UnitEnd(v, k, enc);
    assert Encode(v, k) + "" == Encode(v, k);
    MatchesSplit(doc, p, Written(v, k, enc), Encode(v, j) + "");
    UnitRead(doc, p, v, k, enc);
    if Marked(doc, p, enc) {
      if !Wide(v, k, enc) {
        NarrowFirst(v, k, enc);
        assert false;
      }
      MarkLies(doc, p, v, k);
    }
  }

  lemma LeadIsNoBlank(v: string)
    requires Lead(v) < |v|
    ensures v[Lead(v)] != ' '
  {
  }

  lemma NarrowFirst(v: string, k: nat, enc: Encoding)
    requires Complete(v, enc) && k < |v| && enc == Utf8 && !Wide(v, k, enc)
    ensures Written(v, k, enc) != [] && Written(v, k, enc)[0] != 0xef as char
  {
  }

  lemma MarkLies(doc: string, p: nat, v: string, k: nat)
    requires k < |v| && CharLength(v[k]) > 1 && Full(v, k) && Matches(doc, p, v[k..k + CharLength(v[k])])
    ensures ByteOrderMark(doc, p) ==> ByteOrderMark(v, k)
  {
    var u := v[k..k + CharLength(v[k])];
    MatchesAt(doc, p, u, 0);
    MatchesAt(doc, p, u, 1);
    if |u| > 2 {
      MatchesAt(doc, p, u, 2);
    }
  }

  // ----- Other markup -----------------------------------------------------------------------

  /** A mark that cannot begin in what is before it and end in itself. */
  predicate EndMark(mark: string) {
    mark == ">" || mark == "-->" || mark == "]]>"
  }

  lemma NoEarlier(doc: string, p: nat, v: string, mark: string, k: nat)
    requires EndMark(mark) && Matches(doc, p, v + mark) && Without(v, mark) && p <= k < p + |v|
    ensures !Matches(doc, k, mark)
  {
    MatchesFits(doc, p, v + mark);
    MatchesSplit(doc, p, v, mark);
    if Matches(doc, k, mark) {
      var n := |mark|;
      if k + n <= p + |v| {
        MatchesSlice(doc, p, v);
        MatchesSlice(doc, k, mark);
        SliceOfSlice(doc, p, v, k, n);
        MatchesIs(v, k - p, mark);
      } else {
        MatchesAt(doc, k, mark, n - 1);
        MatchesAt(doc, p + |v|, mark, k + n - 1 - (p + |v|));
      }
      assert false;
    }
  }

  lemma {:induction false} SeekIs(doc: string, p: nat, q: nat, mark: string)
    requires p <= q && Matches(doc, q, mark) && q < |doc| && forall k | p <= k < q :: !Matches(doc, k, mark)
    ensures Seek(doc, p, mark) == q
    decreases q - p
  {
    if p < q {
      SeekIs(doc, p + 1, q, mark);
    }
  }

  lemma EnclosedIs(doc: string, p: nat, v: string, mark: string)
    requires EndMark(mark) && Matches(doc, p, v + mark) && Without(v, mark)
    ensures p <= |doc| && Seek(doc, p, mark) == p + |v| && Enclosed(doc, p, mark) == v
    ensures Behind(doc, Seek(doc, p, mark), mark) == p + |v| + |mark|
  {
    hide Matches, Without, Seek;
    MatchesFits(doc, p, v + mark);
    MatchesSplit(doc, p, v, mark);
    forall k | p <= k < p + |v| ensures !Matches(doc, k, mark) {
      NoEarlier(doc, p, v, mark, k);
    }
    SeekIs(doc, p, p + |v|, mark);
    MatchesSlice(doc, p, v);
  }

  lemma SliceOfSlice(doc: string, p: nat, v: string, k: nat, n: nat)
    requires p + |v| <= |doc| && doc[p..p + |v|] == v && p <= k && k + n <= p + |v|
    ensures v[k - p..k - p + n] == doc[k..k + n]
  {
    var a, b := v[k - p..k - p + n], doc[k..k + n];
    forall i | 0 <= i < n ensures a[i] == b[i] {
      assert doc[p..p + |v|][k - p + i] == doc[k + i];
    }
  }

  lemma MatchesSlice(doc: string, p: nat, s: string)
    requires Matches(doc, p, s)
    ensures p + |s| <= |doc| && doc[p..p + |s|] == s
  {
  }

  /** What begins like other markup in a document does so in an unknown tag itself, because no markup begins
      with a '>'. */
  lemma OpensWithin(doc: string, q: nat, v: string, s: string)
    requires Matches(doc, q, "<" + v + ">") && '>' !in s && '>' !in v
    ensures Matches(doc, q, s) ==> Matches("<" + v, 0, s)
    ensures MatchesFold(doc, q, s) ==> MatchesFold("<" + v, 0, s)
  {
    hide MatchesFold, Matches;
    var t := "<" + v + ">";
    MatchesFits(doc, q, t);
    MatchesAt(doc, q, t, |t| - 1);
    EndsBefore(doc, q, s, |t| - 1);
    MatchesSlice(doc, q, t);
    if Matches(doc, q, s) {
      MatchesSlice(doc, q, s);
      SliceOfSlice(doc, q, t, q, |s|);
      assert t[0..|s|] == ("<" + v)[0..|s|];
      MatchesIs("<" + v, 0, s);
    }
    if MatchesFold(doc, q, s) {
      SliceOfSlice(doc, q, t, q, |t| - 1);
      assert t[0..|t| - 1] == "<" + v;
      FoldWithin(doc, q, "<" + v, s);
    }
  }

  /** What has no '>' in it ends where one is. */
  lemma EndsBefore(doc: string, q: nat, s: string, n: nat)
    requires q + n < |doc| && doc[q + n] == '>' && '>' !in s
    ensures Matches(doc, q, s) || MatchesFold(doc, q, s) ==> |s| <= n
  {
    hide Matches, MatchesFold;
    if Matches(doc, q, s) && n < |s| {
      MatchesAt(doc, q, s, n);
      assert false;
    } else if MatchesFold(doc, q, s) && n < |s| {
      FoldAt(doc, q, s, n);
      assert false;
    }
  }

  lemma FoldAt(doc: string, q: nat, s: string, n: nat)
    requires MatchesFold(doc, q, s) && n < |s|
    ensures doc[q + n] == '>' ==> '>' in s
  {
    assert Lower(doc[q + n]) == Lower(s[n]);
  }

  lemma FoldWithin(doc: string, q: nat, t: string, s: string)
    requires |s| <= |t| && q + |t| <= |doc| && doc[q..q + |t|] == t && MatchesFold(doc, q, s)
    ensures MatchesFold(t, 0, s)
  {
    forall i | 0 <= i < |s| ensures Lower(t[0 + i]) == Lower(s[i]) {
      assert doc[q..q + |t|][i] == doc[q + i];
    }
  }

  lemma UnknownOpens(doc: string, q: nat, v: string)
    requires Matches(doc, q, "<" + v + ">") && Formed(Unknown(v))
    ensures q < |doc| && doc[q] == '<' && StartsUnknown(doc, q)
    ensures Matches(doc, q, "</") ==> Matches(v, 0, "/")
  {
    hide Matches, MatchesFold;
    var t := "<" + v + ">";
    MatchesFits(doc, q, t);
    MatchesAt(doc, q, t, 0);
    MatchesAt(doc, q, t, 1);
    OpensWithin(doc, q, v, "<?xml");
    OpensWithin(doc, q, v, "<!--");
    OpensWithin(doc, q, v, "<![CDATA[");
    OpensWithin(doc, q, v, "</");
    if Matches("<" + v, 0, "</") {
      MatchesSlice("<" + v, 0, "</");
      assert v[0..1] == ("<" + v)[1..2] == "/";
      MatchesIs(v, 0, "/");
    }
  }

  /** `Parse` of a comment, CDATA or an unknown tag. */
  lemma MarkupParsed(doc: string, q: nat, n: Node, style: Style, depth: nat, enc: Encoding)
    requires n.Comment? || n.CData? || n.Unknown?
    requires Formed(n) && Matches(doc, q, Content(n, style, depth))
    ensures q < |doc| && doc[q] == '<' && !StartsElement(doc, q)
    ensures ReadMarkup(doc, q, enc) == Parsed(q + |Content(n, style, depth)|, n)
    ensures Matches(doc, q, "</") ==> n.Unknown? && Matches(n.value, 0, "/")
  {
    hide Matches, MatchesFold, Without, Seek, Behind, Enclosed;
    var v := n.value;
    MatchesFits(doc, q, Content(n, style, depth));
    if n.Unknown? {
      UnknownOpens(doc, q, v);
      assert "<" + v + ">" == "<" + (v + ">");
      MatchesSplit(doc, q, "<", v + ">");
      NoCharacterIn(v, '>');
      EnclosedIs(doc, q + 1, v, ">");
    } else {
      var open, mark := if n.Comment? then "<!--" else "<![CDATA[", if n.Comment? then "-->" else "]]>";
      assert Content(n, style, depth) == open + (v + mark);
      MatchesSplit(doc, q, open, v + mark);
      MatchesAt(doc, q, open, 0);
      MatchesAt(doc, q, open, 1);
      NotDeclared(doc, q);
      if n.CData? {
        MatchesAt(doc, q, open, 2);
        NotComment(doc, q);
      }
      NotEnd(doc, q);
      EnclosedIs(doc, q + |open|, v, mark);
    }
  }

  lemma NoCharacterIn(s: string, c: char)
    requires c !in s
    ensures Without(s, [c])
  {
    forall k: nat | k <= |s| ensures !Matches(s, k, [c]) {
      if Matches(s, k, [c]) {
        MatchesAt(s, k, [c], 0);
        assert false;
      }
    }
  }

  lemma NotDeclared(doc: string, q: nat)
    requires q + 1 < |doc| && doc[q + 1] == '!'
    ensures !StartsDeclaration(doc, q)
  {
    var x := "<?xml";
    assert StartsDeclaration(doc, q) ==> Lower(doc[q + 1]) == Lower(x[1]);
  }

  lemma NotComment(doc: string, q: nat)
    requires q + 2 < |doc| && doc[q + 2] == '['
    ensures !Matches(doc, q, "<!--")
  {
    if Matches(doc, q, "<!--") {
      MatchesAt(doc, q, "<!--", 2);
      assert false;
    }
  }

  lemma NotEnd(doc: string, q: nat)
    requires q + 1 < |doc| && doc[q + 1] == '!'
    ensures !Matches(doc, q, "</")
  {
    if Matches(doc, q, "</") {
      MatchesAt(doc, q, "</", 1);
      assert false;
    }
  }

  // ----- Elements ---------------------------------------------------------------------------

  /** A start tag, up to its attributes. */
  lemma TagOpened(doc: string, p: nat, name: string, tag: string, enc: Encoding)
    requires ValidName(name) && !Marked(name, 0, enc) && tag != [] && !IsNameChar(tag[0])
    requires Matches(doc, p, "<" + (name + tag))
    ensures p + 1 + |name| < |doc| && doc[p] == '<'
    ensures SkipWhite(doc, p, enc) == p && SkipWhite(doc, p + 1, enc) == p + 1
    ensures ReadName(doc, p + 1) == Some(p + 1 + |name|) && doc[p + 1..p + 1 + |name|] == name
    ensures Matches(doc, p + 1 + |name|, tag) && StartsElement(doc, p) && !Matches(doc, p, "</")
  {
    hide ValidName, ReadName, Matches, SkipWhite, Marked;
    MatchesSplit(doc, p, "<", name + tag);
    MatchesSplit(doc, p + 1, name, tag);
    MatchesFits(doc, p + 1 + |name|, tag);
    MatchesAt(doc, p, "<", 0);
    MatchesAt(doc, p + 1 + |name|, tag, 0);
    StopsAt(doc, p, enc);
    SkipNone(doc, p, enc);
    NameRead(doc, p + 1, name, enc);
    NameStarts(doc, p + 1, name);
    if Matches(doc, p, "</") {
      MatchesAt(doc, p, "</", 1);
    }
  }

  lemma NameStarts(doc: string, p: nat, name: string)
    requires ValidName(name) && Matches(doc, p, name)
    ensures p < |doc| && IsNameStart(doc[p])
  {
    MatchesAt(doc, p, name, 0);
  }

  /** What follows the name of an element. */
  function AfterName(e: Node, style: Style, depth: nat): string
    requires e.Element?
  {
    PrintAttributes(e.attributes) +
    if e.children == [] then " />" else ">" + (Inner(e.children, style, depth) + ("</" + (e.name + ">")))
  }

  lemma BodyIs(e: Node, style: Style, depth: nat)
    requires e.Element?
    ensures Body(e, style, depth) == "<" + (e.name + AfterName(e, style, depth))
    ensures AfterName(e, style, depth) != [] && !IsNameChar(AfterName(e, style, depth)[0])
  {
    hide Inner, PrintAttribute;
    var a := PrintAttributes(e.attributes);
    if e.children == [] {
      assert "<" + e.name + a + " />" == "<" + (e.name + (a + " />"));
    } else {
      var i := Inner(e.children, style, depth);
      assert ">" + i + "</" + e.name + ">" == ">" + (i + ("</" + (e.name + ">")));
      var tail := ">" + i + "</" + e.name + ">";
      assert "<" + e.name + a + tail == "<" + (e.name + (a + tail));
    }
  }

  lemma EndTagParsed(doc: string, p: nat, name: string, enc: Encoding)
    requires Matches(doc, p, "</" + (name + ">"))
    ensures Matches(doc, p, "</") && ReadEnd(doc, p, name, enc) == Some(p + |name| + 3)
  {
    var q := p + 2 + |name|;
    assert "</" + (name + ">") == ("</" + name) + ">";
    MatchesSplit(doc, p, "</" + name, ">");
    MatchesSplit(doc, p, "</", name + ">");
    MatchesAt(doc, q, ">", 0);
    StopsAt(doc, q, enc);
    SkipNone(doc, q, enc);
  }

  lemma RegroupTag(a: string, inner: string)
    ensures a + (">" + inner) == (a + ">") + inner
  {
  }

  /** The parts of a well-formed element. */
  lemma ElementParts(e: Node, enc: Encoding)
    requires e.Element? && Sound(e, enc)
    ensures ValidName(e.name) && !Marked(e.name, 0, enc) && Siblings(e.children, enc)
    ensures forall a | a in e.attributes :: Readable(a, enc)
    ensures forall i, j | 0 <= i < j < |e.attributes| :: e.attributes[i].name != e.attributes[j].name
  {
  }

  lemma AttributesParsed(doc: string, p: nat, e: Node, tail: string, enc: Encoding)
    requires e.Element? && Sound(e, enc) && TagEnd(tail) && Matches(doc, p, PrintAttributes(e.attributes) + tail)
    ensures p <= |doc|
    ensures ReadTag(doc, p, [], enc) ==
      TagAgain(e.attributes, [], tail, p + |PrintAttributes(e.attributes) + tail|, enc)
  {
    hide ReadTag, Matches, PrintAttributes, Readable, Sound, TagAgain, Siblings;
    ElementParts(e, enc);
    TagParsed(doc, p, e.attributes, tail, [], enc);
  }

  lemma TagAgainIs(e: Node, tail: string, q: nat, enc: Encoding)
    requires e.Element? && TagEnd(tail)
    ensures TagAgain(e.attributes, [], tail, q, enc) ==
      if AttributesAgain(e.attributes, enc) == None then BadTag(false)
      else if tail == ">" then Open(q, AttributesAgain(e.attributes, enc).value)
      else Closed(q, AttributesAgain(e.attributes, enc).value)
  {
    hide AttributesAgain;
    if AttributesAgain(e.attributes, enc).Some? {
      assert [] + AttributesAgain(e.attributes, enc).value == AttributesAgain(e.attributes, enc).value;
    }
  }

  /** An element without children. */
  lemma EmptyParsed(doc: string, p: nat, e: Node, style: Style, depth: nat, enc: Encoding)
    requires e.Element? && Sound(e, enc) && e.children == [] && Matches(doc, p, Body(e, style, depth))
    ensures ReadElement(doc, p, enc) == OutcomeAgain(e, p + |Body(e, style, depth)|, enc)
  {
    hide ReadTag, ReadName, SkipWhite, Matches, PrintAttributes, Body, StartsElement, ValidName, Readable, TagAgain,
      AttributesAgain, ReadValue, Sound, Marked;
    BodyIs(e, style, depth);
    ElementParts(e, enc);
    TagOpened(doc, p, e.name, AfterName(e, style, depth), enc);
    var at := p + 1 + |e.name|;
    AttributesParsed(doc, at, e, " />", enc);
    TagAgainIs(e, " />", at + |PrintAttributes(e.attributes) + " />"|, enc);
    assert NodesAgain(e.children, enc) == Some([]);
  }

  /** The start tag of an element with children. */
  lemma OpenParsed(doc: string, p: nat, e: Node, style: Style, depth: nat, enc: Encoding)
    requires e.Element? && Sound(e, enc) && e.children != [] && Matches(doc, p, Body(e, style, depth))
    ensures var at := p + 1 + |e.name|; var next := at + |PrintAttributes(e.attributes) + ">"|;
      && at < |doc| && doc[p] == '<' && SkipWhite(doc, p, enc) == p && SkipWhite(doc, p + 1, enc) == p + 1
      && ReadName(doc, p + 1) == Some(at) && doc[p + 1..at] == e.name
      && ReadTag(doc, at, [], enc) == TagAgain(e.attributes, [], ">", next, enc)
      && Matches(doc, next, Inner(e.children, style, depth) + ("</" + (e.name + ">")))
      && next + |Inner(e.children, style, depth)| + |e.name| + 3 == p + |Body(e, style, depth)|
  {
    hide ReadTag, ReadName, SkipWhite, Matches, PrintAttributes, Body, StartsElement, ValidName, Readable, Inner,
      TagAgain, Sound, Marked, Siblings;
    BodyIs(e, style, depth);
    ElementParts(e, enc);
    TagOpened(doc, p, e.name, AfterName(e, style, depth), enc);
    var at, a := p + 1 + |e.name|, PrintAttributes(e.attributes);
    var inner := Inner(e.children, style, depth) + ("</" + (e.name + ">"));
    RegroupTag(a, inner);
    MatchesSplit(doc, at, a + ">", inner);
    AttributesParsed(doc, at, e, ">", enc);
  }

  /** `TiXmlElement::Parse`, put together. */
  lemma ElementFrom(doc: string, p: nat, e: Node, at: nat, next: nat, end: nat, past: nat, enc: Encoding)
    requires e.Element? && p < |doc| && doc[p] == '<'
    requires SkipWhite(doc, p, enc) == p && SkipWhite(doc, p + 1, enc) == p + 1
    requires p + 1 <= at <= |doc| && ReadName(doc, p + 1) == Some(at) && doc[p + 1..at] == e.name
    requires ReadTag(doc, at, [], enc) == TagAgain(e.attributes, [], ">", next, enc)
    requires AttributesAgain(e.attributes, enc).Some? ==>
      next <= |doc| && ReadValue(doc, next, [], enc) == InsideAgain(e.children, [], end, enc)
    requires end <= |doc| && ReadEnd(doc, end, e.name, enc) == Some(past)
    ensures ReadElement(doc, p, enc) == OutcomeAgain(e, past, enc)
  {
    hide ReadTag, ReadName, SkipWhite, ReadValue, ReadEnd, TagAgain, AttributesAgain, NodesAgain;
    TagAgainIs(e, ">", next, enc);
    if NodesAgain(e.children, enc).Some? {
      assert [] + NodesAgain(e.children, enc).value == NodesAgain(e.children, enc).value;
    }
  }

  /** `TiXmlElement::Parse` of a printed element. */
  lemma {:induction false} BodyParsed(doc: string, p: nat, e: Node, style: Style, depth: nat, enc: Encoding)
    requires White(style.indent) && White(style.lineBreak)
    requires e.Element? && Sound(e, enc) && Matches(doc, p, Body(e, style, depth))
    ensures ReadElement(doc, p, enc) == OutcomeAgain(e, p + |Body(e, style, depth)|, enc)
    decreases e, 0
  {
    hide ReadTag, ReadName, SkipWhite, Matches, PrintAttributes, Body, ValidName, Readable, Inner, ReadValue;
    hide ReadEnd, Laid, TagAgain, AttributesAgain, NodesAgain, InsideAgain, OutcomeAgain, Sound, Formed;
    hide ReadElement, Marked, Siblings, White;
    if e.children == [] {
      EmptyParsed(doc, p, e, style, depth, enc);
    } else {
      OpenParsed(doc, p, e, style, depth, enc);
      ElementParts(e, enc);
      var at := p + 1 + |e.name|;
      var next := at + |PrintAttributes(e.attributes) + ">"|;
      var inner := Inner(e.children, style, depth);
      var end := next + |inner|;
      SiblingsFormed(e.children, enc);
      InnerLaid(doc, next, e.children, style, depth, e.name + ">");
      MatchesSplit(doc, next, inner, "</" + (e.name + ">"));
      MatchesFits(doc, end, "</" + (e.name + ">"));
      EndTagParsed(doc, end, e.name, enc);
      ValueParsed(doc, next, e.children, style, depth + 1, end, [], enc);
      ElementFrom(doc, p, e, at, next, end, p + |Body(e, style, depth)|, enc);
    }
  }

  lemma SiblingsFormed(nodes: seq<Node>, enc: Encoding)
    requires Siblings(nodes, enc)
    ensures forall n | n in nodes :: Formed(n)
  {
    hide Formed, CompleteTree;
  }

  /** `Parse` of any printed node but a text. */
  lemma NodeParsed(doc: string, q: nat, n: Node, style: Style, depth: nat, enc: Encoding)
    requires White(style.indent) && White(style.lineBreak) && !n.Text? && Sound(n, enc)
    requires Matches(doc, q, Content(n, style, depth))
    ensures q < |doc| && doc[q] == '<'
    ensures ReadNode(doc, q, enc) == OutcomeAgain(n, q + |Content(n, style, depth)|, enc)
    ensures Matches(doc, q, "</") ==> n.Unknown? && Matches(n.value, 0, "/")
    decreases n, 1
  {
    hide Body, Matches, ReadElement, ReadMarkup, StartsElement, Formed, CompleteTree, White, PrintDeclaration;
    if n.Element? {
      BodyParsed(doc, q, n, style, depth, enc);
      ElementStarts(doc, q, n, style, depth, enc);
    } else if n.Declaration? {
      DeclarationParsed(doc, q, n, style, depth, enc);
    } else {
      MarkupParsed(doc, q, n, style, depth, enc);
    }
  }

  lemma ElementStarts(doc: string, p: nat, e: Node, style: Style, depth: nat, enc: Encoding)
    requires e.Element? && Sound(e, enc) && Matches(doc, p, Body(e, style, depth))
    ensures p < |doc| && doc[p] == '<' && StartsElement(doc, p) && !Matches(doc, p, "</")
  {
    hide Body, Matches, ValidName, Readable, Siblings, Sound, Marked;
    BodyIs(e, style, depth);
    ElementParts(e, enc);
    TagOpened(doc, p, e.name, AfterName(e, style, depth), enc);
  }

  lemma ShownIs(n: Node, style: Style, depth: nat, enc: Encoding)
    ensures n.Text? ==> n == Text(n.value) && Shown(n, style, depth) == Encode(n.value, Lead(n.value))
    ensures n.Text? ==>
      Again(n, enc) == if Squeeze(n.value, enc) == None then None else Some(Text(Squeeze(n.value, enc).value))
    ensures n.Text? && Sound(n, enc) ==>
      Complete(n.value, enc) && !White(n.value) && !Marked(n.value, Lead(n.value), enc)
    ensures !n.Text? ==> Shown(n, style, depth) == Content(n, style, depth)
    ensures !n.Text? && Again(n, enc).Some? ==> Unless(Again(n, enc).value) == [Again(n, enc).value]
  {
    hide Squeeze, NodesAgain, AttributesAgain, Content, Complete, White, Lead;
  }

  /** What the children of a well-formed element are. */
  predicate Siblings(nodes: seq<Node>, enc: Encoding) {
    Apart(nodes) && NoEndTag(nodes) && forall n | n in nodes :: Sound(n, enc)
  }

  lemma SiblingsSplit(nodes: seq<Node>, enc: Encoding)
    requires Siblings(nodes, enc) && nodes != []
    ensures Sound(nodes[0], enc) && Siblings(nodes[1..], enc)
    ensures nodes[0].Unknown? ==> !Matches(nodes[0].value, 0, "/")
  {
    hide Sound, Matches;
  }

  lemma ApartText(nodes: seq<Node>)
    requires Apart(nodes) && nodes != [] && nodes[0].Text?
    ensures nodes[1..] == [] || !nodes[1..][0].Text?
  {
    if |nodes| > 1 {
      assert !(nodes[0].Text? && nodes[0 + 1].Text?);
    }
  }

  lemma LaidFirst(doc: string, p: nat, nodes: seq<Node>, style: Style, depth: nat, end: nat)
    requires p <= |doc| && nodes != [] && Laid(doc, p, nodes, style, depth, end)
    ensures var q, c := SkipWhite(doc, p), Shown(nodes[0], style, depth);
      Matches(doc, q, c) && q + |c| <= |doc| && Laid(doc, q + |c|, nodes[1..], style, depth, end)
  {
    hide Shown, SkipWhite;
  }

  /** Where reading goes on behind a node. */
  function Next(doc: string, p: nat, n: Node, style: Style, depth: nat): nat
    requires p <= |doc| && Matches(doc, SkipWhite(doc, p), Shown(n, style, depth))
  {
    var r := SkipWhite(doc, p) + |Shown(n, style, depth)|;
    if n.Text? then SkipWhite(doc, r) else r
  }

  /** Reading the first of some nodes comes to what it should, and goes on at place r with the others. */
  predicate FirstRead(doc: string, p: nat, r: nat, nodes: seq<Node>, style: Style, depth: nat, end: nat,
                      done: seq<Node>, enc: Encoding)
    requires p <= |doc| && nodes != []
  {
    && r <= |doc| && Laid(doc, r, nodes[1..], style, depth, end)
    && ReadValue(doc, p, done, enc) ==
      if Again(nodes[0], enc) == None then Stopped(Error)
      else ReadValue(doc, r, done + Unless(Again(nodes[0], enc).value), enc)
  }

  /** A text among nodes that lie in the document. */
  lemma TextStep(doc: string, p: nat, nodes: seq<Node>, style: Style, depth: nat, end: nat, done: seq<Node>,
                 enc: Encoding)
    requires p <= |doc| && Laid(doc, p, nodes, style, depth, end) && end < |doc| && doc[end] == '<'
    requires nodes != [] && nodes[0].Text? && Siblings(nodes, enc)
    requires Matches(doc, SkipWhite(doc, p), Shown(nodes[0], style, depth))
    ensures FirstRead(doc, p, Next(doc, p, nodes[0], style, depth), nodes, style, depth, end, done, enc)
  {
    hide SkipWhite, Matches, Sound, Encode, ReadValue, Squeeze, Laid, Apart, Shown, Lead, Again, Unless, NoEndTag,
      Stops, Complete, White, Marked, Formed;
    var q, c := SkipWhite(doc, p), Shown(nodes[0], style, depth);
    LaidFirst(doc, p, nodes, style, depth, end);
    ApartText(nodes);
    SiblingsFormed(nodes, enc);
    if nodes[1..] != [] {
      assert nodes[1..][0] in nodes;
    }
    NextStarts(doc, q + |c|, nodes[1..], style, depth, end);
    assert Sound(nodes[0], enc);
    ShownIs(nodes[0], style, depth, enc);
    TextParsed(doc, q, nodes[0].value, done, enc);
    SkipTwice(doc, q + |c|);
    LaidLater(doc, q + |c|, SkipWhite(doc, q + |c|), nodes[1..], style, depth, end);
    ValueLater(doc, p, done, enc);
  }

  lemma OtherStep(doc: string, p: nat, nodes: seq<Node>, style: Style, depth: nat, end: nat, done: seq<Node>,
                  enc: Encoding)
    requires p <= |doc| && Laid(doc, p, nodes, style, depth, end) && nodes != [] && !nodes[0].Text?
    requires var q, c := SkipWhite(doc, p), Content(nodes[0], style, depth);
      && Matches(doc, q, c) && q < |doc| && doc[q] == '<' && !Matches(doc, q, "</")
      && ReadNode(doc, q, enc) == OutcomeAgain(nodes[0], q + |c|, enc)
    ensures Matches(doc, SkipWhite(doc, p), Shown(nodes[0], style, depth))
    ensures FirstRead(doc, p, Next(doc, p, nodes[0], style, depth), nodes, style, depth, end, done, enc)
  {
    hide SkipWhite, Matches, Content, ReadValue, ReadNode, Again, Laid, Shown, Unless, OutcomeAgain;
    ShownIs(nodes[0], style, depth, enc);
    LaidFirst(doc, p, nodes, style, depth, end);
    NodeStep(doc, p, nodes[0], SkipWhite(doc, p) + |Content(nodes[0], style, depth)|, done, enc);
  }

  /** Another node among nodes that lie in the document, if it is parsed as it should be. */
  lemma NodeStep(doc: string, p: nat, n: Node, next: nat, done: seq<Node>, enc: Encoding)
    requires p <= |doc| && !n.Text? && SkipWhite(doc, p) < |doc| && doc[SkipWhite(doc, p)] == '<'
    requires !Matches(doc, SkipWhite(doc, p), "</")
    requires ReadNode(doc, SkipWhite(doc, p), enc) == OutcomeAgain(n, next, enc)
    ensures ReadValue(doc, p, done, enc) ==
      if Again(n, enc) == None then Stopped(Error) else ReadValue(doc, next, done + [Again(n, enc).value], enc)
  {
    hide SkipWhite, ReadNode, Matches, Again, ReadCondensed;
    StopsAt(doc, SkipWhite(doc, p), enc);
    SkipSame(doc, p, enc);
  }

  /** `TiXmlElement::ReadValue` of nodes that lie in the document. */
  lemma {:induction false} ValueParsed(doc: string, p: nat, nodes: seq<Node>, style: Style, depth: nat, end: nat,
                                       done: seq<Node>, enc: Encoding)
    requires White(style.indent) && White(style.lineBreak)
    requires p <= |doc| && Laid(doc, p, nodes, style, depth, end) && Matches(doc, end, "</")
    requires Siblings(nodes, enc)
    ensures ReadValue(doc, p, done, enc) == InsideAgain(nodes, done, end, enc)
    decreases nodes, 1
  {
    hide SkipWhite, Matches, Sound, Content, ReadValue, Again, InsideAgain, Laid, Shown, Unless, Siblings, White, Next,
      OutcomeAgain, ReadNode;
    MatchesFits(doc, end, "</");
    MatchesAt(doc, end, "</", 0);
    AgainSplit(done, nodes, end, enc);
    if nodes == [] {
      EndReached(doc, p, nodes, style, depth, end, done, enc);
    } else {
      var n := nodes[0];
      LaidFirst(doc, p, nodes, style, depth, end);
      SiblingsSplit(nodes, enc);
      if n.Text? {
        TextStep(doc, p, nodes, style, depth, end, done, enc);
      } else {
        ShownIs(n, style, depth, enc);
        NodeParsed(doc, SkipWhite(doc, p), n, style, depth, enc);
        OtherStep(doc, p, nodes, style, depth, end, done, enc);
      }
      if Again(n, enc).Some? {
        ValueParsed(doc, Next(doc, p, n, style, depth), nodes[1..], style, depth, end,
                    done + Unless(Again(n, enc).value), enc);
      }
    }
  }

  lemma EndReached(doc: string, p: nat, nodes: seq<Node>, style: Style, depth: nat, end: nat, done: seq<Node>,
                   enc: Encoding)
    requires p <= |doc| && nodes == [] && Laid(doc, p, nodes, style, depth, end)
    requires end < |doc| && doc[end] == '<' && Matches(doc, end, "</")
    ensures ReadValue(doc, p, done, enc) == Children(end, done)
  {
    hide SkipWhite, Matches, ReadNode, ReadCondensed;
    StopsAt(doc, end, enc);
    SkipSame(doc, p, enc);
  }

  lemma ValueLater(doc: string, p: nat, children: seq<Node>, enc: Encoding)
    requires p <= |doc| && Stops(doc, SkipWhite(doc, p), enc)
    ensures ReadValue(doc, p, children, enc) == ReadValue(doc, SkipWhite(doc, p), children, enc)
  {
    SkipSame(doc, p, enc);
    SkipNone(doc, SkipWhite(doc, p), enc);
    hide SkipWhite, Matches, ReadNode, ReadCondensed;
  }

  /** What follows a text among its siblings is a '<'. */
  lemma NextStarts(doc: string, p: nat, nodes: seq<Node>, style: Style, depth: nat, end: nat)
    requires p <= |doc| && Laid(doc, p, nodes, style, depth, end) && end < |doc| && doc[end] == '<'
    requires nodes != [] ==> Formed(nodes[0])
    ensures nodes == [] || !nodes[0].Text? ==> SkipWhite(doc, p) < |doc| && doc[SkipWhite(doc, p)] == '<'
  {
    hide SkipWhite, Shown, Matches, Formed;
    if nodes != [] {
      ShownStarts(nodes[0], style, depth);
      MatchesFits(doc, SkipWhite(doc, p), Shown(nodes[0], style, depth));
      MatchesAt(doc, SkipWhite(doc, p), Shown(nodes[0], style, depth), 0);
    }
  }

  // ----- Which strings come back unchanged --------------------------------------------------

  /** A reference is longer than what it stands for; everything else stands for itself. */
  lemma UnitShrinks(v: string, i: nat, enc: Encoding)
    requires Complete(v, enc) && i < |v|
    ensures Reference(v, i) && ReadAs(v, i, enc).Some? ==> |ReadAs(v, i, enc).value| < UnitEnd(v, i, enc) - i
    ensures !Reference(v, i) ==> ReadAs(v, i, enc) == Some(v[i..UnitEnd(v, i, enc)])
  {
    if Reference(v, i) {
      CompleteAt(v, i, enc);
      NoSemicolonBefore(v, i);
      hide DigitsBack, Complete, Character;
      assert UnitEnd(v, i, enc) == Find(v, i, ';').value + 1;
      SemicolonFound(v, i);
      ReferenceShort(v, i, Find(v, i, ';').value, enc);
    }
  }

  lemma SemicolonFound(v: string, i: nat)
    requires i < |v| && Reference(v, i) && Find(v, i, ';').Some? && Find(v, i, ';').value >= i + 3
    ensures Find(v, i + 3, ';') == Find(v, i, ';')
  {
    NoSemicolonBefore(v, i);
    hide Find;
    var k := Find(v, i, ';').value;
    assert v[k] == ';' by { FindIs(v, i); }
    FindAt(v, i + 3, ';', k - i - 3);
  }

  lemma FindIs(v: string, i: nat)
    requires i <= |v| && Find(v, i, ';').Some?
    ensures i <= Find(v, i, ';').value < |v| && v[Find(v, i, ';').value] == ';'
  {
  }

  lemma ReferenceShort(v: string, i: nat, k: nat, enc: Encoding)
    requires i + 3 <= k < |v| && Reference(v, i) && Find(v, i + 3, ';') == Some(k)
    ensures GetChar(v, i, enc).Got? ==> |GetChar(v, i, enc).text| < k + 1 - i
  {
    hide DigitsBack, Character, Find;
    var d := DigitsBack(v, i + 2, k, 16, 'x');
    if d.Some? {
      CharacterShort(d.value, enc);
      if k == i + 3 {
        assert d == Some(0) by { NoDigits(v, i + 2); }
      }
    }
  }

  lemma NoDigits(v: string, at: nat)
    requires at < |v| && v[at] == 'x'
    ensures DigitsBack(v, at, at + 1, 16, 'x') == Some(0)
  {
  }

  lemma CharacterShort(n: nat, enc: Encoding)
    ensures |Character(n, enc)| <= 4 && (n == 0 ==> |Character(n, enc)| == 1)
  {
  }

  /** From character i on no reference starts. */
  predicate PlainFrom(v: string, i: nat) {
    forall k: nat | i <= k < |v| :: !Reference(v, k)
  }

  /** Steps over a character of any kind. */
  lemma PlainStep(v: string, i: nat, enc: Encoding)
    requires Complete(v, enc) && i < |v|
    ensures PlainFrom(v, i) <==> !Reference(v, i) && PlainFrom(v, UnitEnd(v, i, enc))
    ensures v[i] != ' ' && !Reference(v, i) ==> (BlanksAlone(v, i) <==> BlanksAlone(v, UnitEnd(v, i, enc)))
    ensures v[|v| - 1] == ' ' && v[i] != ' ' && !Reference(v, i) ==> UnitEnd(v, i, enc) < |v|
  {
    UnitIs(v, i, enc);
    hide UnitEnd, Complete, ReadAs, Written;
    var j := UnitEnd(v, i, enc);
    if !Reference(v, i) {
      assert forall k | i < k < j :: v[k] >= 0x80 as char;
      assert v[i] != ' ' ==> v[j - 1] != ' ';
      forall k: nat | i <= k < |v| ensures k < j ==> !Reference(v, k) {
      }
    }
  }

  lemma UnitJoined(v: string, i: nat, j: nat, b: string)
    requires i <= j <= |v|
    ensures v[i..j] + v[j..] == v[i..] && b + v[i..j] + v[j..] == b + v[i..]
    ensures "" + v[i..] == v[i..] && "" + v[j..] == v[j..]
  {
    assert v[i..] == v[i..j] + v[j..];
  }

  /** A value is read as it is where no reference starts, and shorter where one does. */
  lemma {:induction false} KeptLength(v: string, i: nat, enc: Encoding)
    requires Complete(v, enc) && i <= |v|
    ensures if PlainFrom(v, i) then Kept(v, i, enc) == Some(v[i..])
      else Kept(v, i, enc).Some? ==> |Kept(v, i, enc).value| < |v| - i
    decreases |v| - i
  {
    hide ReadAs, UnitEnd, Complete, Reference, PlainFrom, BlanksAlone;
    if i < |v| {
      UnitShrinks(v, i, enc);
      PlainStep(v, i, enc);
      KeptLength(v, UnitEnd(v, i, enc), enc);
      UnitJoined(v, i, UnitEnd(v, i, enc), "");
    } else {
      NothingFrom(v, i);
      assert v[i..] == "";
    }
  }

  lemma KeptIsSame(v: string, enc: Encoding)
    requires Complete(v, enc)
    ensures Kept(v, 0, enc) == Some(v) <==> Plain(v)
  {
    hide Kept, Reference, Complete;
    KeptLength(v, 0, enc);
    assert v[0..] == v;
    assert PlainFrom(v, 0) <==> Plain(v);
  }

  /** Reading a text loses something of it: a reference, or a blank at its end, before another, or after one
      that went before. */
  predicate Loses(v: string, i: nat, white: bool, enc: Encoding)
    requires i <= |v|
    decreases |v| - i
  {
    if i == |v| then white
    else if Reference(v, i) then true
    else if v[i] == ' ' then white || Loses(v, i + 1, true, enc)
    else Loses(v, UnitEnd(v, i, enc), false, enc)
  }

  /** Reading a text from character i on gives what is there if nothing is lost, and less if something is. */
  predicate Squeezed(v: string, i: nat, white: bool, enc: Encoding)
    requires i <= |v|
  {
    var r, n := SqueezeFrom(v, i, white, enc), |v| - i + if white then 1 else 0;
    if Loses(v, i, white, enc) then r.Some? ==> |r.value| < n
    else r == Some((if white then " " else "") + v[i..])
  }

  lemma {:induction false} SqueezeLength(v: string, i: nat, white: bool, enc: Encoding)
    requires Complete(v, enc) && i <= |v|
    ensures Squeezed(v, i, white, enc)
    decreases |v| - i
  {
    hide Squeezed, Complete, UnitEnd;
    if i == |v| {
      NothingSqueezed(v, i, white, enc);
    } else if v[i] == ' ' {
      SqueezeLength(v, i + 1, true, enc);
      BlankSqueezed(v, i, white, enc);
    } else {
      SqueezeLength(v, UnitEnd(v, i, enc), false, enc);
      OtherSqueezed(v, i, white, enc);
    }
  }

  lemma NothingSqueezed(v: string, i: nat, white: bool, enc: Encoding)
    requires i == |v|
    ensures Squeezed(v, i, white, enc)
  {
    assert v[i..] == "" && "" + "" == "";
  }

  lemma BlankSqueezed(v: string, i: nat, white: bool, enc: Encoding)
    requires i < |v| && v[i] == ' ' && Squeezed(v, i + 1, true, enc)
    ensures Squeezed(v, i, white, enc)
  {
    hide Reference, ReadAs, UnitEnd;
    BlankIsPlain(v, i);
    UnitJoined(v, i, i + 1, if white then " " else "");
    assert v[i..i + 1] == " ";
  }

  lemma OtherSqueezed(v: string, i: nat, white: bool, enc: Encoding)
    requires Complete(v, enc) && i < |v| && v[i] != ' ' && Squeezed(v, UnitEnd(v, i, enc), false, enc)
    ensures Squeezed(v, i, white, enc)
  {
    hide Reference, ReadAs, UnitEnd, Complete, SqueezeFrom, Loses;
    UnitShrinks(v, i, enc);
    var j, b := UnitEnd(v, i, enc), if white then " " else "";
    UnitJoined(v, i, j, b);
    OtherStepped(v, i, white, enc);
    if ReadAs(v, i, enc).Some? && SqueezeFrom(v, j, false, enc).Some? {
      assert |b + ReadAs(v, i, enc).value| == |b| + |ReadAs(v, i, enc).value|;
    }
  }

  lemma OtherStepped(v: string, i: nat, white: bool, enc: Encoding)
    requires i < |v| && v[i] != ' '
    ensures SqueezeFrom(v, i, white, enc) ==
      if ReadAs(v, i, enc) == None then None
      else
        Joined((if white then " " else "") + ReadAs(v, i, enc).value, SqueezeFrom(v, UnitEnd(v, i, enc), false, enc))
    ensures Loses(v, i, white, enc) <==> Reference(v, i) || Loses(v, UnitEnd(v, i, enc), false, enc)
  {
    hide Reference, ReadAs, UnitEnd;
  }

  lemma BlankIsPlain(v: string, i: nat)
    requires i < |v| && v[i] == ' '
    ensures !Reference(v, i)
  {
  }

  predicate BlanksAlone(v: string, i: nat) {
    forall k: nat | i <= k && k + 1 < |v| :: !(v[k] == ' ' && v[k + 1] == ' ')
  }

  lemma BlankStep(v: string, i: nat)
    requires i < |v| && v[i] == ' '
    ensures BlanksAlone(v, i) <==> (i + 1 < |v| ==> v[i + 1] != ' ') && BlanksAlone(v, i + 1)
    ensures PlainFrom(v, i) <==> PlainFrom(v, i + 1)
  {
    BlankIsPlain(v, i);
    hide Reference;
  }

  /** Nothing is lost exactly when no reference starts, every blank stands alone, and another character
      follows it. */
  lemma {:induction false} LosesIs(v: string, i: nat, white: bool, enc: Encoding)
    requires Complete(v, enc) && i <= |v|
    ensures !Loses(v, i, white, enc) <==>
      && (white ==> i < |v| && v[i] != ' ') && (i < |v| ==> v[|v| - 1] != ' ')
      && BlanksAlone(v, i) && PlainFrom(v, i)
    decreases |v| - i
  {
    hide BlanksAlone, PlainFrom, Reference, UnitEnd, Complete;
    if i == |v| {
      NothingFrom(v, i);
    } else if v[i] == ' ' {
      BlankIsPlain(v, i);
      BlankStep(v, i);
      LosesIs(v, i + 1, true, enc);
    } else {
      PlainStep(v, i, enc);
      LosesIs(v, UnitEnd(v, i, enc), false, enc);
    }
  }

  lemma NothingFrom(v: string, i: nat)
    requires i == |v|
    ensures BlanksAlone(v, i) && PlainFrom(v, i)
  {
  }

  lemma CondensedIs(v: string)
    ensures Condensed(v) <==> v != [] && v[0] != ' ' && v[|v| - 1] != ' ' && BlanksAlone(v, 0)
    ensures Plain(v) <==> PlainFrom(v, 0)
  {
    hide Reference;
  }

  /** A text that is not blank is read as it is if and only if it has no references and is condensed. */
  lemma SqueezeIsSame(v: string, enc: Encoding)
    requires Complete(v, enc) && !White(v)
    ensures Squeeze(v, enc) == Some(v) <==> Plain(v) && Condensed(v)
  {
    hide White, SqueezeFrom, Loses, Condensed, BlanksAlone, PlainFrom, Complete, Plain;
    var k := Lead(v);
    CondensedIs(v);
    NotWhiteLead(v);
    SqueezeLength(v, k, false, enc);
    assert Squeezed(v, k, false, enc);
    if k > 0 {
      assert v[0] == ' ';
    } else {
      assert v[0..] == v && "" + v == v;
      LosesIs(v, 0, false, enc);
    }
  }

  // ----- Which trees come back unchanged ----------------------------------------------------

  lemma {:induction false} AttributesAreSame(attributes: seq<Attribute>, enc: Encoding)
    requires forall a | a in attributes :: Readable(a, enc)
    ensures AttributesAgain(attributes, enc) == Some(attributes) <==> forall a | a in attributes :: Plain(a.value)
    decreases |attributes|
  {
    hide Kept, Complete, Plain;
    if attributes != [] {
      var a, rest := attributes[0], attributes[1..];
      assert attributes == [a] + rest;
      assert Readable(a, enc);
      KeptIsSame(a.value, enc);
      AttributesAreSame(rest, enc);
      var first, others := AttributeAgain(a, enc), AttributesAgain(rest, enc);
      if first.Some? && others.Some? {
        assert ([first.value] + others.value)[0] == first.value && ([first.value] + others.value)[1..] == others.value;
      }
    }
  }

  predicate Unchanged(n: Node) {
    PlainTree(n) && CondensedTree(n)
  }

  lemma UnchangedIs(n: Node)
    ensures n.Text? ==> (Unchanged(n) <==> Plain(n.value) && Condensed(n.value))
    ensures n.Element? ==> (Unchanged(n) <==>
      (forall a | a in n.attributes :: Plain(a.value)) && forall c | c in n.children :: Unchanged(c))
    ensures !n.Text? && !n.Element? ==> Unchanged(n)
  {
    hide Plain, Condensed;
  }

  lemma TextAgainIsSame(s: string, enc: Encoding)
    requires Sound(Text(s), enc)
    ensures Again(Text(s), enc) == Some(Text(s)) <==> Unchanged(Text(s))
  {
    hide Squeeze, White, Complete, Plain, Condensed, Unchanged, Marked, Lead;
    ShownIs(Text(s), STREAM, 0, enc);
    SqueezeIsSame(s, enc);
    UnchangedIs(Text(s));
  }

  lemma {:induction false} AgainIsSame(n: Node, enc: Encoding)
    requires Sound(n, enc)
    ensures Again(n, enc) == Some(n) <==> Unchanged(n)
    decreases n, 0
  {
    hide Unchanged, AttributesAgain, NodesAgain, Sound, Squeeze, Complete, Apart, NoEndTag, Readable;
    UnchangedIs(n);
    match n
    case Text(s) => TextAgainIsSame(s, enc);
    case Element(_, attributes, children) =>
      ElementParts(n, enc);
      AttributesAreSame(attributes, enc);
      NodesAgainAreSame(children, enc);
    case _ =>
  }

  /** No more nodes come back than were there, and the same exactly when each does. */
  lemma {:induction false} NodesAgainAreSame(nodes: seq<Node>, enc: Encoding)
    requires forall n | n in nodes :: Sound(n, enc)
    ensures NodesAgain(nodes, enc).Some? ==> |NodesAgain(nodes, enc).value| <= |nodes|
    ensures NodesAgain(nodes, enc) == Some(nodes) <==> forall n | n in nodes :: Unchanged(n)
    decreases nodes, 1
  {
    hide Again, Unchanged, Sound, Blank;
    if nodes != [] {
      var n, rest := nodes[0], nodes[1..];
      assert nodes == [n] + rest;
      AgainIsSame(n, enc);
      NodesAgainAreSame(rest, enc);
      var first, others := Again(n, enc), NodesAgain(rest, enc);
      if first.Some? && others.Some? {
        HeadKept(first.value, others.value, n, rest);
        NotBlank(n, enc);
      }
    }
  }

  lemma {:induction false} TopAgainIsSame(nodes: seq<Node>, enc: Encoding)
    requires TopSound(nodes, enc)
    ensures TopAgain(nodes, enc) == Some(nodes) <==> forall n | n in nodes :: Unchanged(n)
    decreases |nodes|
  {
    hide Again, Unchanged, Sound, NextEncoding;
    if nodes != [] {
      var n, rest := nodes[0], nodes[1..];
      var next := NextEncoding(enc, n);
      assert nodes == [n] + rest;
      AgainIsSame(n, enc);
      TopAgainIsSame(rest, next);
      var first, others := Again(n, enc), TopAgain(rest, next);
      if first.Some? && others.Some? {
        assert ([first.value] + others.value)[0] == first.value && ([first.value] + others.value)[1..] == others.value;
      }
    }
  }

  lemma HeadKept(a: Node, r: seq<Node>, n: Node, rest: seq<Node>)
    requires |r| <= |rest|
    ensures Unless(a) + r == [n] + rest <==> !Blank(a) && a == n && r == rest
  {
    hide Blank;
    if !Blank(a) && Unless(a) + r == [n] + rest {
      assert ([a] + r)[0] == a && ([a] + r)[1..] == r;
      assert ([n] + rest)[0] == n && ([n] + rest)[1..] == rest;
    }
  }

  lemma NotBlank(n: Node, enc: Encoding)
    requires Sound(n, enc)
    ensures !Blank(n)
  {
  }

  // ----- Main results -----------------------------------------------------------------------

  /** The strings of a document are complete, each in the encoding it is read in. */
  predicate TopComplete(nodes: seq<Node>, enc: Encoding)
    decreases |nodes|
  {
    nodes == [] || (CompleteTree(nodes[0], enc) && TopComplete(nodes[1..], NextEncoding(enc, nodes[0])))
  }

  /** The nodes at the top of a document are well formed, complete, and no texts. */
  predicate TopSound(nodes: seq<Node>, enc: Encoding)
    decreases |nodes|
  {
    nodes == [] ||
    (!nodes[0].Text? && Sound(nodes[0], enc) && TopSound(nodes[1..], NextEncoding(enc, nodes[0])))
  }

  lemma {:induction false} TopIsSound(nodes: seq<Node>, enc: Encoding)
    requires TopComplete(nodes, enc) && forall n | n in nodes :: !n.Text? && Formed(n)
    ensures TopSound(nodes, enc)
    decreases |nodes|
  {
    hide CompleteTree, Formed, NextEncoding;
    if nodes != [] {
      TopIsSound(nodes[1..], NextEncoding(enc, nodes[0]));
    }
  }

  /** The nodes at the top of a document. */
  lemma {:induction false} NodesParsed(doc: string, p: nat, nodes: seq<Node>, style: Style, done: seq<Node>,
                                       enc: Encoding)
    requires White(style.indent) && White(style.lineBreak)
    requires p <= |doc| && Laid(doc, p, nodes, style, 0, |doc|) && done + nodes != [] && TopSound(nodes, enc)
    ensures ReadNodes(doc, p, done, enc) == DocumentAgain(nodes, done, enc)
    decreases |nodes|
  {
    hide SkipWhite, Matches, Sound, ReadNode, Again, DocumentAgain, Content, Shown, Laid, NextEncoding, White;
    TopSplit(done, nodes, enc);
    if nodes == [] {
      AllRead(doc, p, nodes, style, done, enc);
    } else {
      var n, q, c := nodes[0], SkipWhite(doc, p), Shown(nodes[0], style, 0);
      LaidFirst(doc, p, nodes, style, 0, |doc|);
      ShownIs(n, style, 0, enc);
      NodeParsed(doc, q, n, style, 0, enc);
      StopsAt(doc, q, enc);
      SkipSame(doc, p, enc);
      if Again(n, enc).Some? {
        SameEncoding(n, enc);
        NodesParsed(doc, q + |c|, nodes[1..], style, done + [Again(n, enc).value], NextEncoding(enc, n));
      }
    }
  }

  lemma AllRead(doc: string, p: nat, nodes: seq<Node>, style: Style, done: seq<Node>, enc: Encoding)
    requires p <= |doc| && nodes == [] && Laid(doc, p, nodes, style, 0, |doc|) && done != []
    ensures ReadNodes(doc, p, done, enc) == Document(done)
  {
    SkipSame(doc, p, enc);
    hide SkipWhite;
  }

  lemma SameEncoding(n: Node, enc: Encoding)
    requires Again(n, enc).Some?
    ensures NextEncoding(enc, Again(n, enc).value) == NextEncoding(enc, n)
  {
    hide AttributesAgain, NodesAgain, Squeeze;
  }

  /** What is printed of well-formed nodes comes back with every text condensed and every reference read,
      in any encoding, whatever the white space of indent and line break: none for stream printing, blanks
      and newlines by default. An ill-formed reference is an error. */
  lemma Reparsed(nodes: seq<Node>, style: Style, enc: Encoding)
    requires White(style.indent) && White(style.lineBreak) && nodes != [] && TopSound(nodes, enc)
    ensures Parse(PrintNodes(nodes, style, 0), enc) == DocumentAgain(nodes, [], enc)
  {
    hide Formed, CompleteTree, PrintNodes, Laid, ReadNodes, DocumentAgain, White, NextEncoding;
    var doc := PrintNodes(nodes, style, 0);
    assert doc[0..|doc|] == doc && doc + "" == doc;
    MatchesIs(doc, 0, doc + "");
    TopFormed(nodes, enc);
    PrintedLaid(doc, 0, nodes, style, 0, "");
    assert SkipWhite(doc, |doc|) == |doc|;
    NodesParsed(doc, 0, nodes, style, [], enc);
    NoByteOrderMark(doc, nodes, style, enc);
  }

  lemma {:induction false} TopFormed(nodes: seq<Node>, enc: Encoding)
    requires TopSound(nodes, enc)
    ensures forall n | n in nodes :: !n.Text? && Formed(n)
    decreases |nodes|
  {
    hide CompleteTree, Formed, NextEncoding;
    if nodes != [] {
      TopFormed(nodes[1..], NextEncoding(enc, nodes[0]));
      assert nodes == [nodes[0]] + nodes[1..];
    }
  }

  /** Of the trees whose strings are complete, exactly the faithful ones come back, in any encoding. */
  lemma RoundTripExact(nodes: seq<Node>, style: Style, enc: Encoding)
    requires White(style.indent) && White(style.lineBreak) && TopComplete(nodes, enc)
    ensures Parse(PrintNodes(nodes, style, 0), enc) == Document(nodes) <==>
      nodes != [] && forall n | n in nodes :: !n.Text? && Faithful(n)
  {
    hide Formed, TopComplete, PlainTree, CondensedTree, PrintNodes, TopAgain, Parse, White, TopSound;
    ParsedIsFormed(PrintNodes(nodes, style, 0), enc);
    if nodes != [] && forall n | n in nodes :: !n.Text? && Formed(n) {
      TopIsSound(nodes, enc);
      Reparsed(nodes, style, enc);
      TopAgainIsSame(nodes, enc);
      if TopAgain(nodes, enc).Some? {
        assert [] + TopAgain(nodes, enc).value == TopAgain(nodes, enc).value;
      }
      assert forall n | n in nodes :: Unchanged(n) <==> Faithful(n);
    }
  }

  /** A tree that is not well formed never comes back. */
  lemma OnlyFormedComesBack(nodes: seq<Node>, style: Style, enc: Encoding)
    ensures Parse(PrintNodes(nodes, style, 0), enc) == Document(nodes) ==>
      nodes != [] && forall n | n in nodes :: !n.Text? && Formed(n)
  {
    ParsedIsFormed(PrintNodes(nodes, style, 0), enc);
  }

  lemma NoByteOrderMark(doc: string, nodes: seq<Node>, style: Style, enc: Encoding)
    requires doc == PrintNodes(nodes, style, 0) && nodes != [] && !nodes[0].Text? && Formed(nodes[0])
    ensures FirstEncoding(doc, enc) == enc
  {
    hide PrintNodes, Shown, Formed;
    LineIs(nodes, style, 0, "");
    ShownStarts(nodes[0], style, 0);
    var c := Shown(nodes[0], style, 0);
    assert doc == doc + "" && Indent(style, 0) == "" && Blanks(nodes[0]) == "";
    assert doc[0] == c[0];
    if Matches(doc, 0, [0xef as char, 0xbb as char, 0xbf as char]) {
      MatchesAt(doc, 0, [0xef as char, 0xbb as char, 0xbf as char], 0);
      assert false;
    }
  }
}
