/** What the parser makes is well formed, whatever the document. */
module XmlFormed {
  import opened XmlTree
  import opened XmlParse

  lemma {:induction false} NameEndIsName(doc: string, p: nat)
    requires p <= |doc|
    ensures forall c | c in doc[p..NameEnd(doc, p)] :: IsNameChar(c)
    decreases |doc| - p
  {
    if p < |doc| && IsNameChar(doc[p]) {
      NameEndIsName(doc, p + 1);
      var e := NameEnd(doc, p + 1);
      assert doc[p..e] == [doc[p]] + doc[p + 1..e];
    }
  }

  /** What `ReadName` takes for a name is one. */
  lemma NameIsValid(doc: string, p: nat)
    requires p <= |doc| && ReadName(doc, p).Some?
    ensures ValidName(doc[p..ReadName(doc, p).value])
  {
    NameEndIsName(doc, p);
    assert doc[p..ReadName(doc, p).value][0] == doc[p];
  }

  lemma AttributeNamed(doc: string, p: nat, enc: Encoding)
    requires p <= |doc| && ReadAttribute(doc, p, enc).AttributeRead?
    ensures ValidName(ReadAttribute(doc, p, enc).attribute.name)
  {
    hide ValidName, ReadAttributeValue, ReadName;
    NameIsValid(doc, SkipWhite(doc, p, enc));
  }

  lemma {:induction false} TagFormed(doc: string, p: nat, attributes: seq<Attribute>, enc: Encoding)
    requires p <= |doc| && WellNamed(attributes)
    ensures var t := ReadTag(doc, p, attributes, enc); !t.BadTag? ==> WellNamed(t.attributes)
    decreases |doc| - p
  {
    hide ValidName, ReadAttribute, WellNamed, SkipWhite;
    var q := SkipWhite(doc, p, enc);
    if q < |doc| && doc[q] != '/' && doc[q] != '>' {
      var a := ReadAttribute(doc, q, enc);
      if a.AttributeRead? && !HasName(attributes, a.attribute.name) {
        AttributeNamed(doc, q, enc);
        NameAdded(attributes, a.attribute);
        TagFormed(doc, a.next, attributes + [a.attribute], enc);
      }
    }
  }

  lemma NameAdded(attributes: seq<Attribute>, a: Attribute)
    requires WellNamed(attributes) && ValidName(a.name) && !HasName(attributes, a.name)
    ensures WellNamed(attributes + [a])
  {
    hide ValidName;
    var more := attributes + [a];
    forall i, j | 0 <= i < j < |more| ensures more[i].name != more[j].name {
      assert attributes[i] in attributes;
    }
  }

  // ----- Other markup -----------------------------------------------------------------------

  /** What is read up to a mark has no mark in it. */
  lemma EnclosedWithout(doc: string, p: nat, mark: string)
    requires p <= |doc| && mark != []
    ensures Without(Enclosed(doc, p, mark), mark)
  {
    var q := Seek(doc, p, mark);
    var s := doc[p..q];
    forall k: nat | k <= |s| ensures !Matches(s, k, mark) {
      if Matches(s, k, mark) {
        assert doc[p + k..p + k + |mark|] == s[k..k + |mark|];
        assert Matches(doc, p + k, mark);
      }
    }
  }

  lemma NoCharacter(s: string, c: char)
    requires Without(s, [c])
    ensures c !in s
  {
    if c in s {
      var k: nat :| k < |s| && s[k] == c;
      assert s[k..k + 1] == [c];
      assert Matches(s, k, [c]);
    }
  }

  lemma MatchesPart(doc: string, q: nat, e: nat, s: string)
    requires q <= e <= |doc|
    ensures Matches(doc[q..e], 0, s) ==> Matches(doc, q, s)
    ensures MatchesFold(doc[q..e], 0, s) ==> MatchesFold(doc, q, s)
  {
    var part := doc[q..e];
    if Matches(part, 0, s) {
      assert doc[q..q + |s|] == part[0..|s|];
    }
    if MatchesFold(part, 0, s) {
      forall i | 0 <= i < |s| ensures Lower(doc[q + i]) == Lower(s[i]) {
        assert Lower(part[0 + i]) == Lower(s[i]);
      }
    }
  }

  /** An unknown tag begins with what is no other markup, to its end and without it. */
  lemma UnknownStarts(doc: string, q: nat)
    requires q < |doc| && doc[q] == '<' && StartsUnknown(doc, q)
    ensures StartsUnknown("<" + Enclosed(doc, q + 1, ">"), 0)
  {
    hide Matches, MatchesFold;
    var e := Seek(doc, q + 1, ">");
    assert "<" + Enclosed(doc, q + 1, ">") == doc[q..e];
    MatchesPart(doc, q, e, "<?xml");
    MatchesPart(doc, q, e, "<!--");
    MatchesPart(doc, q, e, "<![CDATA[");
  }

  lemma MarkupFormed(doc: string, q: nat, enc: Encoding)
    requires q < |doc| && doc[q] == '<' && !StartsElement(doc, q)
    ensures var o := ReadMarkup(doc, q, enc);
      o.Parsed? || o.Cut? ==> Formed(o.node) && !o.node.Text? && !o.node.Element?
    ensures var o := ReadMarkup(doc, q, enc);
      o.Parsed? && !Matches(doc, q, "</") && o.node.Unknown? ==> !Matches(o.node.value, 0, "/")
  {
    hide Matches, StartsDeclaration, StartsElement, Enclosed, Seek, Behind, Without, MatchesFold;
    if StartsDeclaration(doc, q) {
    } else if Matches(doc, q, "<!--") {
      MatchFits(doc, q, "<!--");
      EnclosedWithout(doc, q + 4, "-->");
    } else if Matches(doc, q, "<![CDATA[") {
      MatchFits(doc, q, "<![CDATA[");
      EnclosedWithout(doc, q + 9, "]]>");
    } else {
      EnclosedWithout(doc, q + 1, ">");
      NoCharacter(Enclosed(doc, q + 1, ">"), '>');
      UnknownStarts(doc, q);
      NoSlash(doc, q);
    }
  }

  lemma MatchFits(doc: string, p: nat, s: string)
    requires Matches(doc, p, s)
    ensures p + |s| <= |doc|
  {
  }

  lemma NoSlash(doc: string, q: nat)
    requires q < |doc| && doc[q] == '<'
    ensures Matches(Enclosed(doc, q + 1, ">"), 0, "/") ==> Matches(doc, q, "</")
  {
    var s := Enclosed(doc, q + 1, ">");
    if Matches(s, 0, "/") {
      assert s[0..1][0] == '/';
      assert doc[q..q + 2] == "</";
    }
  }

  // ----- Elements ---------------------------------------------------------------------------

  /** Children so far, and a text among them only where an end tag or another node comes next. */
  predicate SoFar(doc: string, p: nat, children: seq<Node>, enc: Encoding)
    requires p <= |doc|
  {
    && (forall c | c in children :: Formed(c)) && Apart(children) && NoEndTag(children)
    && (children != [] && children[|children| - 1].Text? ==>
          SkipWhite(doc, p, enc) < |doc| && doc[SkipWhite(doc, p, enc)] == '<')
  }

  lemma ChildAdded(doc: string, p: nat, children: seq<Node>, q: nat, n: Node, enc: Encoding)
    requires p <= |doc| && q <= |doc| && SoFar(doc, p, children, enc) && Formed(n)
    requires n.Unknown? ==> !Matches(n.value, 0, "/")
    requires n.Text? ==>
      SkipWhite(doc, p, enc) < |doc| && doc[SkipWhite(doc, p, enc)] != '<' && q < |doc| && doc[q] == '<'
    ensures SoFar(doc, q, children + [n], enc)
  {
    hide Formed, Matches;
    var more := children + [n];
    forall i: nat | i + 1 < |more| ensures !(more[i].Text? && more[i + 1].Text?) {
      if i + 1 < |children| {
        assert !(children[i].Text? && children[i + 1].Text?);
      }
    }
    if n.Text? {
      assert !ByteOrderMark(doc, q);
    }
  }

  lemma {:induction false} ElementFormed(doc: string, p: nat, enc: Encoding)
    requires p <= |doc|
    ensures var o := ReadElement(doc, p, enc); o.Parsed? ==> o.node.Element? && Formed(o.node)
    decreases |doc| - p, 0
  {
    hide ReadTag, ReadName, ReadValue, ReadEnd, ValidName, WellNamed, Apart, NoEndTag, SkipWhite;
    var q := SkipWhite(doc, p, enc);
    if q < |doc| && doc[q] == '<' && ReadName(doc, SkipWhite(doc, q + 1, enc)).Some? {
      var start := SkipWhite(doc, q + 1, enc);
      var end := ReadName(doc, start).value;
      NameIsValid(doc, start);
      var t := ReadTag(doc, end, [], enc);
      NothingNamed();
      TagFormed(doc, end, [], enc);
      if t.Open? {
        NothingSoFar(doc, t.next, enc);
        ValueFormed(doc, t.next, [], enc);
      }
    }
  }

  lemma NothingNamed()
    ensures WellNamed([]) && Apart([]) && NoEndTag([])
  {
  }

  lemma NothingSoFar(doc: string, p: nat, enc: Encoding)
    requires p <= |doc|
    ensures SoFar(doc, p, [], enc)
  {
  }

  lemma NodeFormed(doc: string, q: nat, enc: Encoding)
    requires q < |doc| && doc[q] == '<'
    ensures var o := ReadNode(doc, q, enc); o.Parsed? || o.Cut? ==> Formed(o.node) && !o.node.Text?
    ensures var o := ReadNode(doc, q, enc);
      o.Parsed? && !Matches(doc, q, "</") && o.node.Unknown? ==> !Matches(o.node.value, 0, "/")
    decreases |doc| - q, 1
  {
    hide ReadElement, ReadMarkup, Formed, Matches, StartsElement;
    if StartsElement(doc, q) {
      ElementFormed(doc, q, enc);
    } else {
      MarkupFormed(doc, q, enc);
    }
  }

  lemma {:induction false} ValueFormed(doc: string, p: nat, children: seq<Node>, enc: Encoding)
    requires p <= |doc| && SoFar(doc, p, children, enc)
    ensures var i := ReadValue(doc, p, children, enc);
      i.Children? ==> Apart(i.children) && NoEndTag(i.children) && forall c | c in i.children :: Formed(c)
    decreases |doc| - p, 2
  {
    hide ReadNode, ReadCondensed, Formed, Apart, NoEndTag, SkipWhite, Matches;
    var q := SkipWhite(doc, p, enc);
    if q < |doc| {
      if doc[q] != '<' {
        var g := ReadCondensed(doc, q, false, "", enc);
        if g.Got? && g.next < |doc| {
          TextAdded(doc, p, children, g, enc);
          ValueFormed(doc, g.next, if White(g.text) then children else children + [Text(g.text)], enc);
        }
      } else if !Matches(doc, q, "</") {
        var o := ReadNode(doc, q, enc);
        NodeFormed(doc, q, enc);
        if o.Parsed? {
          ChildAdded(doc, p, children, o.next, o.node, enc);
          ValueFormed(doc, o.next, children + [o.node], enc);
        }
      }
    }
  }

  lemma TextAdded(doc: string, p: nat, children: seq<Node>, g: Got, enc: Encoding)
    requires p <= |doc| && SoFar(doc, p, children, enc)
    requires SkipWhite(doc, p, enc) < |doc| && doc[SkipWhite(doc, p, enc)] != '<'
    requires g.Got? && g.next < |doc| && doc[g.next] == '<'
    ensures SoFar(doc, g.next, if White(g.text) then children else children + [Text(g.text)], enc)
  {
    if !White(g.text) {
      ChildAdded(doc, p, children, g.next, Text(g.text), enc);
    }
  }

  // ----- Documents --------------------------------------------------------------------------

  /** What a document is made of at its top. */
  predicate TopNode(n: Node) {
    Formed(n) && !n.Text?
  }

  lemma {:induction false} NodesFormed(doc: string, p: nat, nodes: seq<Node>, enc: Encoding)
    requires p <= |doc| && forall n | n in nodes :: TopNode(n)
    ensures var d := ReadNodes(doc, p, nodes, enc);
      d.Document? ==> d.nodes != [] && forall n | n in d.nodes :: TopNode(n)
    decreases |doc| - p
  {
    hide ReadNode, Formed, SkipWhite, NextEncoding;
    var q := SkipWhite(doc, p, enc);
    if q < |doc| && doc[q] == '<' {
      NodeFormed(doc, q, enc);
      var o := ReadNode(doc, q, enc);
      if o.Parsed? {
        NodesFormed(doc, o.next, nodes + [o.node], NextEncoding(enc, o.node));
      }
    }
  }

  /** Whatever the document and its encoding, what is parsed is a nonempty list of well-formed nodes, none of
      which is a text. */
  lemma ParsedIsFormed(doc: string, enc: Encoding)
    ensures var d := Parse(doc, enc); d.Document? ==> d.nodes != [] && forall n | n in d.nodes :: TopNode(n)
  {
    hide ReadNodes, TopNode;
    NodesFormed(doc, 0, [], FirstEncoding(doc, enc));
  }
}
