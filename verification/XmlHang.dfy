/** On which documents the parser never ends.

    `TiXmlText::Parse` returns one place before where it stopped, for the '<' it stopped at. At the end of
    the document there is no '<', and it returns the place of the last character of the text, from which
    the loop of `TiXmlElement::ReadValue` reads a text again. Unless that character is white space, this
    goes on for ever: `Hang`. */
module XmlHang {
  import opened Common
  import opened XmlTree
  import opened XmlParse

  // ----- The loop ---------------------------------------------------------------------------

  /** The text at a place can be read: its references are numbers with a semicolon, and in UTF-8 its last
      character is whole. */
  predicate Readable(doc: string, q: nat, enc: Encoding)
    requires q <= |doc|
  {
    ReadCondensed(doc, q, false, "", enc).Got?
  }

  function TextEnd(doc: string, q: nat, enc: Encoding): (e: nat)
    requires q <= |doc| && Readable(doc, q, enc)
    ensures q <= e <= |doc| && (e < |doc| ==> doc[e] == '<')
  {
    ReadCondensed(doc, q, false, "", enc).next
  }

  /** The place `TiXmlText::Parse` returns: that of the '<' the text stops at, or of its last character. */
  function TextReturns(doc: string, q: nat, enc: Encoding): (r: nat)
    requires q < |doc| && Readable(doc, q, enc)
    ensures r < |doc|
  {
    if TextEnd(doc, q, enc) < |doc| then TextEnd(doc, q, enc) else |doc| - 1
  }

  /** A document ends with a character that a text can go on with for ever: not white space, and not the
      first byte of more. */
  predicate EndsInText(doc: string, enc: Encoding) {
    doc != [] && var last := doc[|doc| - 1];
    !IsWhite(last) && last != '<' && (enc == Utf8 ==> CharLength(last) == 1)
  }

  /** Once a text has been read to the end of such a document, every text read from the place returned
      returns that place again. */
  lemma ReadAgain(doc: string, q: nat, enc: Encoding)
    requires q < |doc| && doc[q] != '<' && Readable(doc, q, enc) && TextEnd(doc, q, enc) == |doc|
    requires EndsInText(doc, enc)
    ensures var last := TextReturns(doc, q, enc);
      && SkipWhite(doc, last, enc) == last && doc[last] != '<'
      && Readable(doc, last, enc) && TextReturns(doc, last, enc) == last
  {
    var last := |doc| - 1;
    assert GetChar(doc, last, enc).Got? && GetChar(doc, last, enc).next == |doc|;
  }

  // ----- Tags -------------------------------------------------------------------------------

  /** What the tags of a document leave: the place after the last tag, the names of the elements that are
      open there, outermost first, and the encoding. */
  datatype Left = Broken | Left(at: nat, open: seq<string>, enc: Encoding)

  /** The tags from a place on, of a document in which some elements are open there. Other markup is passed
      over; a declaration outside every element may say what the encoding is. The tags are broken when a tag
      is ill-formed, an end tag does not name the innermost open element, a text between tags cannot be read
      or stands outside every element, or a declaration has no end. */
  function Tags(doc: string, p: nat, open: seq<string>, enc: Encoding): (l: Left)
    requires p <= |doc|
    ensures l.Left? ==> p <= l.at <= |doc|
    decreases |doc| - p
  {
    var q := SkipWhite(doc, p, enc);
    if q == |doc| then Left(p, open, enc)
    else if doc[q] != '<' then
      if open == [] then Broken
      else if !Readable(doc, q, enc) || TextEnd(doc, q, enc) == |doc| then Left(p, open, enc)
      else Tags(doc, TextEnd(doc, q, enc), open, enc)
    else if open != [] && Matches(doc, q, "</") then
      var past := ReadEnd(doc, q, open[|open| - 1], enc);
      if past == None then Broken else Tags(doc, past.value, open[..|open| - 1], enc)
    else if !StartsElement(doc, q) then
      var o := ReadMarkup(doc, q, enc);
      if o.Parsed? then Tags(doc, o.next, open, if open == [] then NextEncoding(enc, o.node) else enc) else Broken
    else
      var start := SkipWhite(doc, q + 1, enc);
      var end := ReadName(doc, start);
      if end == None then Broken
      else
        match ReadTag(doc, end.value, [], enc)
        case BadTag(_) => Broken
        case Closed(next, _) => Tags(doc, next, open, enc)
        case Open(next, _) => Tags(doc, next, open + [doc[start..end.value]], enc)
  }

  /** Readable text up to the end of the document, which ends with a character for ever to be read. */
  predicate TextToEnd(doc: string, p: nat, enc: Encoding)
    requires p <= |doc|
  {
    var q := SkipWhite(doc, p, enc);
    && q < |doc| && doc[q] != '<' && Readable(doc, q, enc) && TextEnd(doc, q, enc) == |doc|
    && EndsInText(doc, enc)
  }

  /** The tags leave an element open, and text goes on to the end of the document. */
  predicate Unfinished(doc: string, p: nat, open: seq<string>, enc: Encoding)
    requires p <= |doc|
  {
    var l := Tags(doc, p, open, enc);
    l.Left? && l.open != [] && TextToEnd(doc, l.at, l.enc)
  }

  /** A start tag opens an element, or passes over an empty one. */
  lemma TagsStart(doc: string, q: nat, open: seq<string>, enc: Encoding)
    requires q < |doc| && doc[q] == '<' && StartsElement(doc, q) && !Matches(doc, q, "</")
    ensures SkipWhite(doc, q, enc) == q
    ensures var start := SkipWhite(doc, q + 1, enc); var end := ReadName(doc, start);
      Tags(doc, q, open, enc) ==
      if end == None || ReadTag(doc, end.value, [], enc).BadTag? then Broken
      else
        var tag := ReadTag(doc, end.value, [], enc);
        Tags(doc, tag.next, if tag.Open? then open + [doc[start..end.value]] else open, enc)
  {
    hide ReadTag, ReadName, ReadMarkup, ReadEnd, ReadCondensed, StartsElement, Matches;
    assert SkipWhite(doc, q, enc) == q;
    hide SkipWhite;
  }

  /** Other markup is passed over. */
  lemma TagsMarkup(doc: string, q: nat, open: seq<string>, enc: Encoding)
    requires q < |doc| && doc[q] == '<' && !StartsElement(doc, q) && (open == [] || !Matches(doc, q, "</"))
    ensures var o := ReadMarkup(doc, q, enc);
      Tags(doc, q, open, enc) ==
      if o.Parsed? then Tags(doc, o.next, open, if open == [] then NextEncoding(enc, o.node) else enc) else Broken
  {
    hide ReadTag, ReadName, ReadMarkup, ReadEnd, ReadCondensed, StartsElement, Matches, NextEncoding;
    assert SkipWhite(doc, q, enc) == q;
    hide SkipWhite;
  }

  /** An end tag closes the innermost open element. */
  lemma TagsEnd(doc: string, q: nat, open: seq<string>, name: string, enc: Encoding)
    requires q < |doc| && SkipWhite(doc, q, enc) == q && Matches(doc, q, "</")
    ensures Tags(doc, q, open + [name], enc) ==
      if ReadEnd(doc, q, name, enc) == None then Broken else Tags(doc, ReadEnd(doc, q, name, enc).value, open, enc)
  {
    assert doc[q] == doc[q..q + 2][0];
    hide ReadTag, ReadName, ReadMarkup, ReadEnd, ReadCondensed, StartsElement, Matches, NextEncoding, SkipWhite;
    assert (open + [name])[..|open|] == open;
  }

  /** Text inside an element is passed over; at the end of the document it is left. */
  lemma TagsText(doc: string, p: nat, open: seq<string>, enc: Encoding)
    requires p <= |doc| && open != []
    requires SkipWhite(doc, p, enc) == |doc| || doc[SkipWhite(doc, p, enc)] != '<'
    ensures var q := SkipWhite(doc, p, enc);
      Tags(doc, p, open, enc) ==
      if q == |doc| || !Readable(doc, q, enc) || TextEnd(doc, q, enc) == |doc| then Left(p, open, enc)
      else Tags(doc, TextEnd(doc, q, enc), open, enc)
  {
    hide ReadTag, ReadName, ReadMarkup, ReadEnd, ReadCondensed, StartsElement, Matches, NextEncoding, SkipWhite;
  }

  lemma TagsLater(doc: string, p: nat, open: seq<string>, enc: Encoding)
    requires p <= |doc| && SkipWhite(doc, p, enc) < |doc| && doc[SkipWhite(doc, p, enc)] == '<'
    ensures Tags(doc, p, open, enc) == Tags(doc, SkipWhite(doc, p, enc), open, enc)
  {
    hide ReadTag, ReadName, ReadMarkup, ReadEnd, ReadCondensed, StartsElement, Matches, NextEncoding, SkipWhite;
    SkipTwice(doc, p, enc);
  }

  /** An element that is parsed leaves the tags after it; one that is not hangs if and only if the tags
      are unfinished. */
  lemma {:induction false} ElementTags(doc: string, q: nat, open: seq<string>, enc: Encoding)
    requires q < |doc| && doc[q] == '<' && StartsElement(doc, q) && !Matches(doc, q, "</")
    ensures var o := ReadElement(doc, q, enc);
      if o.Parsed? then Tags(doc, q, open, enc) == Tags(doc, o.next, open, enc)
      else o.Hang? <==> Unfinished(doc, q, open, enc)
    decreases |doc| - q, 0
  {
    hide ReadCondensed, ReadTag, ReadEnd, ReadName, ReadValue, SkipWhite, StartsElement, Matches, Tags, TextToEnd;
    TagsStart(doc, q, open, enc);
    var start := SkipWhite(doc, q + 1, enc);
    var end := ReadName(doc, start);
    if end.Some? {
      var tag := ReadTag(doc, end.value, [], enc);
      if tag.Open? {
        var name := doc[start..end.value];
        ValueTags(doc, tag.next, [], open, name, enc);
        var i := ReadValue(doc, tag.next, [], enc);
        if i.Children? {
          TagsEnd(doc, i.next, open, name, enc);
        }
      }
    }
  }

  /** The same of any node inside an element. */
  lemma NodeTags(doc: string, q: nat, open: seq<string>, enc: Encoding)
    requires q < |doc| && doc[q] == '<' && !Matches(doc, q, "</") && open != []
    ensures var o := ReadNode(doc, q, enc);
      if o.Parsed? then Tags(doc, q, open, enc) == Tags(doc, o.next, open, enc)
      else o.Hang? <==> Unfinished(doc, q, open, enc)
    decreases |doc| - q, 1
  {
    hide ReadElement, ReadMarkup, StartsElement, Matches, Tags, TextToEnd;
    if StartsElement(doc, q) {
      ElementTags(doc, q, open, enc);
    } else {
      TagsMarkup(doc, q, open, enc);
    }
  }

  lemma {:induction false} ValueTags(doc: string, p: nat, children: seq<Node>, open: seq<string>, name: string,
                                     enc: Encoding)
    requires p <= |doc|
    ensures var i := ReadValue(doc, p, children, enc);
      if i.Children? then
        && i.next < |doc| && SkipWhite(doc, i.next, enc) == i.next && Matches(doc, i.next, "</")
        && Tags(doc, p, open + [name], enc) == Tags(doc, i.next, open + [name], enc)
      else i.why.Hang? <==> Unfinished(doc, p, open + [name], enc)
    decreases |doc| - p, 2
  {
    hide ReadCondensed, ReadNode, SkipWhite, StartsElement, Matches, Tags;
    var q, o := SkipWhite(doc, p, enc), open + [name];
    if q == |doc| || doc[q] != '<' {
      TagsText(doc, p, o, enc);
      if q < |doc| && Readable(doc, q, enc) && TextEnd(doc, q, enc) < |doc| {
        var g := ReadCondensed(doc, q, false, "", enc);
        ValueTags(doc, g.next, if White(g.text) then children else children + [Text(g.text)], open, name, enc);
      }
    } else {
      TagsLater(doc, p, o, enc);
      SkipTwice(doc, p, enc);
      if !Matches(doc, q, "</") {
        NodeTags(doc, q, o, enc);
        var e := ReadNode(doc, q, enc);
        if e.Parsed? {
          ValueTags(doc, e.next, children + [e.node], open, name, enc);
        }
      }
    }
  }

  // ----- Documents --------------------------------------------------------------------------

  lemma {:induction false} NodesHang(doc: string, p: nat, nodes: seq<Node>, enc: Encoding)
    requires p <= |doc|
    ensures ReadNodes(doc, p, nodes, enc) == NoDocument(Hang) <==> Unfinished(doc, p, [], enc)
    decreases |doc| - p
  {
    hide ReadElement, ReadMarkup, SkipWhite, StartsElement, Matches, Tags, TextToEnd, NextEncoding;
    var q := SkipWhite(doc, p, enc);
    if q == |doc| || doc[q] != '<' {
      NothingOpen(doc, p, enc);
    } else {
      TagsLater(doc, p, [], enc);
      var e := ReadNode(doc, q, enc);
      if StartsElement(doc, q) {
        StartIsNoEnd(doc, q);
        ElementTags(doc, q, [], enc);
        ElementEncoding(doc, q, enc);
      } else {
        TagsMarkup(doc, q, [], enc);
      }
      if e.Parsed? {
        NodesHang(doc, e.next, nodes + [e.node], NextEncoding(enc, e.node));
      }
    }
  }

  lemma ElementEncoding(doc: string, q: nat, enc: Encoding)
    requires q <= |doc|
    ensures var o := ReadElement(doc, q, enc); o.Parsed? ==> NextEncoding(enc, o.node) == enc
  {
  }

  lemma NothingOpen(doc: string, p: nat, enc: Encoding)
    requires p <= |doc| && (SkipWhite(doc, p, enc) == |doc| || doc[SkipWhite(doc, p, enc)] != '<')
    ensures !Unfinished(doc, p, [], enc)
  {
  }

  lemma StartIsNoEnd(doc: string, q: nat)
    requires q < |doc| && StartsElement(doc, q)
    ensures !Matches(doc, q, "</")
  {
  }

  /** Parsing any document in any encoding goes on for ever if and only if its tags leave an element open and
      readable text goes on to the end of it, with a last character that is not white. */
  lemma HangsExactly(doc: string, enc: Encoding)
    ensures Parse(doc, enc) == NoDocument(Hang) <==> Unfinished(doc, 0, [], FirstEncoding(doc, enc))
  {
    hide Unfinished, ReadNodes;
    NodesHang(doc, 0, [], FirstEncoding(doc, enc));
  }

  /** A document that ends with white space is always parsed to an end. */
  lemma EndsAfterWhite(doc: string, enc: Encoding)
    requires doc != [] && IsWhite(doc[|doc| - 1])
    ensures Parse(doc, enc) != NoDocument(Hang)
  {
    hide Tags, Parse;
    HangsExactly(doc, enc);
  }

  /** An element left open, a letter, and the end of the document or a newline. */
  predicate Unclosed(doc: string, p: nat) {
    && p + 4 <= |doc| <= p + 5 && doc[p] == '<' && doc[p + 1] == 'a' && doc[p + 2] == '>' && doc[p + 3] == 'x'
    && (|doc| == p + 5 ==> doc[p + 4] == '\n')
  }

  lemma UnclosedTag(doc: string, p: nat, enc: Encoding)
    requires Unclosed(doc, p)
    ensures SkipWhite(doc, p, enc) == p && SkipWhite(doc, p + 1, enc) == p + 1 && SkipWhite(doc, p + 3, enc) == p + 3
    ensures StartsElement(doc, p) && ReadName(doc, p + 1) == Some(p + 2)
    ensures ReadTag(doc, p + 2, [], enc) == Open(p + 3, [])
  {
    hide ReadAttribute;
    assert NameEnd(doc, p + 2) == p + 2 && NameEnd(doc, p + 1) == p + 2;
    assert SkipWhite(doc, p + 2, enc) == p + 2;
  }

  lemma UnclosedElement(doc: string, p: nat, enc: Encoding)
    requires Unclosed(doc, p)
    ensures SkipWhite(doc, p, enc) == p && StartsElement(doc, p)
    ensures ReadElement(doc, p, enc) == if |doc| == p + 4 then Hang else Error
  {
    hide ReadTag, ReadName, ReadCondensed, SkipWhite, StartsElement, Matches, ReadEnd, ReadNode;
    UnclosedTag(doc, p, enc);
    UnclosedText(doc, p, enc);
    assert ReadValue(doc, p + 3, [], enc) == Stopped(if |doc| == p + 4 then Hang else Error);
  }

  lemma UnclosedText(doc: string, p: nat, enc: Encoding)
    requires Unclosed(doc, p)
    ensures ReadCondensed(doc, p + 3, false, "", enc) == Got(|doc|, "x")
  {
    assert GetChar(doc, p + 3, enc) == Got(p + 4, "x");
    assert "" + "" + "x" == "x";
    if |doc| == p + 5 {
      assert ReadCondensed(doc, p + 5, true, "x", enc) == Got(p + 5, "x");
    }
    assert ReadCondensed(doc, p + 4, false, "x", enc) == Got(|doc|, "x");
  }

  lemma NoMark(doc: string)
    requires doc != [] && doc[0] == '<'
    ensures FirstEncoding(doc, Undeclared) == Undeclared
  {
    MatchesFirst(doc, 0, [0xef as char, 0xbb as char, 0xbf as char]);
  }

  lemma MatchesFirst(doc: string, p: nat, s: string)
    requires s != [] && p < |doc|
    ensures Matches(doc, p, s) ==> doc[p] == s[0]
    ensures MatchesFold(doc, p, s) ==> Lower(doc[p]) == Lower(s[0])
  {
    if Matches(doc, p, s) {
      assert doc[p..p + |s|][0] == s[0];
    }
    assert MatchesFold(doc, p, s) ==> Lower(doc[p + 0]) == Lower(s[0]);
  }

  lemma FoldAt(doc: string, p: nat, s: string, i: nat)
    requires p + |s| <= |doc| && i < |s|
    ensures MatchesFold(doc, p, s) ==> Lower(doc[p + i]) == Lower(s[i])
  {
  }

  lemma NextNode(doc: string, q: nat, nodes: seq<Node>, enc: Encoding)
    requires q < |doc| && doc[q] == '<' && SkipWhite(doc, q, enc) == q
    ensures var o := ReadNode(doc, q, enc);
      && (o.Parsed? ==>
            ReadNodes(doc, q, nodes, enc) == ReadNodes(doc, o.next, nodes + [o.node], NextEncoding(enc, o.node)))
      && (o.Hang? || o.Error? ==> ReadNodes(doc, q, nodes, enc) == NoDocument(o))
  {
    hide ReadNode;
  }

  /** A document on which the parser hangs, and one on which it does not. */
  lemma HangsAtText()
    ensures Parse("<a>x") == NoDocument(Hang)
    ensures Parse("<a>x\n") == NoDocument(Error)
  {
    hide ReadElement, StartsElement, SkipWhite;
    NoMark("<a>x");
    NoMark("<a>x\n");
    UnclosedElement("<a>x", 0, Undeclared);
    UnclosedElement("<a>x\n", 0, Undeclared);
  }

  /** A declaration and a comment make no difference. */
  lemma HangsAfterMarkup()
    ensures Parse("<?xml?><!----><a>x") == NoDocument(Hang)
  {
    hide ReadElement, ReadMarkup, StartsElement, SkipWhite, ReadNodes;
    var doc := "<?xml?><!----><a>x";
    NoMark(doc);
    DeclarationFirst(doc);
    CommentSecond(doc);
    UnclosedElement(doc, 14, Utf8);
    var d, c := Declaration("", "", ""), Comment("");
    NextNode(doc, 0, [], Undeclared);
    NextNode(doc, 7, [] + [d], Utf8);
    NextNode(doc, 14, [] + [d] + [c], Utf8);
  }

  lemma DeclarationFirst(doc: string)
    requires doc == "<?xml?><!----><a>x"
    ensures SkipWhite(doc, 0) == 0 && !StartsElement(doc, 0)
    ensures ReadMarkup(doc, 0) == Parsed(7, Declaration("", "", ""))
  {
    assert SkipWhite(doc, 0) == 0 && !StartsElement(doc, 0);
    assert StartsDeclaration(doc, 0);
    QuestionMark(doc);
    hide ReadDeclared;
    assert ReadMarkup(doc, 0) == ReadDeclared(doc, 5, Declaration("", "", ""));
  }

  lemma QuestionMark(doc: string)
    requires doc == "<?xml?><!----><a>x"
    ensures ReadDeclared(doc, 5, Declaration("", "", "")) == Parsed(7, Declaration("", "", ""))
  {
    hide MatchesFold, ReadAttribute;
    MatchesFirst(doc, 5, "version");
    MatchesFirst(doc, 5, "encoding");
    MatchesFirst(doc, 5, "standalone");
    assert SkipWhite(doc, 5) == 5 && SkipWord(doc, 6) == 6 && SkipWord(doc, 5) == 6;
  }

  lemma CommentSecond(doc: string)
    requires doc == "<?xml?><!----><a>x"
    ensures SkipWhite(doc, 7, Utf8) == 7 && !StartsElement(doc, 7)
    ensures ReadMarkup(doc, 7, Utf8) == Parsed(14, Comment(""))
  {
    assert doc[7..11] == "<!--" && doc[11..14] == "-->";
    assert Seek(doc, 11, "-->") == 11;
    assert !StartsDeclaration(doc, 7) by {
      FoldAt(doc, 7, "<?xml", 1);
    }
    assert doc[11..11] == "";
  }
}
