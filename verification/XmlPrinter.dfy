/** `TiXmlPrinter` and `EncodeString` of GameLib/tinyxml, in the source's own form. */
module XmlPrinter {
  import opened Common
  import opened XmlTree

  lemma EncodeRest(str: string, i: nat, done: string)
    requires i < |str| && done + Encode(str, i) == Encode(str, 0)
    ensures !Reference(str, i) ==> done + Escaped(str[i]) + Encode(str, i + 1) == Encode(str, 0)
    ensures Reference(str, i) ==> done + str[i..PassEnd(str, i)] + Encode(str, PassEnd(str, i)) == Encode(str, 0)
  {
    if Reference(str, i) {
      var e := PassEnd(str, i);
      assert done + str[i..e] + Encode(str, e) == done + (str[i..e] + Encode(str, e));
    } else {
      assert done + Escaped(str[i]) + Encode(str, i + 1) == done + (Escaped(str[i]) + Encode(str, i + 1));
    }
  }

  /** Passing a hexadecimal character reference through: the inner loop of `EncodeString`. */
  method PassReference(str: string, from: nat) returns (out: string, i: nat)
    requires Reference(str, from)
    ensures i == PassEnd(str, from) && out == str[from..i]
  {
    out, i := "", from;
    while i < |str| - 1
      invariant from <= i < |str| && out == str[from..i]
      invariant i + 1 < |str| ==> PassEnd(str, i) == PassEnd(str, from)
      invariant i + 1 == |str| ==> i == PassEnd(str, from)
    {
      out := out + [str[i]];
      i := i + 1;
      if str[i] == ';' {
        break;
      }
    }
  }

  method EncodeString(str: string) returns (outString: string)
    ensures outString == Encode(str, 0)
  {
    hide Encode, PassEnd;
    var i := 0;
    outString := "";
    assert "" + Encode(str, 0) == Encode(str, 0);
    while i < |str|
      invariant i <= |str| && outString + Encode(str, i) == Encode(str, 0)
    {
      EncodeRest(str, i, outString);
      var c := str[i];
      if c == '&' && i < |str| - 2 && str[i + 1] == '#' && str[i + 2] == 'x' {
        var passed;
        passed, i := PassReference(str, i);
        outString := outString + passed;
      } else if c == '&' {
        outString := outString + "&amp;";
        i := i + 1;
      } else if c == '<' {
        outString := outString + "&lt;";
        i := i + 1;
      } else if c == '>' {
        outString := outString + "&gt;";
        i := i + 1;
      } else if c == '\"' {
        outString := outString + "&quot;";
        i := i + 1;
      } else if c == '\'' {
        outString := outString + "&apos;";
        i := i + 1;
      } else if c < ' ' {
        outString := outString + ("&#x" + [HexDigit(c as int / 16), HexDigit(c as int % 16)] + ";");
        i := i + 1;
      } else {
        outString := outString + [c];
        i := i + 1;
      }
    }
    EncodeNone(str);
    assert outString + "" == outString;
  }

  lemma EncodeNone(str: string)
    ensures Encode(str, |str|) == ""
  {
  }

  /** A line of its own. */
  function Line(n: Node, style: Style, depth: nat): string {
    Indent(style, depth) + Content(n, style, depth) + style.lineBreak
  }

  lemma {:induction false} LinesAppend(nodes: seq<Node>, n: Node, style: Style, depth: nat)
    ensures PrintNodes(nodes + [n], style, depth) == PrintNodes(nodes, style, depth) + Line(n, style, depth)
    decreases |nodes|
  {
    hide Content, Indent;
    if nodes == [] {
      assert nodes + [n] == [n] && [n][1..] == [];
    } else {
      assert (nodes + [n])[0] == nodes[0] && (nodes + [n])[1..] == nodes[1..] + [n];
      LinesAppend(nodes[1..], n, style, depth);
      var first := Line(nodes[0], style, depth);
      assert first + (PrintNodes(nodes[1..], style, depth) + Line(n, style, depth)) ==
        first + PrintNodes(nodes[1..], style, depth) + Line(n, style, depth);
    }
  }

  lemma {:induction false} AttributesAppend(attributes: seq<Attribute>, a: Attribute)
    ensures PrintAttributes(attributes + [a]) == PrintAttributes(attributes) + " " + PrintAttribute(a)
    decreases |attributes|
  {
    hide PrintAttribute;
    if attributes == [] {
      assert attributes + [a] == [a] && [a][1..] == [];
      assert " " + PrintAttribute(a) + "" == "" + " " + PrintAttribute(a);
    } else {
      assert (attributes + [a])[0] == attributes[0] && (attributes + [a])[1..] == attributes[1..] + [a];
      AttributesAppend(attributes[1..], a);
      var first, rest := " " + PrintAttribute(attributes[0]), PrintAttributes(attributes[1..]);
      assert first + (rest + " " + PrintAttribute(a)) == first + rest + " " + PrintAttribute(a);
    }
  }

  /** What entering an element writes. */
  function Entered(e: Node, style: Style, depth: nat): string
    requires e.Element?
  {
    Indent(style, depth) + "<" + e.name + PrintAttributes(e.attributes) + TagTail(e.children, style)
  }

  function TagTail(children: seq<Node>, style: Style): string {
    if children == [] then " />" + style.lineBreak else if Simple(children) then ">" else ">" + style.lineBreak
  }

  /** What the children of an element write. */
  function Within(children: seq<Node>, style: Style, depth: nat): string {
    if Simple(children) then Encode(children[0].value, 0) else PrintNodes(children, style, depth + 1)
  }

  /** What leaving it writes. */
  function Exited(e: Node, style: Style, depth: nat): string
    requires e.Element?
  {
    if e.children == [] then ""
    else (if Simple(e.children) then "" else Indent(style, depth)) + "</" + e.name + ">" + style.lineBreak
  }

  lemma ElementLine(e: Node, style: Style, depth: nat)
    requires e.Element?
    ensures
      Entered(e, style, depth) + Within(e.children, style, depth) + Exited(e, style, depth) == Line(e, style, depth)
  {
    hide Indent, PrintAttributes, Encode, PrintNodes;
    var i, s, b := Indent(style, depth), "<" + e.name + PrintAttributes(e.attributes), style.lineBreak;
    var x := "</" + e.name + ">";
    assert i + "<" + e.name + PrintAttributes(e.attributes) == i + s;
    if e.children == [] {
      NothingWithin(e.children, style, depth);
      assert i + s + (" />" + b) + "" + "" == i + (s + " />") + b;
      assert Entered(e, style, depth) == i + s + (" />" + b);
      assert Body(e, style, depth) == s + " />";
    } else if Simple(e.children) {
      var t := Encode(e.children[0].value, 0);
      RegroupParts(i, s, ">", t, "", x, b);
      assert Body(e, style, depth) == s + (">" + t + "" + x) by {
        assert ">" + t + "</" + e.name + ">" == ">" + t + "" + x;
      }
      assert "" + "</" + e.name + ">" + b == "" + x + b;
    } else {
      var t := PrintNodes(e.children, style, depth + 1);
      RegroupParts(i, s, ">" + b, t, i, x, b);
      assert Body(e, style, depth) == s + (">" + b + t + i + x) by {
        assert ">" + (b + t + i) + "</" + e.name + ">" == ">" + b + t + i + x;
      }
      assert i + "</" + e.name + ">" + b == i + x + b;
    }
  }

  lemma NothingWithin(children: seq<Node>, style: Style, depth: nat)
    requires children == []
    ensures Within(children, style, depth) == ""
  {
  }

  lemma RegroupParts(i: string, s: string, g: string, t: string, j: string, e: string, b: string)
    ensures (i + s + g) + t + (j + e + b) == i + (s + (g + t + j + e)) + b
  {
  }

  class Printer {
    var depth: nat
    var simpleTextPrint: bool
    var buffer: string
    const indent: string
    const lineBreak: string

    constructor (style: Style)
      ensures depth == 0 && !simpleTextPrint && buffer == ""
      ensures indent == style.indent && lineBreak == style.lineBreak
    {
      depth, simpleTextPrint, buffer := 0, false, "";
      indent, lineBreak := style.indent, style.lineBreak;
    }

    ghost function TheStyle(): Style {
      Style(indent, lineBreak)
    }

    method DoIndent()
      modifies `buffer
      ensures buffer == old(buffer) + Indent(TheStyle(), depth)
    {
      var i := 0;
      while i < depth
        invariant i <= depth && buffer == old(buffer) + Indent(TheStyle(), i)
      {
        buffer := buffer + indent;
        i := i + 1;
      }
    }

    method DoLineBreak()
      modifies `buffer
      ensures buffer == old(buffer) + lineBreak
    {
      buffer := buffer + lineBreak;
    }

    /** `TiXmlAttribute::Print`. */
    method PrintOne(a: Attribute)
      modifies `buffer
      ensures buffer == old(buffer) + PrintAttribute(a)
    {
      hide Encode;
      var n := EncodeString(a.name);
      var v := EncodeString(a.value);
      if '\"' !in a.value {
        buffer := buffer + n + "=\"" + v + "\"";
        assert n + "=\"" + v + "\"" == n + "=" + "\"" + v + "\"";
      } else {
        buffer := buffer + n + "='" + v + "'";
        assert n + "='" + v + "'" == n + "=" + "'" + v + "'";
      }
    }

    method VisitEnter(e: Node)
      requires e.Element?
      modifies `buffer, `depth, `simpleTextPrint
      ensures buffer == old(buffer) + Entered(e, TheStyle(), old(depth)) && depth == old(depth) + 1
      ensures simpleTextPrint == (Simple(e.children) || old(simpleTextPrint))
    {
      hide PrintAttribute, PrintAttributes, Indent;
      ghost var before := buffer;
      DoIndent();
      buffer := buffer + "<";
      buffer := buffer + e.name;
      ghost var start := buffer;
      var i := 0;
      NoneYet(e.attributes);
      while i < |e.attributes|
        invariant i <= |e.attributes| && buffer == start + PrintAttributes(e.attributes[..i])
        invariant depth == old(depth) && simpleTextPrint == old(simpleTextPrint)
      {
        AttributesAppend(e.attributes[..i], e.attributes[i]);
        assert e.attributes[..i + 1] == e.attributes[..i] + [e.attributes[i]];
        buffer := buffer + " ";
        PrintOne(e.attributes[i]);
        i := i + 1;
      }
      assert e.attributes[..|e.attributes|] == e.attributes;
      RegroupTag(before, Indent(TheStyle(), depth), e.name, PrintAttributes(e.attributes),
                 TagTail(e.children, TheStyle()));
      ghost var tag := buffer;
      if e.children == [] {
        buffer := buffer + " />";
        DoLineBreak();
      } else {
        buffer := buffer + ">";
        if e.children[0].Text? && |e.children| == 1 {
          simpleTextPrint := true;
        } else {
          DoLineBreak();
        }
      }
      assert buffer == tag + TagTail(e.children, TheStyle());
      depth := depth + 1;
    }

    lemma RegroupTag(b: string, i: string, n: string, a: string, t: string)
      ensures b + i + "<" + n + a + t == b + (i + "<" + n + a + t)
    {
    }

    lemma NoneYet(attributes: seq<Attribute>)
      ensures PrintAttributes(attributes[..0]) == ""
    {
    }

    method VisitExit(e: Node)
      requires e.Element? && depth > 0 && simpleTextPrint == Simple(e.children)
      modifies `buffer, `depth, `simpleTextPrint
      ensures depth == old(depth) - 1 && !simpleTextPrint
      ensures buffer == old(buffer) + Exited(e, TheStyle(), depth)
    {
      hide Indent;
      depth := depth - 1;
      if e.children != [] {
        if simpleTextPrint {
          simpleTextPrint := false;
        } else {
          DoIndent();
        }
        buffer := buffer + "</";
        buffer := buffer + e.name;
        buffer := buffer + ">";
        DoLineBreak();
      }
    }

    /** `Visit( const TiXmlText& )`. */
    method VisitText(n: Node)
      requires n.Text? || n.CData?
      modifies `buffer
      ensures buffer == old(buffer) +
        if simpleTextPrint && n.Text? then Encode(n.value, 0) else Line(n, TheStyle(), depth)
    {
      hide Encode, Indent;
      if n.CData? {
        OnLine(n, "<![CDATA[" + n.value + "]]>");
        DoIndent();
        buffer := buffer + "<![CDATA[";
        buffer := buffer + n.value;
        buffer := buffer + "]]>";
        DoLineBreak();
      } else if simpleTextPrint {
        var str := EncodeString(n.value);
        buffer := buffer + str;
      } else {
        DoIndent();
        var str := EncodeString(n.value);
        buffer := buffer + str;
        DoLineBreak();
      }
    }

    /** What is appended in pieces is a line. */
    lemma OnLine(n: Node, content: string)
      requires content == Content(n, TheStyle(), depth)
      ensures n.CData? ==>
        buffer + Line(n, TheStyle(), depth) ==
        buffer + Indent(TheStyle(), depth) + "<![CDATA[" + n.value + "]]>" + lineBreak
      ensures n.Comment? ==>
        buffer + Line(n, TheStyle(), depth) ==
        buffer + Indent(TheStyle(), depth) + "<!--" + n.value + "-->" + lineBreak
      ensures n.Unknown? ==>
        buffer + Line(n, TheStyle(), depth) == buffer + Indent(TheStyle(), depth) + "<" + n.value + ">" + lineBreak
    {
      hide Indent;
    }

    /** `Visit( const TiXmlComment& )`. */
    method VisitComment(n: Node)
      requires n.Comment?
      modifies `buffer
      ensures buffer == old(buffer) + Line(n, TheStyle(), depth)
    {
      hide Indent;
      OnLine(n, "<!--" + n.value + "-->");
      DoIndent();
      buffer := buffer + "<!--";
      buffer := buffer + n.value;
      buffer := buffer + "-->";
      DoLineBreak();
    }

    /** `Visit( const TiXmlUnknown& )`. */
    method VisitUnknown(n: Node)
      requires n.Unknown?
      modifies `buffer
      ensures buffer == old(buffer) + Line(n, TheStyle(), depth)
    {
      hide Indent;
      OnLine(n, "<" + n.value + ">");
      DoIndent();
      buffer := buffer + "<";
      buffer := buffer + n.value;
      buffer := buffer + ">";
      DoLineBreak();
    }

    /** One of the three values of `TiXmlDeclaration::Print`. */
    method PrintOneDeclared(name: string, value: string)
      modifies `buffer
      ensures buffer == old(buffer) + PrintDeclared(name, value)
    {
      if value != [] {
        buffer := buffer + name + "=\"";
        buffer := buffer + value;
        buffer := buffer + "\" ";
      }
    }

    /** `Visit( const TiXmlDeclaration& )`. */
    method VisitDeclaration(n: Node)
      requires n.Declaration?
      modifies `buffer
      ensures buffer == old(buffer) + Line(n, TheStyle(), depth)
    {
      hide Indent, PrintDeclared;
      DoIndent();
      buffer := buffer + "<?xml ";
      PrintOneDeclared("version", n.version);
      PrintOneDeclared("encoding", n.encoding);
      PrintOneDeclared("standalone", n.standalone);
      buffer := buffer + "?>";
      RegroupDeclaration(old(buffer), Indent(TheStyle(), depth), PrintDeclared("version", n.version),
                         PrintDeclared("encoding", n.encoding), PrintDeclared("standalone", n.standalone), lineBreak);
      DoLineBreak();
    }

    lemma RegroupDeclaration(b: string, i: string, v: string, e: string, s: string, l: string)
      ensures b + i + "<?xml " + v + e + s + "?>" + l == b + (i + ("<?xml " + v + e + s + "?>") + l)
    {
    }

    /** `Accept`: the walk over a tree. The flag for simple texts never reaches another node. */
    method Accept(n: Node)
      requires simpleTextPrint ==> n.Text?
      modifies this
      ensures buffer == old(buffer) +
        if old(simpleTextPrint) then Content(n, TheStyle(), depth) else Line(n, TheStyle(), depth)
      ensures depth == old(depth) && simpleTextPrint == old(simpleTextPrint)
      decreases n
    {
      hide Indent, PrintAttributes, Encode, Line, Entered, Exited, Within;
      match n {
        case Text(_) => VisitText(n);
        case CData(_) => VisitText(n);
        case Comment(_) => VisitComment(n);
        case Unknown(_) => VisitUnknown(n);
        case Declaration(_, _, _) => VisitDeclaration(n);
        case Element(_, _, _) =>
          VisitEnter(n);
          AcceptChildren(n.children);
          VisitExit(n);
          ElementLine(n, TheStyle(), depth);
      }
    }

    method AcceptChildren(children: seq<Node>)
      requires depth > 0 && simpleTextPrint == Simple(children)
      modifies this
      ensures depth == old(depth) && simpleTextPrint == old(simpleTextPrint)
      ensures buffer == old(buffer) + Within(children, TheStyle(), depth - 1)
      decreases children, 0
    {
      hide Indent, Encode, Content, PrintNodes;
      ghost var style := TheStyle();
      var i := 0;
      NothingYet(children, style, depth);
      while i < |children|
        invariant i <= |children| && depth == old(depth) && simpleTextPrint == Simple(children)
        invariant Simple(children) && i == 0 ==> buffer == old(buffer)
        invariant Simple(children) && i == 1 ==> buffer == old(buffer) + Encode(children[0].value, 0)
        invariant !Simple(children) ==> buffer == old(buffer) + PrintNodes(children[..i], style, depth)
      {
        LinesAppend(children[..i], children[i], style, depth);
        assert children[..i + 1] == children[..i] + [children[i]];
        Accept(children[i]);
        TextContent(children[i], style, depth);
        i := i + 1;
      }
      assert children[..|children|] == children;
    }

    lemma NothingYet(children: seq<Node>, style: Style, depth: nat)
      ensures PrintNodes(children[..0], style, depth) == ""
    {
    }

    lemma TextContent(n: Node, style: Style, depth: nat)
      ensures n.Text? ==> Content(n, style, depth) == Encode(n.value, 0)
    {
    }

    /** A document: its nodes one after the other. */
    method AcceptDocument(nodes: seq<Node>)
      requires depth == 0 && !simpleTextPrint && buffer == ""
      modifies this
      ensures buffer == PrintNodes(nodes, TheStyle(), 0)
    {
      hide Indent, Content;
      ghost var style := TheStyle();
      var i := 0;
      while i < |nodes|
        invariant i <= |nodes| && depth == 0 && !simpleTextPrint && buffer == PrintNodes(nodes[..i], style, 0)
      {
        LinesAppend(nodes[..i], nodes[i], style, 0);
        assert nodes[..i + 1] == nodes[..i] + [nodes[i]];
        Accept(nodes[i]);
        i := i + 1;
      }
      assert nodes[..|nodes|] == nodes;
    }
  }
}
