/** The trees of GameLib/tinyxml, and how `TiXmlPrinter` prints them.

    Strings are bytes, each a char below 256. */
module XmlTree {
  import opened Common

  datatype Attribute = Attribute(name: string, value: string)

  datatype Node =
    | Element(name: string, attributes: seq<Attribute>, children: seq<Node>)
    | Text(value: string)
    | CData(value: string)
    | Comment(value: string)
    | Unknown(value: string)
    | Declaration(version: string, encoding: string, standalone: string)

  // ----- Characters -------------------------------------------------------------------------

  /** `IsWhiteSpace`. */
  predicate IsWhite(c: char) {
    c == ' ' || '\t' <= c <= '\r'
  }

  /** `IsAlpha`: everything above 126 is taken for a letter. */
  predicate IsAlpha(c: char) {
    'a' <= c <= 'z' || 'A' <= c <= 'Z' || c >= 127 as char
  }

  predicate IsAlphaNum(c: char) {
    IsAlpha(c) || '0' <= c <= '9'
  }

  predicate IsNameStart(c: char) {
    IsAlpha(c) || c == '_'
  }

  predicate IsNameChar(c: char) {
    IsAlphaNum(c) || c == '_' || c == '-' || c == '.' || c == ':'
  }

  /** A text lies in a document at a place. */
  predicate Matches(doc: string, p: nat, s: string) {
    p + |s| <= |doc| && doc[p..p + |s|] == s
  }

  // ----- Encoding ---------------------------------------------------------------------------

  /** What `EncodeString` writes for one character. */
  function Escaped(c: char): string {
    if c == '&' then "&amp;"
    else if c == '<' then "&lt;"
    else if c == '>' then "&gt;"
    else if c == '\"' then "&quot;"
    else if c == '\'' then "&apos;"
    else if c < ' ' then "&#x" + [HexDigit(c as int / 16), HexDigit(c as int % 16)] + ";"
    else [c]
  }

  /** A hexadecimal character reference starts here. */
  predicate Reference(s: string, i: nat) {
    i + 2 < |s| && s[i] == '&' && s[i + 1] == '#' && s[i + 2] == 'x'
  }

  /** Where passing a reference through stops: at its semicolon, or at the last character. */
  function PassEnd(s: string, i: nat): (j: nat)
    requires i + 1 < |s|
    ensures i < j < |s|
    decreases |s| - i
  {
    if s[i + 1] == ';' || i + 2 == |s| then i + 1 else PassEnd(s, i + 1)
  }

  /** `EncodeString` from character i on. */
  function Encode(s: string, i: nat): string
    requires i <= |s|
    decreases |s| - i
  {
    if i == |s| then ""
    else if Reference(s, i) then s[i..PassEnd(s, i)] + Encode(s, PassEnd(s, i))
    else Escaped(s[i]) + Encode(s, i + 1)
  }

  // ----- Printing ---------------------------------------------------------------------------

  /** The printer's indent and line break. Stream printing has neither. */
  datatype Style = Style(indent: string, lineBreak: string)

  const STREAM := Style("", "")

  function Indent(style: Style, depth: nat): string {
    if depth == 0 then "" else Indent(style, depth - 1) + style.indent
  }

  function Quote(value: string): char {
    if '\"' in value then '\'' else '\"'
  }

  /** `TiXmlAttribute::Print`. */
  function PrintAttribute(a: Attribute): string {
    Encode(a.name, 0) + "=" + [Quote(a.value)] + Encode(a.value, 0) + [Quote(a.value)]
  }

  function PrintAttributes(attributes: seq<Attribute>): string {
    if attributes == [] then "" else " " + PrintAttribute(attributes[0]) + PrintAttributes(attributes[1..])
  }

  /** A text that is an only child is printed on the line of its tags. */
  predicate Simple(children: seq<Node>) {
    |children| == 1 && children[0].Text?
  }

  /** An element from its first '<' to its last '>'. */
  function Body(e: Node, style: Style, depth: nat): string
    requires e.Element?
    decreases e, 0
  {
    "<" + e.name + PrintAttributes(e.attributes) +
    if e.children == [] then " />"
    else ">" + Inner(e.children, style, depth) + "</" + e.name + ">"
  }

  function Inner(children: seq<Node>, style: Style, depth: nat): string
    decreases children, 1
  {
    if Simple(children) then Encode(children[0].value, 0)
    else style.lineBreak + PrintNodes(children, style, depth + 1) + Indent(style, depth)
  }

  /** One of the values of a declaration, if it is not empty. */
  function PrintDeclared(name: string, value: string): string {
    if value == [] then "" else name + "=\"" + value + "\" "
  }

  /** `TiXmlDeclaration::Print`. */
  function PrintDeclaration(version: string, encoding: string, standalone: string): string {
    "<?xml " + PrintDeclared("version", version) + PrintDeclared("encoding", encoding)
      + PrintDeclared("standalone", standalone) + "?>"
  }

  /** What a node is without the line it stands on. */
  function Content(n: Node, style: Style, depth: nat): string
    decreases n, 1
  {
    match n
    case Text(s) => Encode(s, 0)
    case CData(s) => "<![CDATA[" + s + "]]>"
    case Comment(s) => "<!--" + s + "-->"
    case Unknown(s) => "<" + s + ">"
    case Declaration(version, encoding, standalone) => PrintDeclaration(version, encoding, standalone)
    case Element(_, _, _) => Body(n, style, depth)
  }

  /** Nodes, each on its line. */
  function PrintNodes(nodes: seq<Node>, style: Style, depth: nat): string
    decreases nodes, 0
  {
    if nodes == [] then ""
    else
      Indent(style, depth) + Content(nodes[0], style, depth) + style.lineBreak + PrintNodes(nodes[1..], style, depth)
  }

  // ----- What can be printed and read back --------------------------------------------------

  predicate ValidName(s: string) {
    s != [] && IsNameStart(s[0]) && forall c | c in s :: IsNameChar(c)
  }

  /** No hexadecimal character reference, which would be passed through. */
  predicate Plain(s: string) {
    forall i: nat | i < |s| :: !Reference(s, i)
  }

  /** Text that white space condensing leaves as it is. */
  predicate Condensed(s: string) {
    && s != [] && s[0] != ' ' && s[|s| - 1] != ' '
    && forall i: nat | i + 1 < |s| :: !(s[i] == ' ' && s[i + 1] == ' ')
  }

  predicate White(s: string) {
    forall c | c in s :: IsWhite(c)
  }

  predicate Without(s: string, t: string) {
    forall k: nat | k <= |s| :: !Matches(s, k, t)
  }

  /** `ToLower`. */
  function Lower(c: char): char {
    if 'A' <= c <= 'Z' then c + 32 as char else c
  }

  /** A text lies in a document at a place, in letters of either case. */
  predicate MatchesFold(doc: string, p: nat, s: string) {
    p + |s| <= |doc| && forall i | 0 <= i < |s| :: Lower(doc[p + i]) == Lower(s[i])
  }

  predicate StartsDeclaration(doc: string, p: nat) {
    MatchesFold(doc, p, "<?xml")
  }

  /** What `Identify` takes for an element, of the things that start with '<'. */
  predicate StartsElement(doc: string, p: nat) {
    p + 1 < |doc| && IsNameStart(doc[p + 1])
  }

  /** What it takes for nothing it knows. */
  predicate StartsUnknown(doc: string, p: nat) {
    && p < |doc| && !StartsElement(doc, p) && !StartsDeclaration(doc, p)
    && !Matches(doc, p, "<!--") && !Matches(doc, p, "<![CDATA[")
  }

  /** What every tree is that the parser makes: names are names, no element has an attribute twice, no text
      is blank, no text follows another, and nothing holds the mark of its own end. */
  predicate Formed(n: Node)
    decreases n
  {
    match n
    case Text(s) => !White(s)
    case CData(s) => Without(s, "]]>")
    case Comment(s) => Without(s, "-->")
    case Unknown(s) => '>' !in s && StartsUnknown("<" + s, 0)
    case Declaration(_, _, _) => true
    case Element(name, attributes, children) =>
      && ValidName(name) && WellNamed(attributes)
      && (forall c | c in children :: Formed(c))
      && Apart(children) && NoEndTag(children)
  }

  predicate WellNamed(attributes: seq<Attribute>) {
    && (forall a | a in attributes :: ValidName(a.name))
    && (forall i, j | 0 <= i < j < |attributes| :: attributes[i].name != attributes[j].name)
  }

  predicate Apart(nodes: seq<Node>) {
    forall i: nat | i + 1 < |nodes| :: !(nodes[i].Text? && nodes[i + 1].Text?)
  }

  /** Inside an element an unknown tag does not look like an end tag. */
  predicate NoEndTag(nodes: seq<Node>) {
    forall n | n in nodes :: n.Unknown? ==> !Matches(n.value, 0, "/")
  }

  /** No text and no attribute value has a hexadecimal character reference in it. */
  predicate PlainTree(n: Node)
    decreases n
  {
    match n
    case Text(s) => Plain(s)
    case Element(_, attributes, children) =>
      (forall a | a in attributes :: Plain(a.value)) && forall c | c in children :: PlainTree(c)
    case _ => true
  }

  /** Every text is one that condensing white space leaves as it is. */
  predicate CondensedTree(n: Node)
    decreases n
  {
    match n
    case Text(s) => Condensed(s)
    case Element(_, _, children) => forall c | c in children :: CondensedTree(c)
    case _ => true
  }

  predicate Faithful(n: Node) {
    Formed(n) && PlainTree(n) && CondensedTree(n)
  }
}
