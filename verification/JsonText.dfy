/** The text of JSON values: decimal numbers, quoted strings, and the tokens a value is spelled with
    (json_writer.cpp). */
module JsonText {
  import opened JsonValue

  // ----- Numbers ----------------------------------------------------------------------------

  function Digit(d: nat): char
    requires d < 10
  {
    "0123456789"[d]
  }

  /** What `uintToString` writes. */
  function Decimal(n: nat): (t: string)
    ensures t != [] && forall i | 0 <= i < |t| :: '0' <= t[i] <= '9'
  {
    (if n < 10 then [] else Decimal(n / 10)) + [Digit(n % 10)]
  }

  function IntText(i: int): string {
    if i < 0 then "-" + Decimal(-i) else Decimal(i)
  }

  // ----- Strings ----------------------------------------------------------------------------

  const BACKSPACE := 8 as char
  const FORMFEED := 12 as char

  predicate IsControl(c: char) {
    0 < c as int <= 0x1f
  }

  /** A character that a string literal cannot hold as it is. */
  predicate IsSpecial(c: char) {
    c == '"' || c == '\\' || IsControl(c)
  }

  /** How one character is written inside quotes. */
  function Escape(c: char): string {
    if c == '"' then "\\\""
    else if c == '\\' then "\\\\"
    else if c == BACKSPACE then "\\b"
    else if c == FORMFEED then "\\f"
    else if c == '\n' then "\\n"
    else if c == '\r' then "\\r"
    else if c == '\t' then "\\t"
    else if IsControl(c) then
      "\\u00" + (if c as int < 0x10 then "0" else "1") + ["0123456789ABCDEF"[c as int % 16]]
    else [c]
  }

  function EscapeAll(s: string): string {
    if s == [] then [] else Escape(s[0]) + EscapeAll(s[1..])
  }

  function Quoted(s: string): string {
    "\"" + EscapeAll(s) + "\""
  }

  lemma {:induction false} PlainEscape(s: string)
    requires forall i | 0 <= i < |s| :: !IsSpecial(s[i])
    ensures EscapeAll(s) == s
  {
    if s != [] {
      PlainEscape(s[1..]);
      assert s == [s[0]] + s[1..];
    }
  }

  // ----- Tokens -----------------------------------------------------------------------------

  /** The tokens that spell a value, in order. A gap in an array is spelled as a null. */
  function Toks(v: Value): seq<string>
    decreases Height(v), 0
  {
    match v
    case Null => ["null"]
    case Int(i) => [IntText(i)]
    case UInt(u) => [IntText(u)]
    case Real(t) => [t]
    case Str(s) => [Quoted(s)]
    case Bool(b) => [if b then "true" else "false"]
    case Arr(es) => ItemsAreLower(es); ["["] + ItemToks(Items(es), true) + ["]"]
    case Obj(ms) => ["{"] + MemberToks(ms, true) + ["}"]
  }

  /** Items, each but the first of all after a comma. */
  function ItemToks(items: seq<Value>, first: bool): seq<string>
    decreases ItemsHeight(items), |items|
  {
    if items == [] then []
    else (if first then [] else [","]) + Toks(items[0]) + ItemToks(items[1..], false)
  }

  function MemberToks(ms: seq<Member>, first: bool): seq<string>
    decreases MembersHeight(ms), |ms|
  {
    if ms == [] then []
    else (if first then [] else [","]) + [Quoted(ms[0].key), ":"] + Toks(ms[0].value) + MemberToks(ms[1..], false)
  }

  function Concat(ts: seq<string>): string {
    if ts == [] then [] else ts[0] + Concat(ts[1..])
  }

  lemma Associate<T>(a: seq<T>, b: seq<T>, c: seq<T>)
    ensures a + (b + c) == a + b + c
  {
  }

  lemma {:induction false} ConcatSplit(a: seq<string>, b: seq<string>)
    ensures Concat(a + b) == Concat(a) + Concat(b)
  {
    if a == [] {
      assert a + b == b;
    } else {
      ConcatSplit(a[1..], b);
      assert (a + b)[0] == a[0] && (a + b)[1..] == a[1..] + b;
      Associate(a[0], Concat(a[1..]), Concat(b));
    }
  }

  /** The text of a value without any white space: what `FastWriter` writes. */
  function Fast(v: Value): string {
    Concat(Toks(v))
  }

  // ----- Layout -----------------------------------------------------------------------------

  predicate IsSpace(c: char) {
    c == ' ' || c == '\t' || c == '\r' || c == '\n'
  }

  ghost predicate Blank(s: string) {
    forall i | 0 <= i < |s| :: IsSpace(s[i])
  }

  /** A token after some white space. */
  datatype Piece = Piece(space: string, tok: string)

  /** A text laid out in pieces. */
  function Flat(ps: seq<Piece>): string {
    if ps == [] then [] else ps[0].space + ps[0].tok + Flat(ps[1..])
  }

  function Tokens(ps: seq<Piece>): seq<string> {
    seq(|ps|, i requires 0 <= i < |ps| => ps[i].tok)
  }

  ghost predicate Spaced(ps: seq<Piece>) {
    forall i | 0 <= i < |ps| :: Blank(ps[i].space)
  }

  lemma {:induction false} FlatSplit(a: seq<Piece>, b: seq<Piece>)
    ensures Flat(a + b) == Flat(a) + Flat(b)
  {
    if a == [] {
      assert a + b == b;
    } else {
      FlatSplit(a[1..], b);
      assert (a + b)[0] == a[0] && (a + b)[1..] == a[1..] + b;
      Associate(a[0].space + a[0].tok, Flat(a[1..]), Flat(b));
    }
  }

  /** Tokens laid out with no space. */
  function Tight(ts: seq<string>): seq<Piece> {
    seq(|ts|, i requires 0 <= i < |ts| => Piece("", ts[i]))
  }

  lemma {:induction false} FlatTight(ts: seq<string>)
    ensures Flat(Tight(ts)) == Concat(ts) && Tokens(Tight(ts)) == ts && Spaced(Tight(ts))
  {
    if ts != [] {
      FlatTight(ts[1..]);
      assert Tight(ts)[1..] == Tight(ts[1..]);
    }
  }

  // ----- The styled layout ------------------------------------------------------------------

  const RIGHT_MARGIN := 74
  const INDENT := "   "

  /** `writeIndent`: a new line and the indentation, unless the text ends in a space. */
  function Indented(doc: string, indent: string): string {
    if doc != [] && doc[|doc| - 1] == ' ' then doc
    else (if doc != [] && doc[|doc| - 1] != '\n' then doc + "\n" else doc) + indent
  }

  /** A value that is one piece of text whatever the layout. */
  predicate Atomic(v: Value) {
    match v
    case Arr(es) => es == []
    case Obj(ms) => ms == []
    case _ => true
  }

  function TotalLength(items: seq<Value>): nat {
    if items == [] then 0 else |Fast(items[0])| + TotalLength(items[1..])
  }

  /** `isMultineArray`. */
  predicate MultiLine(items: seq<Value>) {
    || |items| * 3 >= RIGHT_MARGIN
    || (exists i | 0 <= i < |items| :: !Atomic(items[i]))
    || 4 + (|items| - 1) * 2 + TotalLength(items) >= RIGHT_MARGIN
  }

  /** The text of items on one line. */
  function InLine(items: seq<Value>): string {
    if items == [] then []
    else Fast(items[0]) + (if |items| > 1 then ", " else "") + InLine(items[1..])
  }

  /** What `StyledWriter` makes of a text by writing a value to it at an indentation. */
  function Styled(doc: string, indent: string, v: Value): string
    decreases Height(v), 0
  {
    match v
    case Arr(es) =>
      ItemsAreLower(es);
      var items := Items(es);
      if es == [] then doc + "[]"
      else if !MultiLine(items) then doc + "[ " + InLine(items) + " ]"
      else Indented(StyledItems(Indented(doc, indent) + "[", indent + INDENT, items), indent) + "]"
    case Obj(ms) =>
      if ms == [] then doc + "{}"
      else Indented(StyledMembers(Indented(doc, indent) + "{", indent + INDENT, ms), indent) + "}"
    case _ => doc + Fast(v)
  }

  function StyledItems(doc: string, indent: string, items: seq<Value>): string
    decreases ItemsHeight(items), |items|
  {
    if items == [] then doc
    else
      var d := Styled(Indented(doc, indent), indent, items[0]);
      StyledItems(if |items| > 1 then d + "," else d, indent, items[1..])
  }

  function StyledMembers(doc: string, indent: string, ms: seq<Member>): string
    decreases MembersHeight(ms), |ms|
  {
    if ms == [] then doc
    else
      var d := Styled(Indented(doc, indent) + Quoted(ms[0].key) + " : ", indent, ms[0].value);
      StyledMembers(if |ms| > 1 then d + "," else d, indent, ms[1..])
  }
}
