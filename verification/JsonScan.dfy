/** The tokenizer of the JSON reader, as functions from a document and a position (json_reader.cpp).
    A position is the offset of `current_` from `begin_`. */
module JsonScan {
  import opened JsonText

  datatype Kind =
    | EndOfStream | ObjectBegin | ObjectEnd | ArrayBegin | ArrayEnd | StringToken | NumberToken
    | TrueToken | FalseToken | NullToken | ArraySeparator | MemberSeparator | CommentToken | ErrorToken

  datatype Token = Token(kind: Kind, start: nat, end: nat)

  /** `*current_`: past the last character there is the NUL of the string. */
  function Peek(doc: string, p: nat): char {
    if p < |doc| then doc[p] else '\0'
  }

  /** Where `getNextChar` leaves `current_`. */
  function After(doc: string, p: nat): nat {
    if p < |doc| then p + 1 else p
  }

  function SkipSpaces(doc: string, p: nat): (q: nat)
    requires p <= |doc|
    ensures p <= q <= |doc|
    ensures q < |doc| ==> !IsSpace(doc[q])
    ensures forall i | p <= i < q :: IsSpace(doc[i])
    decreases |doc| - p
  {
    if p < |doc| && IsSpace(doc[p]) then SkipSpaces(doc, p + 1) else p
  }

  predicate IsNumberChar(c: char) {
    '0' <= c <= '9' || c == '.' || c == 'e' || c == 'E' || c == '+' || c == '-'
  }

  function NumberEnd(doc: string, p: nat): (q: nat)
    requires p <= |doc|
    ensures p <= q <= |doc|
    ensures q < |doc| ==> !IsNumberChar(doc[q])
    ensures forall i | p <= i < q :: IsNumberChar(doc[i])
    decreases |doc| - p
  {
    if p < |doc| && IsNumberChar(doc[p]) then NumberEnd(doc, p + 1) else p
  }

  /** `readString`, after the opening quote: where it stops, and whether at a closing quote. */
  function StringEnd(doc: string, p: nat): (r: (nat, bool))
    requires p <= |doc|
    ensures p <= r.0 <= |doc|
    ensures r.1 ==> p < r.0 && doc[r.0 - 1] == '"'
    decreases |doc| - p
  {
    if p >= |doc| then (p, false)
    else if doc[p] == '\\' then StringEnd(doc, After(doc, p + 1))
    else if doc[p] == '"' then (p + 1, true)
    else StringEnd(doc, p + 1)
  }

  function Match(doc: string, p: nat, pattern: string): (r: (nat, bool))
    requires p <= |doc|
    ensures p <= r.0 <= |doc|
  {
    if p + |pattern| <= |doc| && doc[p..p + |pattern|] == pattern then (p + |pattern|, true) else (p, false)
  }

  /** The loop of `readCStyleComment`. */
  function CStyleStop(doc: string, p: nat): (q: nat)
    requires p <= |doc|
    ensures p <= q <= |doc|
    decreases |doc| - p
  {
    if p >= |doc| then p
    else if doc[p] == '*' && Peek(doc, p + 1) == '/' then p + 1
    else CStyleStop(doc, p + 1)
  }

  /** `readCppStyleComment`. */
  function CppStyleStop(doc: string, p: nat): (q: nat)
    requires p <= |doc|
    ensures p <= q <= |doc|
    decreases |doc| - p
  {
    if p >= |doc| then p
    else if doc[p] == '\r' || doc[p] == '\n' then p + 1
    else CppStyleStop(doc, p + 1)
  }

  /** `readComment`, after the first slash. */
  function CommentEnd(doc: string, p: nat): (r: (nat, bool))
    requires p <= |doc|
    ensures p <= r.0 <= |doc|
  {
    var c := Peek(doc, p);
    var q := After(doc, p);
    if c == '*' then
      var stop := CStyleStop(doc, q);
      (After(doc, stop), Peek(doc, stop) == '/')
    else if c == '/' then (CppStyleStop(doc, q), true)
    else (q, false)
  }

  function Checked(kind: Kind, start: nat, r: (nat, bool)): Token {
    Token(if r.1 then kind else ErrorToken, start, r.0)
  }

  /** `readToken`. */
  function ReadToken(doc: string, p: nat): (t: Token)
    requires p <= |doc|
    ensures p <= t.start <= t.end <= |doc|
    ensures t.kind != EndOfStream ==> t.start < t.end
    ensures t.start == |doc| ==> t.kind == EndOfStream
    ensures t.kind == StringToken ==> t.end >= t.start + 2 && t.end == StringEnd(doc, t.start + 1).0
  {
    var start := SkipSpaces(doc, p);
    var c := Peek(doc, start);
    var q := After(doc, start);
    if c == '{' then Token(ObjectBegin, start, q)
    else if c == '}' then Token(ObjectEnd, start, q)
    else if c == '[' then Token(ArrayBegin, start, q)
    else if c == ']' then Token(ArrayEnd, start, q)
    else if c == '"' then Checked(StringToken, start, StringEnd(doc, q))
    else if c == '/' then Checked(CommentToken, start, CommentEnd(doc, q))
    else if '0' <= c <= '9' || c == '-' then Token(NumberToken, start, NumberEnd(doc, q))
    else if c == 't' then Checked(TrueToken, start, Match(doc, q, "rue"))
    else if c == 'f' then Checked(FalseToken, start, Match(doc, q, "alse"))
    else if c == 'n' then Checked(NullToken, start, Match(doc, q, "ull"))
    else if c == ',' then Token(ArraySeparator, start, q)
    else if c == ':' then Token(MemberSeparator, start, q)
    else if c == '\0' then Token(EndOfStream, start, q)
    else Token(ErrorToken, start, q)
  }

  /** `skipCommentTokens`: the first token that is not a comment. */
  function NextToken(doc: string, p: nat): (t: Token)
    requires p <= |doc|
    ensures p <= t.start <= t.end <= |doc|
    ensures t.kind != EndOfStream ==> p < t.end && t.start < t.end
    ensures t.kind != CommentToken
    ensures t.kind == StringToken ==> t.end >= t.start + 2
    decreases |doc| - p
  {
    var t := ReadToken(doc, p);
    if t.kind == CommentToken then NextToken(doc, t.end) else t
  }

  /** `recoverFromError`: where it stops, at a token of the given kind or the end. */
  function Recover(doc: string, p: nat, until: Kind): (q: nat)
    requires p <= |doc|
    ensures p <= q <= |doc|
    decreases |doc| - p
  {
    var t := ReadToken(doc, p);
    if t.kind == until || t.kind == EndOfStream then t.end else Recover(doc, t.end, until)
  }
}
