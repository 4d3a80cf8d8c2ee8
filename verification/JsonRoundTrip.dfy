/** Reading what was written: however the tokens of a value are laid out, the reader returns the value. */
module JsonRoundTrip {
  import opened Common
  import opened JsonValue
  import opened JsonText
  import opened JsonScan
  import opened JsonDecode
  import opened JsonRead

  ghost predicate At(doc: string, p: nat, t: string) {
    p + |t| <= |doc| && doc[p..p + |t|] == t
  }

  /** What follows cannot be taken for more of a number. */
  ghost predicate Delimited(doc: string, p: nat) {
    p < |doc| ==> !IsNumberChar(doc[p])
  }

  lemma AtSplit(doc: string, p: nat, a: string, b: string)
    requires At(doc, p, a + b)
    ensures At(doc, p, a) && At(doc, p + |a|, b)
  {
    assert (a + b)[..|a|] == a && (a + b)[|a|..] == b;
  }

  // ----- Single tokens ----------------------------------------------------------------------

  lemma {:induction false} BlankSkipped(doc: string, p: nat, s: string)
    requires Blank(s) && At(doc, p, s) && (p + |s| < |doc| ==> !IsSpace(doc[p + |s|]))
    ensures SkipSpaces(doc, p) == p + |s|
    decreases |s|
  {
    if s != [] {
      assert doc[p] == s[0];
      assert At(doc, p + 1, s[1..]);
      BlankSkipped(doc, p + 1, s[1..]);
    }
  }

  lemma {:induction false} EscapedSkipped(doc: string, p: nat, s: string)
    requires At(doc, p, EscapeAll(s) + "\"")
    ensures StringEnd(doc, p) == (p + |EscapeAll(s)| + 1, true)
    decreases |s|
  {
    hide Escape, StringEnd;
    if s == [] {
      QuoteEnds(doc, p);
    } else {
      var e, rest := Escape(s[0]), EscapeAll(s[1..]) + "\"";
      assert EscapeAll(s) + "\"" == e + rest;
      AtSplit(doc, p, e, rest);
      EscapedSkipped(doc, p + |e|, s[1..]);
      OneSkipped(doc, p, s[0]);
    }
  }

  lemma QuoteEnds(doc: string, p: nat)
    requires At(doc, p, EscapeAll([]) + "\"")
    ensures StringEnd(doc, p) == (p + 1, true)
  {
    assert doc[p] == (EscapeAll([]) + "\"")[0];
  }

  lemma EscapeShape(c: char)
    ensures var e := Escape(c);
      || (|e| == 1 && e[0] != '"' && e[0] != '\\')
      || (|e| == 2 && e[0] == '\\')
      || (|e| == 6 && e[0] == '\\' && forall i | 2 <= i < 6 :: e[i] != '"' && e[i] != '\\')
  {
  }

  lemma OneSkipped(doc: string, p: nat, c: char)
    requires At(doc, p, Escape(c))
    ensures StringEnd(doc, p) == StringEnd(doc, p + |Escape(c)|)
  {
    hide Escape;
    EscapeShape(c);
    var e := Escape(c);
    assert forall i | 0 <= i < |e| :: doc[p + i] == e[i];
    if |e| == 6 {
      assert doc[p + 2] == e[2] && doc[p + 3] == e[3] && doc[p + 4] == e[4] && doc[p + 5] == e[5];
      PlainSkipped(doc, p + 2);
      PlainSkipped(doc, p + 3);
      PlainSkipped(doc, p + 4);
      PlainSkipped(doc, p + 5);
    }
  }

  lemma PlainSkipped(doc: string, p: nat)
    requires p < |doc| && doc[p] != '"' && doc[p] != '\\'
    ensures StringEnd(doc, p) == StringEnd(doc, p + 1)
  {
  }

  lemma {:induction false} NumberSkipped(doc: string, p: nat, s: string)
    requires At(doc, p, s) && Delimited(doc, p + |s|) && forall i | 0 <= i < |s| :: IsNumberChar(s[i])
    ensures NumberEnd(doc, p) == p + |s|
    decreases |s|
  {
    if s != [] {
      assert doc[p] == s[0];
      assert At(doc, p + 1, s[1..]);
      NumberSkipped(doc, p + 1, s[1..]);
    }
  }

  /** The kind of a token that a value is spelled with. */
  function KindOf(tok: string): Kind
    requires tok != []
  {
    match tok[0]
    case '{' => ObjectBegin
    case '}' => ObjectEnd
    case '[' => ArrayBegin
    case ']' => ArrayEnd
    case '"' => StringToken
    case 't' => TrueToken
    case 'f' => FalseToken
    case 'n' => NullToken
    case ',' => ArraySeparator
    case ':' => MemberSeparator
    case _ => NumberToken
  }

  /** A token that writers write. */
  ghost predicate Writable(tok: string) {
    || tok in ["{", "}", "[", "]", ",", ":", "true", "false", "null"]
    || (exists s :: tok == Quoted(s))
    || (exists i: int :: tok == IntText(i))
  }

  /** Any such token, after any white space, is read whole. */
  lemma PieceRead(doc: string, p: nat, pc: Piece)
    requires Blank(pc.space) && Writable(pc.tok) && At(doc, p, pc.space + pc.tok)
    requires (exists i: int :: pc.tok == IntText(i)) ==> Delimited(doc, p + |pc.space + pc.tok|)
    ensures pc.tok != []
    ensures var q := p + |pc.space|;
      ReadToken(doc, p) == Token(KindOf(pc.tok), q, q + |pc.tok|) == NextToken(doc, p)
    ensures TextOf(doc, ReadToken(doc, p)) == pc.tok
  {
    hide ReadToken, NextToken, IntText, Quoted, SkipSpaces, Writable, KindOf;
    var q := p + |pc.space|;
    AtSplit(doc, p, pc.space, pc.tok);
    WritableStart(pc.tok);
    assert doc[q] == pc.tok[0];
    BlankSkipped(doc, p, pc.space);
    ReadAfterSpaces(doc, p);
    TokenRead(doc, q, pc.tok);
    KindIsNoComment(pc.tok);
    NextIsRead(doc, p);
  }

  lemma TokenRead(doc: string, q: nat, tok: string)
    requires Writable(tok) && tok != [] && At(doc, q, tok)
    requires (exists i: int :: tok == IntText(i)) ==> Delimited(doc, q + |tok|)
    ensures ReadToken(doc, q) == Token(KindOf(tok), q, q + |tok|)
  {
    hide ReadToken, IntText, Quoted;
    if s :| tok == Quoted(s) {
      QuotedRead(doc, q, s);
    } else if i: int :| tok == IntText(i) {
      IntTextRead(doc, q, i);
    } else {
      WordRead(doc, q, tok);
    }
  }

  lemma KindIsNoComment(tok: string)
    requires tok != []
    ensures KindOf(tok) != CommentToken
  {
  }

  lemma NextIsRead(doc: string, p: nat)
    requires p <= |doc|
    ensures ReadToken(doc, p).kind != CommentToken ==> NextToken(doc, p) == ReadToken(doc, p)
  {
    hide ReadToken;
  }

  lemma ReadAfterSpaces(doc: string, p: nat)
    requires p <= |doc|
    ensures ReadToken(doc, p) == ReadToken(doc, SkipSpaces(doc, p))
  {
    hide StringEnd, NumberEnd, Match, CommentEnd;
  }

  lemma WordRead(doc: string, q: nat, word: string)
    requires word in ["{", "}", "[", "]", ",", ":", "true", "false", "null"] && At(doc, q, word)
    ensures ReadToken(doc, q) == Token(KindOf(word), q, q + |word|)
  {
    hide StringEnd, NumberEnd, CommentEnd;
    assert doc[q] == word[0];
    assert word[1..] == doc[q + 1..q + |word|];
  }

  lemma WritableStart(tok: string)
    requires Writable(tok)
    ensures tok != [] && !IsSpace(tok[0]) && tok[0] != '/' && tok[0] != '\0'
  {
    if i: int :| tok == IntText(i) {
      assert tok[0] == '-' || '0' <= tok[0] <= '9';
    }
  }

  lemma QuotedRead(doc: string, q: nat, s: string)
    requires At(doc, q, Quoted(s))
    ensures Quoted(s)[0] == '"' && ReadToken(doc, q) == Token(StringToken, q, q + |Quoted(s)|)
  {
    hide EscapeAll, StringEnd, NumberEnd, Match, CommentEnd;
    assert Quoted(s) == "\"" + (EscapeAll(s) + "\"");
    AtSplit(doc, q, "\"", EscapeAll(s) + "\"");
    assert doc[q] == Quoted(s)[0];
    EscapedSkipped(doc, q + 1, s);
  }

  lemma IntTextRead(doc: string, q: nat, i: int)
    requires At(doc, q, IntText(i)) && Delimited(doc, q + |IntText(i)|)
    ensures KindOf(IntText(i)) == NumberToken
    ensures ReadToken(doc, q) == Token(NumberToken, q, q + |IntText(i)|)
  {
    hide StringEnd, NumberEnd, Match, CommentEnd, Decimal;
    var t := IntText(i);
    assert t == [t[0]] + t[1..] && doc[q] == t[0];
    AtSplit(doc, q, [t[0]], t[1..]);
    NumberSkipped(doc, q + 1, t[1..]);
  }

  // ----- Values -----------------------------------------------------------------------------

  /** What a value comes back as: numbers as `IntAgain` says, arrays with a null in place of each gap,
      everything else as it was. */
  function Again(v: Value): Value
    decreases Height(v), 0
  {
    match v
    case Int(i) => IntAgain(i)
    case UInt(u) => IntAgain(u)
    case Arr(es) => ItemsAreLower(es); Arr(Listed(ItemsAgain(Items(es))))
    case Obj(ms) => Obj(MembersAgain(ms))
    case _ => v
  }

  function ItemsAgain(items: seq<Value>): seq<Value>
    decreases ItemsHeight(items), |items|
  {
    if items == [] then [] else [Again(items[0])] + ItemsAgain(items[1..])
  }

  function MembersAgain(ms: seq<Member>): seq<Member>
    decreases MembersHeight(ms), |ms|
  {
    if ms == [] then [] else [Member(ms[0].key, Again(ms[0].value))] + MembersAgain(ms[1..])
  }

  /** `sscanf` accepts every integer the writer writes. */
  ghost predicate ScansIntegers(scan: Scanf) {
    forall i: int | MIN_INT <= i <= MAX_UINT :: scan(IntText(i))
  }

  /** A text of pieces that begins with punctuation ends a number before it. */
  lemma PunctuationDelimits(doc: string, p: nat, ps: seq<Piece>)
    requires At(doc, p, Flat(ps)) && ps != [] && Blank(ps[0].space) && ps[0].tok in [",", "]", "}", ":"]
    ensures Delimited(doc, p)
  {
    var t := ps[0].space + ps[0].tok;
    AtSplit(doc, p, t, Flat(ps[1..]));
    assert doc[p] == t[0];
  }

  lemma TokensSlice(ps: seq<Piece>, n: nat)
    requires n <= |ps|
    ensures |Tokens(ps)| == |ps|
    ensures Tokens(ps[..n]) == Tokens(ps)[..n] && Tokens(ps[n..]) == Tokens(ps)[n..]
  {
  }

  lemma TokensSplit(ps: seq<Piece>, a: seq<string>, b: seq<string>)
    requires Tokens(ps) == a + b
    ensures |ps| == |a| + |b| && Tokens(ps[..|a|]) == a && Tokens(ps[|a|..]) == b
    ensures Flat(ps) == Flat(ps[..|a|]) + Flat(ps[|a|..])
    ensures Spaced(ps) ==> Spaced(ps[..|a|]) && Spaced(ps[|a|..])
  {
    hide Tokens, Flat, Blank;
    TokensSlice(ps, 0);
    TokensSlice(ps, |a|);
    FlatSplit(ps[..|a|], ps[|a|..]);
    assert ps == ps[..|a|] + ps[|a|..];
  }

  /** A text laid out as one token and then more. */
  lemma FirstPiece(doc: string, p: nat, ps: seq<Piece>, tok: string, rest: seq<string>)
    requires Tokens(ps) == [tok] + rest && Spaced(ps) && At(doc, p, Flat(ps))
    ensures ps != [] && ps[0].tok == tok && Blank(ps[0].space) && Tokens(ps[1..]) == rest && Spaced(ps[1..])
    ensures At(doc, p, ps[0].space + tok) && At(doc, p + |ps[0].space + tok|, Flat(ps[1..]))
    ensures |Flat(ps)| == |ps[0].space + tok| + |Flat(ps[1..])|
  {
    TokensSplit(ps, [tok], rest);
    assert Tokens(ps)[0] == tok;
    AtSplit(doc, p, ps[0].space + tok, Flat(ps[1..]));
  }

  lemma StringDecoded(s: string)
    requires '\0' !in s
    ensures |Quoted(s)| >= 2 && DecodeString(Quoted(s)) == Some(s) && CStr(s) == s
  {
    DecodeEscapeAll(s);
    CStrWhole(s);
    assert Quoted(s)[1..|Quoted(s)| - 1] == EscapeAll(s);
  }

  /** A value of one token, decoded from that token. */
  lemma ScalarDecoded(v: Value, scan: Scanf)
    requires Storable(v) && NoReals(v) && !v.Arr? && !v.Obj? && ScansIntegers(scan)
    ensures |Toks(v)| == 1 && Toks(v)[0] != [] && Writable(Toks(v)[0])
    ensures v.Null? || v.Bool? ==>
      KindOf(Toks(v)[0]) == if v == Null then NullToken else if v.b then TrueToken else FalseToken
    ensures v.Int? || v.UInt? ==>
      KindOf(Toks(v)[0]) == NumberToken && DecodeNumber(Toks(v)[0], scan) == Some(Again(v))
    ensures v.Str? ==>
      && KindOf(Toks(v)[0]) == StringToken && |Toks(v)[0]| >= 2
      && DecodeString(Toks(v)[0]) == Some(v.s) && CStr(v.s) == v.s
    ensures !v.Int? && !v.UInt? ==> Again(v) == v
  {
    hide DecodeNumber, EscapeAll, DecodeString, CStr, Decimal;
    match v
    case Int(i) =>
      DecodeIntText(i, scan);
      assert scan(IntText(i));
      NumberStart(i);
    case UInt(u) =>
      DecodeIntText(u, scan);
      assert scan(IntText(u));
      NumberStart(u);
    case Str(s) => StringDecoded(s);
    case _ =>
  }

  lemma NumberStart(i: int)
    ensures IntText(i) != [] && KindOf(IntText(i)) == NumberToken
  {
    hide Decimal;
    assert IntText(i)[0] == '-' || '0' <= IntText(i)[0] <= '9';
  }

  /** A scalar laid out: no integer token looks like anything else. */
  lemma ScalarLaidOut(doc: string, p: nat, ps: seq<Piece>, v: Value, scan: Scanf)
    requires Storable(v) && NoReals(v) && !v.Arr? && !v.Obj? && ScansIntegers(scan)
    requires Spaced(ps) && Tokens(ps) == Toks(v) && At(doc, p, Flat(ps))
    requires v.Int? || v.UInt? ==> Delimited(doc, p + |Flat(ps)|)
    ensures ReadValue(doc, p, scan) == Read(p + |Flat(ps)|, Some(Again(v)))
  {
    hide Toks, Again, KindOf, DecodeNumber, DecodeString, CStr, ReadToken, NextToken, Flat, IntText, Quoted;
    ScalarDecoded(v, scan);
    var tok := Toks(v)[0];
    FirstPiece(doc, p, ps, tok, []);
    assert Flat(ps[1..]) == [] by { FlatNone(ps[1..]); }
    if !v.Int? && !v.UInt? {
      NumberKind(tok);
    }
    PieceRead(doc, p, ps[0]);
  }

  lemma NumberKind(tok: string)
    requires tok != [] && KindOf(tok) != NumberToken
    ensures !exists i: int :: tok == IntText(i)
  {
    hide IntText, KindOf;
    forall i: int ensures tok != IntText(i) {
      NumberStart(i);
    }
  }

  lemma FlatNone(ps: seq<Piece>)
    requires Tokens(ps) == []
    ensures Flat(ps) == []
  {
    assert |Tokens(ps)| == |ps|;
  }

  // One step of each loop of the reader.

  lemma ContainerRead(doc: string, p: nat, scan: Scanf)
    requires p <= |doc|
    ensures NextToken(doc, p).kind == ArrayBegin ==>
      ReadValue(doc, p, scan) == ReadArray(doc, NextToken(doc, p).end, scan)
    ensures NextToken(doc, p).kind == ObjectBegin ==>
      ReadValue(doc, p, scan) == ReadMembers(doc, NextToken(doc, p).end, true, [], scan)
  {
    hide NextToken, ReadArray, ReadMembers;
  }

  lemma ItemRead(doc: string, p: nat, read: seq<Value>, scan: Scanf, q: nat, v: Value)
    requires p <= |doc| && ReadValue(doc, p, scan) == Read(q, Some(v))
    ensures ReadItems(doc, p, read, scan) ==
      if NextToken(doc, q).kind == ArrayEnd then Read(NextToken(doc, q).end, Some(Arr(Listed(read + [v]))))
      else ReadItems(doc, NextToken(doc, q).end, read + [v], scan)
  {
    hide NextToken, ReadValue;
  }

  lemma MembersEnd(doc: string, p: nat, read: seq<Member>, scan: Scanf)
    requires p <= |doc| && NextToken(doc, p).kind == ObjectEnd
    ensures ReadMembers(doc, p, true, read, scan) == Read(NextToken(doc, p).end, Some(Obj(read)))
  {
    hide NextToken;
  }

  lemma MemberRead(doc: string, p: nat, unnamed: bool, read: seq<Member>, scan: Scanf,
                   name: Token, key: string, colon: Token, q: nat, v: Value, comma: Token)
    requires p <= |doc| && name == NextToken(doc, p) && name.kind == StringToken
    requires DecodeString(TextOf(doc, name)) == Some(key) && CStr(key) == key
    requires colon == ReadToken(doc, name.end) && colon.kind == MemberSeparator
    requires ReadValue(doc, colon.end, scan) == Read(q, Some(v))
    requires comma == ReadToken(doc, q) == NextToken(doc, q) && comma.kind in {ObjectEnd, ArraySeparator}
    ensures ReadMembers(doc, p, unnamed, read, scan) ==
      if comma.kind == ObjectEnd then Read(comma.end, Some(Obj(Put(read, key, v))))
      else ReadMembers(doc, comma.end, key == [], Put(read, key, v), scan)
  {
    hide NextToken, ReadToken, ReadValue, Put, DecodeString, CStr;
  }

  ghost predicate ItemsHeld(items: seq<Value>) {
    forall i | 0 <= i < |items| :: Storable(items[i]) && NoReals(items[i])
  }

  /** With its gaps filled an array is one of values that can be stored. */
  lemma ArrayHeld(es: seq<Entry>)
    requires Storable(Arr(es)) && NoReals(Arr(es))
    ensures ItemsHeld(Items(es))
  {
    forall i | 0 <= i < Span(es) ensures Storable(Items(es)[i]) && NoReals(Items(es)[i]) {
      LookupIs(es, i);
    }
  }

  lemma ItemParts(items: seq<Value>)
    requires ItemsHeld(items) && items != []
    ensures Storable(items[0]) && NoReals(items[0]) && ItemsHeld(items[1..])
  {
  }

  lemma ItemsHeights(items: seq<Value>)
    requires items != []
    ensures Height(items[0]) <= ItemsHeight(items) && ItemsHeight(items[1..]) <= ItemsHeight(items)
  {
  }

  lemma MembersHeights(ms: seq<Member>)
    requires ms != []
    ensures Height(ms[0].value) <= MembersHeight(ms) && MembersHeight(ms[1..]) <= MembersHeight(ms)
  {
  }

  lemma MemberParts(ms: seq<Member>)
    requires Storable(Obj(ms)) && NoReals(Obj(ms)) && ms != []
    ensures '\0' !in ms[0].key && Storable(ms[0].value) && NoReals(ms[0].value)
    ensures Storable(Obj(ms[1..])) && NoReals(Obj(ms[1..]))
    ensures forall i | 0 <= i < |ms| - 1 :: StrLess(ms[0].key, ms[1..][i].key)
  {
  }

  lemma ContainerToks(v: Value)
    ensures v.Arr? ==> Toks(v) == ["["] + ItemToks(Items(v.entries), true) + ["]"]
    ensures v.Obj? ==> Toks(v) == ["{"] + MemberToks(v.members, true) + ["}"]
  {
  }

  lemma ContainerAgain(v: Value)
    ensures v.Arr? ==> Again(v) == Arr(Listed(ItemsAgain(Items(v.entries))))
    ensures v.Obj? ==> Again(v) == Obj(MembersAgain(v.members))
  {
  }

  // Whole values.

  /** An opening token, which sends the reader into an array or an object. */
  lemma Opened(doc: string, p: nat, ps: seq<Piece>, open: string, rest: seq<string>, scan: Scanf)
    requires open in ["[", "{"] && Spaced(ps) && Tokens(ps) == [open] + rest && At(doc, p, Flat(ps))
    ensures p <= |doc| && ps != [] && Spaced(ps[1..]) && Tokens(ps[1..]) == rest
    ensures var q := p + |ps[0].space + open|;
      && q <= |doc| && At(doc, q, Flat(ps[1..])) && q + |Flat(ps[1..])| == p + |Flat(ps)|
      && ReadValue(doc, p, scan) ==
        if open == "[" then ReadArray(doc, q, scan) else ReadMembers(doc, q, true, [], scan)
  {
    hide ReadToken, NextToken, ReadArray, ReadMembers, ReadValue, Flat, Tokens, Blank;
    FirstPiece(doc, p, ps, open, rest);
    PunctuationRead(doc, p, ps[0]);
    ContainerRead(doc, p, scan);
  }

  lemma {:induction false} ReadLaidOut(doc: string, p: nat, ps: seq<Piece>, v: Value, scan: Scanf)
    requires Storable(v) && NoReals(v) && ScansIntegers(scan)
    requires Spaced(ps) && Tokens(ps) == Toks(v) && At(doc, p, Flat(ps))
    requires v.Int? || v.UInt? ==> Delimited(doc, p + |Flat(ps)|)
    ensures ReadValue(doc, p, scan) == Read(p + |Flat(ps)|, Some(Again(v)))
    decreases Height(v), 0, 0
  {
    hide ReadArray, ReadMembers, ReadValue, Flat, Storable, NoReals, At, ScansIntegers, ItemToks, MemberToks,
      ItemsAgain, MembersAgain, Tokens, Items, EntriesHeight, ItemsHeight, MembersHeight, Toks, Again, Spaced;
    ContainerToks(v);
    ContainerAgain(v);
    match v
    case Arr(es) =>
      var rest := ItemToks(Items(es), true) + ["]"];
      ArrayHeld(es);
      ItemsAreLower(es);
      assert Toks(v) == ["["] + rest;
      Opened(doc, p, ps, "[", rest, scan);
      ArrayLaidOut(doc, p + |ps[0].space + "["|, ps[1..], Items(es), scan);
    case Obj(ms) =>
      var rest := MemberToks(ms, true) + ["}"];
      assert Toks(v) == ["{"] + rest;
      Opened(doc, p, ps, "{", rest, scan);
      MembersLaidOut(doc, p + |ps[0].space + "{"|, ps[1..], ms, true, [], scan);
      assert [] + MembersAgain(ms) == MembersAgain(ms);
    case _ =>
      ScalarLaidOut(doc, p, ps, v, scan);
  }

  lemma PunctuationRead(doc: string, p: nat, pc: Piece)
    requires pc.tok in ["{", "}", "[", "]", ",", ":"] && Blank(pc.space) && At(doc, p, pc.space + pc.tok)
    ensures var q := p + |pc.space + pc.tok|;
      p <= |doc| && ReadToken(doc, p) == NextToken(doc, p) == Token(KindOf(pc.tok), p + |pc.space|, q)
  {
    hide ReadToken, NextToken;
    PunctuationIsNoNumber(pc.tok);
    PieceRead(doc, p, pc);
  }

  lemma PunctuationIsNoNumber(tok: string)
    requires tok in ["{", "}", "[", "]", ",", ":"]
    ensures !exists i: int :: tok == IntText(i)
  {
    forall i: int ensures tok != IntText(i) {
      NumberStart(i);
    }
  }

  lemma AtIn(doc: string, p: nat, t: string)
    requires At(doc, p, t)
    ensures p + |t| <= |doc|
  {
  }

  /** The pieces of a value, the punctuation after it, and the pieces that follow. */
  lemma ValuePieces(doc: string, p: nat, ps: seq<Piece>, value: seq<string>, sep: string, rest: seq<string>)
    requires sep in [",", "]", "}"] && Spaced(ps) && Tokens(ps) == value + ([sep] + rest) && At(doc, p, Flat(ps))
    ensures |value| < |ps|
    ensures var a, q := ps[..|value|], p + |Flat(ps[..|value|])|;
      && Spaced(a) && Tokens(a) == value && At(doc, p, Flat(a)) && Delimited(doc, q)
      && q <= |doc| && ReadToken(doc, q) == NextToken(doc, q) && NextToken(doc, q).kind == KindOf(sep)
    ensures var c, r := ps[|value| + 1..], NextToken(doc, p + |Flat(ps[..|value|])|).end;
      Spaced(c) && Tokens(c) == rest && At(doc, r, Flat(c)) && r + |Flat(c)| == p + |Flat(ps)|
  {
    hide ReadToken, NextToken, Flat, Tokens, At;
    TokensSplit(ps, value, [sep] + rest);
    var a, b := ps[..|value|], ps[|value|..];
    AtSplit(doc, p, Flat(a), Flat(b));
    AtIn(doc, p, Flat(a));
    var q := p + |Flat(a)|;
    FirstPiece(doc, q, b, sep, rest);
    PunctuationDelimits(doc, q, b);
    PunctuationRead(doc, q, b[0]);
    assert ps[|value| + 1..] == b[1..];
  }

  /** `readArray` looks at the first token: a closing bracket, or the first item. */
  lemma ArrayStep(doc: string, p: nat, scan: Scanf)
    requires p <= |doc|
    ensures ReadToken(doc, p).kind == ArrayEnd ==>
      ReadArray(doc, p, scan) == Read(ReadToken(doc, p).end, Some(Arr([])))
    ensures ReadToken(doc, p).kind != ArrayEnd ==> ReadArray(doc, p, scan) == ReadItems(doc, p, [], scan)
  {
    hide ReadToken, ReadMembers;
    var q := SkipSpaces(doc, p);
    ReadAfterSpaces(doc, p);
    BracketIsArrayEnd(doc, p);
    assert ReadToken(doc, q) == ReadToken(doc, p);
    SameStart(doc, p, q, scan);
  }

  lemma SameStart(doc: string, p: nat, q: nat, scan: Scanf)
    requires p <= |doc| && q <= |doc| && ReadToken(doc, p) == ReadToken(doc, q)
    ensures ReadItems(doc, p, [], scan) == ReadItems(doc, q, [], scan)
  {
    hide ReadToken, ReadMembers, ReadArray;
    assert NextToken(doc, q) == NextToken(doc, p);
    assert ReadValue(doc, q, scan) == ReadValue(doc, p, scan);
  }

  lemma BracketIsArrayEnd(doc: string, p: nat)
    requires p <= |doc|
    ensures ReadToken(doc, p).kind == ArrayEnd <==> Peek(doc, SkipSpaces(doc, p)) == ']'
  {
    hide StringEnd, NumberEnd, Match, CommentEnd, SkipSpaces;
  }

  lemma FirstOfValue(v: Value)
    requires NoReals(v)
    ensures Toks(v) != [] && Toks(v)[0] != [] && Toks(v)[0][0] != ']' && !IsSpace(Toks(v)[0][0])
  {
    match v
    case Int(i) => NumberStart(i);
    case UInt(u) => NumberStart(u);
    case _ =>
  }

  lemma ItemFirst(doc: string, p: nat, ps: seq<Piece>, toks: seq<string>)
    requires toks != [] && toks[0] != [] && toks[0][0] != ']' && !IsSpace(toks[0][0])
    requires Spaced(ps) && Tokens(ps) == toks && At(doc, p, Flat(ps)) && p <= |doc|
    ensures ReadToken(doc, p).kind != ArrayEnd
  {
    hide ReadToken;
    assert toks == [toks[0]] + toks[1..];
    FirstPiece(doc, p, ps, toks[0], toks[1..]);
    AtSplit(doc, p, ps[0].space, toks[0]);
    assert doc[p + |ps[0].space|] == toks[0][0];
    BlankSkipped(doc, p, ps[0].space);
    BracketIsArrayEnd(doc, p);
  }

  lemma {:induction false} ArrayLaidOut(doc: string, p: nat, ps: seq<Piece>, items: seq<Value>, scan: Scanf)
    requires ItemsHeld(items) && ScansIntegers(scan)
    requires Spaced(ps) && Tokens(ps) == ItemToks(items, true) + ["]"] && At(doc, p, Flat(ps)) && p <= |doc|
    ensures ReadArray(doc, p, scan) == Read(p + |Flat(ps)|, Some(Arr(Listed(ItemsAgain(items)))))
    decreases ItemsHeight(items), 2, 0
  {
    hide ReadToken, NextToken, ReadItems, ReadArray, ItemToks, Toks, Flat, Storable, NoReals, At, ScansIntegers, Tokens;
    ArrayStep(doc, p, scan);
    if items == [] {
      ItemToksNone(items, true);
      assert ItemToks(items, true) + ["]"] == ["]"] + [];
      FirstPiece(doc, p, ps, "]", []);
      PunctuationRead(doc, p, ps[0]);
      FlatNone(ps[1..]);
      ItemsAgainNone(items);
      assert Listed(ItemsAgain(items)) == [];
    } else {
      ItemParts(items);
      FirstOfValue(items[0]);
      ItemToksUnfold(items, true);
      ItemFirst(doc, p, ps, ItemToks(items, true) + ["]"]);
      ItemsLaidOut(doc, p, ps, items, [], scan);
      assert [] + ItemsAgain(items) == ItemsAgain(items);
    }
  }

  lemma {:induction false} ItemsLaidOut(doc: string, p: nat, ps: seq<Piece>, items: seq<Value>,
                                        read: seq<Value>, scan: Scanf)
    requires ItemsHeld(items) && ScansIntegers(scan) && items != []
    requires Spaced(ps) && Tokens(ps) == ItemToks(items, true) + ["]"] && At(doc, p, Flat(ps)) && p <= |doc|
    ensures ReadItems(doc, p, read, scan) == Read(p + |Flat(ps)|, Some(Arr(Listed(read + ItemsAgain(items)))))
    decreases ItemsHeight(items), 1, |items|
  {
    hide ReadToken, NextToken, ReadItems, ReadValue, Toks, ItemToks, ItemsAgain, Again, Flat, Storable, NoReals, At,
      ScansIntegers, Tokens, Height, ItemsHeight, Listed, ItemsHeld;
    ItemParts(items);
    ItemsHeights(items);
    ItemToksSplit(items);
    ItemsAgainSplit(read, items);
    var last, n := |items| == 1, |Toks(items[0])|;
    var rest := if last then [] else ItemToks(items[1..], true) + ["]"];
    ValuePieces(doc, p, ps, Toks(items[0]), if last then "]" else ",", rest);
    var q := p + |Flat(ps[..n])|;
    ReadLaidOut(doc, p, ps[..n], items[0], scan);
    ItemRead(doc, p, read, scan, q, Again(items[0]));
    if last {
      FlatNone(ps[n + 1..]);
    } else {
      ItemsLaidOut(doc, NextToken(doc, q).end, ps[n + 1..], items[1..], read + [Again(items[0])], scan);
    }
  }

  lemma Regroup<T>(t: seq<T>, r: seq<T>, c: seq<T>, i: seq<T>, e: seq<T>)
    requires r == c + i
    ensures t + r + e == t + (c + (i + e))
  {
    assert t + (c + i) + e == t + (c + (i + e));
  }

  lemma ItemToksSplit(items: seq<Value>)
    requires items != []
    ensures |items| == 1 ==> ItemToks(items, true) + ["]"] == Toks(items[0]) + (["]"] + [])
    ensures |items| > 1 ==>
      ItemToks(items, true) + ["]"] == Toks(items[0]) + ([","] + (ItemToks(items[1..], true) + ["]"]))
  {
    hide Toks, ItemToks;
    ItemToksUnfold(items, true);
    if |items| > 1 {
      ItemToksTail(items[1..]);
      Regroup(Toks(items[0]), ItemToks(items[1..], false), [","], ItemToks(items[1..], true), ["]"]);
    } else {
      ItemToksNone(items[1..], false);
    }
  }

  lemma ItemToksTail(items: seq<Value>)
    requires items != []
    ensures ItemToks(items, false) == [","] + ItemToks(items, true)
  {
    hide Toks, ItemToks;
    ItemToksUnfold(items, true);
    ItemToksUnfold(items, false);
    var t, r := Toks(items[0]), ItemToks(items[1..], false);
    assert [","] + t + r == [","] + (t + r);
  }

  lemma ItemToksUnfold(items: seq<Value>, first: bool)
    requires items != []
    ensures ItemToks(items, first) ==
      (if first then Toks(items[0]) else [","] + Toks(items[0])) + ItemToks(items[1..], false)
  {
    hide Toks;
    assert [] + Toks(items[0]) == Toks(items[0]);
  }

  lemma ItemToksNone(items: seq<Value>, first: bool)
    requires items == []
    ensures ItemToks(items, first) == []
  {
  }

  lemma ItemsAgainSplit(read: seq<Value>, items: seq<Value>)
    requires items != []
    ensures read + ItemsAgain(items) == read + [Again(items[0])] + ItemsAgain(items[1..])
    ensures |items| == 1 ==> read + ItemsAgain(items) == read + [Again(items[0])]
  {
    hide Again, ItemsAgain;
    ItemsAgainUnfold(items);
    RegroupHead(read, Again(items[0]), ItemsAgain(items[1..]));
    if |items| == 1 {
      ItemsAgainNone(items[1..]);
    }
  }

  lemma ItemsAgainUnfold(items: seq<Value>)
    requires items != []
    ensures ItemsAgain(items) == [Again(items[0])] + ItemsAgain(items[1..])
  {
    hide Again;
  }

  lemma ItemsAgainNone(items: seq<Value>)
    requires items == []
    ensures ItemsAgain(items) == []
  {
  }

  /** The pieces of a key and the colon after it. */
  lemma KeyPieces(doc: string, p: nat, ps: seq<Piece>, key: string, rest: seq<string>)
    requires '\0' !in key && Spaced(ps) && Tokens(ps) == [Quoted(key), ":"] + rest && At(doc, p, Flat(ps))
    ensures p <= |doc| && |ps| >= 2 && NextToken(doc, p).kind == StringToken
    ensures DecodeString(TextOf(doc, NextToken(doc, p))) == Some(key) && CStr(key) == key
    ensures var colon := ReadToken(doc, NextToken(doc, p).end); var c := ps[2..];
      && colon.kind == MemberSeparator
      && Spaced(c) && Tokens(c) == rest && At(doc, colon.end, Flat(c)) && colon.end + |Flat(c)| == p + |Flat(ps)|
  {
    hide ReadToken, NextToken, Flat, Tokens, At, Quoted, DecodeString, CStr, Blank, TextOf;
    assert [Quoted(key), ":"] + rest == [Quoted(key)] + ([":"] + rest);
    FirstPiece(doc, p, ps, Quoted(key), [":"] + rest);
    var b := ps[1..];
    var q := p + |ps[0].space + Quoted(key)|;
    FirstPiece(doc, q, b, ":", rest);
    KeyRead(doc, p, ps[0], key);
    PunctuationRead(doc, q, b[0]);
    assert ps[2..] == b[1..];
    AtIn(doc, q + |b[0].space + ":"|, Flat(b[1..]));
  }

  lemma KeyRead(doc: string, p: nat, pc: Piece, key: string)
    requires '\0' !in key && Blank(pc.space) && pc.tok == Quoted(key) && At(doc, p, pc.space + pc.tok)
    ensures p <= |doc| && NextToken(doc, p).kind == StringToken
    ensures NextToken(doc, p).end == p + |pc.space + pc.tok|
    ensures DecodeString(TextOf(doc, NextToken(doc, p))) == Some(key) && CStr(key) == key
  {
    hide ReadToken, NextToken, Quoted, DecodeString, CStr, IntText, EscapeAll;
    QuotedKind(key);
    PieceRead(doc, p, pc);
    StringDecoded(key);
  }

  lemma QuotedKind(s: string)
    ensures Quoted(s) != [] && KindOf(Quoted(s)) == StringToken
    ensures Writable(Quoted(s)) && !exists i: int :: Quoted(s) == IntText(i)
  {
    hide EscapeAll, IntText;
    forall i: int ensures Quoted(s) != IntText(i) {
      NumberStart(i);
    }
  }

  function KeyToks(m: Member): seq<string> {
    [Quoted(m.key), ":"]
  }

  lemma MemberToksSplit(ms: seq<Member>)
    requires ms != []
    ensures |ms| == 1 ==> MemberToks(ms, true) + ["}"] == KeyToks(ms[0]) + (Toks(ms[0].value) + (["}"] + []))
    ensures |ms| > 1 ==>
      MemberToks(ms, true) + ["}"] ==
        KeyToks(ms[0]) + (Toks(ms[0].value) + ([","] + (MemberToks(ms[1..], true) + ["}"])))
  {
    hide Toks, MemberToks, KeyToks;
    MemberToksUnfold(ms, true);
    if |ms| > 1 {
      MemberToksTail(ms[1..]);
      RegroupKey(KeyToks(ms[0]), Toks(ms[0].value), MemberToks(ms[1..], false), [","],
                 MemberToks(ms[1..], true), ["}"]);
    } else {
      MemberToksNone(ms[1..], false);
      RegroupKey(KeyToks(ms[0]), Toks(ms[0].value), [], [], [], ["}"]);
      assert [] + ([] + ["}"]) == ["}"] + [];
    }
  }

  lemma RegroupKey<T>(k: seq<T>, t: seq<T>, r: seq<T>, c: seq<T>, i: seq<T>, e: seq<T>)
    requires r == c + i
    ensures k + t + r + e == k + (t + (c + (i + e)))
  {
    Regroup(t, r, c, i, e);
    assert k + t + r + e == k + (t + r + e);
  }

  lemma MemberToksTail(ms: seq<Member>)
    requires ms != []
    ensures MemberToks(ms, false) == [","] + MemberToks(ms, true)
  {
    hide Toks, MemberToks, KeyToks;
    MemberToksUnfold(ms, true);
    MemberToksUnfold(ms, false);
    var k, v, r := KeyToks(ms[0]), Toks(ms[0].value), MemberToks(ms[1..], false);
    assert [","] + k + v + r == [","] + (k + v + r);
  }

  lemma MemberToksUnfold(ms: seq<Member>, first: bool)
    requires ms != []
    ensures MemberToks(ms, first) ==
      (if first then KeyToks(ms[0]) else [","] + KeyToks(ms[0])) + Toks(ms[0].value) + MemberToks(ms[1..], false)
  {
    hide Toks, Quoted;
    assert [] + [Quoted(ms[0].key), ":"] == KeyToks(ms[0]);
  }

  lemma MemberToksNone(ms: seq<Member>, first: bool)
    requires ms == []
    ensures MemberToks(ms, first) == []
  {
  }

  lemma MembersAgainUnfold(ms: seq<Member>)
    requires ms != []
    ensures MembersAgain(ms) == [Member(ms[0].key, Again(ms[0].value))] + MembersAgain(ms[1..])
  {
  }

  lemma MembersAgainSplit(read: seq<Member>, ms: seq<Member>)
    requires ms != []
    ensures read + MembersAgain(ms) == read + [Member(ms[0].key, Again(ms[0].value))] + MembersAgain(ms[1..])
    ensures |ms| == 1 ==> read + MembersAgain(ms) == read + [Member(ms[0].key, Again(ms[0].value))]
  {
    hide Again, MembersAgain;
    MembersAgainUnfold(ms);
    RegroupHead(read, Member(ms[0].key, Again(ms[0].value)), MembersAgain(ms[1..]));
    if |ms| == 1 {
      MembersAgainNone(ms[1..]);
    }
  }

  lemma MembersAgainNone(ms: seq<Member>)
    requires ms == []
    ensures MembersAgain(ms) == []
  {
  }

  lemma RegroupHead<T>(r: seq<T>, h: T, t: seq<T>)
    ensures r + ([h] + t) == r + [h] + t
  {
  }

  lemma NoMembersRead(doc: string, p: nat, ps: seq<Piece>, read: seq<Member>, scan: Scanf)
    requires Spaced(ps) && Tokens(ps) == ["}"] + [] && At(doc, p, Flat(ps)) && p <= |doc|
    ensures ReadMembers(doc, p, true, read, scan) == Read(p + |Flat(ps)|, Some(Obj(read)))
  {
    hide ReadToken, NextToken, ReadMembers, Flat, Tokens;
    FirstPiece(doc, p, ps, "}", []);
    PunctuationRead(doc, p, ps[0]);
    FlatNone(ps[1..]);
    MembersEnd(doc, p, read, scan);
  }

  lemma {:induction false} MembersLaidOut(doc: string, p: nat, ps: seq<Piece>, ms: seq<Member>,
                                          unnamed: bool, read: seq<Member>, scan: Scanf)
    requires Storable(Obj(ms)) && NoReals(Obj(ms)) && ScansIntegers(scan) && (ms == [] ==> unnamed)
    requires forall i, j | 0 <= i < |read| && 0 <= j < |ms| :: StrLess(read[i].key, ms[j].key)
    requires Spaced(ps) && Tokens(ps) == MemberToks(ms, true) + ["}"] && At(doc, p, Flat(ps)) && p <= |doc|
    ensures ReadMembers(doc, p, unnamed, read, scan)
      == Read(p + |Flat(ps)|, Some(Obj(read + MembersAgain(ms))))
    decreases MembersHeight(ms), 1, |ms|
  {
    hide ReadToken, NextToken, ReadMembers, ReadValue, MemberToks, Toks, Flat, Storable, NoReals, At,
      ScansIntegers, Tokens, MembersAgain, Again, StrLess, Quoted, DecodeString, CStr, Height, MembersHeight,
      Spaced, Put, Delimited, TextOf;
    if ms == [] {
      MemberToksNone(ms, true);
      assert MemberToks(ms, true) + ["}"] == ["}"] + [];
      NoMembersRead(doc, p, ps, read, scan);
      MembersAgainNone(ms);
      assert read + MembersAgain(ms) == read;
    } else {
      MemberParts(ms);
      MembersHeights(ms);
      MemberToksSplit(ms);
      MembersAgainSplit(read, ms);
      var m := Member(ms[0].key, Again(ms[0].value));
      PutLast(read, m.key, m.value);
      var last, n := |ms| == 1, |Toks(ms[0].value)|;
      var rest := if last then [] else MemberToks(ms[1..], true) + ["}"];
      var sep := if last then "}" else ",";
      KeyPieces(doc, p, ps, m.key, Toks(ms[0].value) + ([sep] + rest));
      var b, o := ps[2..], ReadToken(doc, NextToken(doc, p).end).end;
      ValuePieces(doc, o, b, Toks(ms[0].value), sep, rest);
      var q := o + |Flat(b[..n])|;
      ReadLaidOut(doc, o, b[..n], ms[0].value, scan);
      MemberRead(doc, p, unnamed, read, scan, NextToken(doc, p), m.key,
                 ReadToken(doc, NextToken(doc, p).end), q, m.value, NextToken(doc, q));
      if last {
        FlatNone(b[n + 1..]);
      } else {
        MembersLaidOut(doc, NextToken(doc, q).end, b[n + 1..], ms[1..], m.key == [], read + [m], scan);
      }
    }
  }

  // ----- Main results -----------------------------------------------------------------------

  /** However the tokens of a value are laid out, the reader returns the value (numbers as `IntAgain`
      says), whatever comes after. */
  lemma ParseLaidOut(ps: seq<Piece>, v: Value, rest: string, scan: Scanf)
    requires Storable(v) && NoReals(v) && ScansIntegers(scan)
    requires Spaced(ps) && Tokens(ps) == Toks(v)
    requires (v.Int? || v.UInt?) && rest != [] ==> !IsNumberChar(rest[0])
    ensures Parse(Flat(ps) + rest, scan) == Some(Again(v))
  {
    hide Flat, Spaced, Tokens, Toks, Again, ReadValue, Storable, NoReals, ScansIntegers, IsNumberChar;
    var doc := Flat(ps) + rest;
    assert At(doc, 0, Flat(ps));
    assert rest != [] ==> doc[|Flat(ps)|] == rest[0];
    ReadLaidOut(doc, 0, ps, v, scan);
  }

  /** `Reader::parse` of what `FastWriter::write` writes. */
  lemma FastRoundTrip(v: Value, scan: Scanf)
    requires Storable(v) && NoReals(v) && ScansIntegers(scan)
    ensures Parse(Fast(v) + "\n", scan) == Some(Again(v))
  {
    FlatTight(Toks(v));
    ParseLaidOut(Tight(Toks(v)), v, "\n", scan);
  }
}
