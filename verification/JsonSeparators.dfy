/** What separates the items of an array is not looked at.

    `Reader::readArray` means to demand a comma or a closing bracket after each item, but tests whether
    the token is both. So any token other than a closing bracket takes the place of a comma. */
module JsonSeparators {
  import opened Common
  import opened JsonValue
  import opened JsonText
  import opened JsonScan
  import opened JsonDecode
  import opened JsonRead
  import opened JsonRoundTrip

  /** A text that the tokenizer reads whole, as one token, however the document goes on: it begins with no
      white space, and it is not a string or a comment that only lacks its end. */
  predicate Whole(tok: string) {
    && tok != [] && ReadToken(tok, 0).start == 0 && ReadToken(tok, 0).end == |tok|
    && (ReadToken(tok, 0).kind == ErrorToken ==>
      tok[0] != '"' && (tok[0] == '/' ==> |tok| == 2 && tok[1] != '*'))
  }

  /** Any token but a closing bracket, a comment, or the end of the document; one that is no JSON too. */
  predicate Separator(tok: string) {
    Whole(tok) && ReadToken(tok, 0).kind !in {ArrayEnd, CommentToken, EndOfStream}
  }

  /** The tokenizer goes by the first character. */
  predicate Numeric(tok: string) {
    tok != [] && ('0' <= tok[0] <= '9' || tok[0] == '-')
  }

  /** White space stands between a number and what would be taken for more of it. */
  ghost predicate NumbersApart(ps: seq<Piece>) {
    forall i | 0 < i < |ps| && Numeric(ps[i - 1].tok) && ps[i].space == "" ::
      ps[i].tok != [] && !IsNumberChar(ps[i].tok[0])
  }

  /** The tokens of items with these separators, and the closing bracket. */
  function Parted(items: seq<Value>, seps: seq<string>): seq<string>
    requires |items| == |seps| + 1
    decreases |seps|
  {
    Toks(items[0]) + if seps == [] then ["]"] + [] else [seps[0]] + Parted(items[1..], seps[1..])
  }

  // ----- Tokens -----------------------------------------------------------------------------

  lemma {:induction false} StringLies(doc: string, q: nat, tok: string, i: nat)
    requires At(doc, q, tok) && i <= |tok| && StringEnd(tok, i) == (|tok|, true)
    ensures StringEnd(doc, q + i) == (q + |tok|, true)
    decreases |tok| - i
  {
    assert i < |tok| ==> doc[q..q + |tok|][i] == tok[i];
    if i < |tok| && tok[i] == '\\' {
      StringLies(doc, q, tok, After(tok, i + 1));
    } else if i < |tok| && tok[i] != '"' {
      StringLies(doc, q, tok, i + 1);
    }
  }

  /** No word of JSON goes on here. */
  ghost predicate NoWord(doc: string, p: nat) {
    p < |doc| ==> doc[p] != 'r' && doc[p] != 'a' && doc[p] != 'u'
  }

  lemma MatchLies(doc: string, q: nat, tok: string, pattern: string)
    requires At(doc, q, tok) && tok != [] && Match(tok, 1, pattern).0 == |tok| && pattern != []
    requires NoWord(doc, q + |tok|) && pattern[0] in "rau"
    ensures Match(doc, q + 1, pattern) == (q + |tok|, Match(tok, 1, pattern).1)
  {
    if Match(tok, 1, pattern).1 {
      assert doc[q + 1..q + 1 + |pattern|] == doc[q..q + |tok|][1..] == tok[1..];
    } else if q + 1 + |pattern| <= |doc| {
      assert doc[q + 1..q + 1 + |pattern|][0] == doc[q + 1];
    }
  }

  lemma {:induction false} NumberChars(tok: string, i: nat)
    requires i <= |tok| && NumberEnd(tok, i) == |tok|
    ensures forall k | 0 <= k < |tok| - i :: IsNumberChar(tok[i..][k])
  {
  }

  lemma NumberLies(doc: string, q: nat, tok: string)
    requires At(doc, q, tok) && tok != [] && NumberEnd(tok, 1) == |tok| && Delimited(doc, q + |tok|)
    ensures NumberEnd(doc, q + 1) == q + |tok|
  {
    NumberChars(tok, 1);
    assert doc[q + 1..q + |tok|] == doc[q..q + |tok|][1..] == tok[1..];
    NumberSkipped(doc, q + 1, tok[1..]);
  }

  /** A comment that is none: a slash and one more character. */
  lemma SlashLies(doc: string, q: nat, tok: string)
    requires At(doc, q, tok) && Separator(tok) && tok[0] == '/'
    ensures CommentEnd(doc, q + 1) == (q + 2, false) && |tok| == 2 && ReadToken(tok, 0).kind == ErrorToken
  {
    hide CStyleStop, CppStyleStop;
    assert Peek(tok, 0) == '/' && SkipSpaces(tok, 0) == 0;
    assert ReadToken(tok, 0) == Checked(CommentToken, 0, CommentEnd(tok, 1));
    assert doc[q..q + 2][1] == tok[1];
  }

  /** Such a token is read whole wherever it stands. */
  lemma WholeRead(doc: string, q: nat, tok: string)
    requires Separator(tok) && At(doc, q, tok) && NoWord(doc, q + |tok|)
    requires Numeric(tok) ==> Delimited(doc, q + |tok|)
    ensures q < |doc| && ReadToken(doc, q) == Token(ReadToken(tok, 0).kind, q, q + |tok|)
  {
    hide StringEnd, NumberEnd, Match, CommentEnd;
    assert doc[q..q + |tok|][0] == tok[0];
    assert !IsSpace(tok[0]) && SkipSpaces(tok, 0) == 0 && SkipSpaces(doc, q) == q;
    if tok[0] == '"' {
      StringLies(doc, q, tok, 1);
    } else if tok[0] == '/' {
      SlashLies(doc, q, tok);
    } else if Numeric(tok) {
      NumberLies(doc, q, tok);
    } else if tok[0] == 't' {
      MatchLies(doc, q, tok, "rue");
    } else if tok[0] == 'f' {
      MatchLies(doc, q, tok, "alse");
    } else if tok[0] == 'n' {
      MatchLies(doc, q, tok, "ull");
    }
  }

  /** The same after white space. */
  lemma SeparatorTaken(doc: string, q: nat, pc: Piece)
    requires Blank(pc.space) && Separator(pc.tok) && At(doc, q, pc.space + pc.tok)
    requires NoWord(doc, q + |pc.space + pc.tok|)
    requires Numeric(pc.tok) ==> Delimited(doc, q + |pc.space + pc.tok|)
    ensures q <= |doc| && NextToken(doc, q).kind != ArrayEnd && NextToken(doc, q).end == q + |pc.space + pc.tok|
  {
    hide ReadToken, NextToken, SkipSpaces;
    var r := q + |pc.space|;
    AtSplit(doc, q, pc.space, pc.tok);
    WholeRead(doc, r, pc.tok);
    NoSpaceFirst(pc.tok);
    assert doc[r..r + |pc.tok|][0] == pc.tok[0];
    BlankSkipped(doc, q, pc.space);
    ReadAfterSpaces(doc, q);
    NextIsRead(doc, q);
  }

  lemma NoSpaceFirst(tok: string)
    requires Separator(tok)
    ensures tok != [] && !IsSpace(tok[0])
  {
    assert SkipSpaces(tok, 0) == 0;
  }

  /** A number before a piece ends there. */
  lemma PieceDelimits(doc: string, q: nat, b: seq<Piece>)
    requires At(doc, q, Flat(b)) && b != [] && Blank(b[0].space)
    requires b[0].space == "" ==> b[0].tok != [] && !IsNumberChar(b[0].tok[0])
    ensures Delimited(doc, q)
  {
    var t := b[0].space + b[0].tok;
    AtSplit(doc, q, t, Flat(b[1..]));
    assert t != [] ==> doc[q..q + |t|][0] == t[0];
  }

  /** No item begins like the rest of a word. */
  lemma ItemIsNoWord(doc: string, q: nat, b: seq<Piece>)
    requires At(doc, q, Flat(b)) && b != [] && Blank(b[0].space) && Writable(b[0].tok)
    ensures NoWord(doc, q)
  {
    WritableFirst(b[0].tok);
    hide Writable;
    var t := b[0].space + b[0].tok;
    AtSplit(doc, q, t, Flat(b[1..]));
    assert t != [] ==> doc[q..q + |t|][0] == t[0];
  }

  lemma WritableFirst(tok: string)
    requires Writable(tok)
    ensures tok != [] && tok[0] != 'r' && tok[0] != 'a' && tok[0] != 'u'
  {
    hide EscapeAll, Decimal;
    if i: int :| tok == IntText(i) {
      NumberFirst(i);
    }
  }

  lemma NumberFirst(i: int)
    ensures Numeric(IntText(i))
  {
    hide Decimal;
    NumberStart(i);
  }

  lemma WritableToken(v: Value, scan: Scanf)
    requires Storable(v) && NoReals(v) && ScansIntegers(scan)
    ensures Toks(v) != [] && Writable(Toks(v)[0])
    ensures v.Int? || v.UInt? ==> |Toks(v)| == 1 && Numeric(Toks(v)[0])
  {
    hide EscapeAll, Decimal, ItemToks, MemberToks, Items, IntText, Numeric;
    match v
    case Arr(_) =>
    case Obj(_) =>
    case Int(i) =>
      ScalarDecoded(v, scan);
      NumberFirst(i);
    case UInt(u) =>
      ScalarDecoded(v, scan);
      NumberFirst(u);
    case _ =>
      ScalarDecoded(v, scan);
  }

  // ----- Items ------------------------------------------------------------------------------

  lemma PartedIs(items: seq<Value>, seps: seq<string>)
    requires |items| == |seps| + 1
    ensures Parted(items, seps) ==
      Toks(items[0]) + ([if seps == [] then "]" else seps[0]]
        + if seps == [] then [] else Parted(items[1..], seps[1..]))
  {
    hide Toks;
  }

  lemma PartedStarts(items: seq<Value>, seps: seq<string>, scan: Scanf)
    requires |items| == |seps| + 1 && ItemsHeld(items) && ScansIntegers(scan)
    ensures Parted(items, seps) != [] && Writable(Parted(items, seps)[0])
    ensures Parted(items, seps)[0] == Toks(items[0])[0]
  {
    hide Toks, Parted, Writable, Storable, NoReals;
    PartedIs(items, seps);
    WritableToken(items[0], scan);
  }

  lemma ApartLater(ps: seq<Piece>, n: nat)
    requires NumbersApart(ps) && n <= |ps|
    ensures NumbersApart(ps[n..])
  {
    var c := ps[n..];
    forall i | 0 < i < |c| && Numeric(c[i - 1].tok) && c[i].space == ""
      ensures c[i].tok != [] && !IsNumberChar(c[i].tok[0])
    {
      assert c[i] == ps[n + i] && c[i - 1] == ps[n + i - 1];
    }
  }

  /** One item, the token after it, and what follows. */
  lemma ItemTaken(doc: string, p: nat, ps: seq<Piece>, v: Value, sep: string, rest: seq<string>, scan: Scanf)
    requires Storable(v) && NoReals(v) && ScansIntegers(scan)
    requires Spaced(ps) && NumbersApart(ps) && Tokens(ps) == Toks(v) + ([sep] + rest) && At(doc, p, Flat(ps))
    ensures |Toks(v)| < |ps|
    ensures var n := |Toks(v)|; var a, b, q := ps[..n], ps[n..], p + |Flat(ps[..n])|;
      && p <= q <= |doc| && ReadValue(doc, p, scan) == Read(q, Some(Again(v)))
      && Spaced(b) && NumbersApart(b) && Tokens(b) == [sep] + rest && At(doc, q, Flat(b))
      && |Flat(ps)| == |Flat(a)| + |Flat(b)|
  {
    hide ReadValue, Flat, Tokens, At, Again, Numeric, Blank, Toks, Storable, NoReals, ScansIntegers, IsNumberChar,
      NumbersApart, Spaced;
    var n := |Toks(v)|;
    TokensSplit(ps, Toks(v), [sep] + rest);
    var a, b := ps[..n], ps[n..];
    AtSplit(doc, p, Flat(a), Flat(b));
    AtIn(doc, p, Flat(a));
    FirstPiece(doc, p + |Flat(a)|, b, sep, rest);
    WritableToken(v, scan);
    if v.Int? || v.UInt? {
      NumberDelimited(ps, a, b, Toks(v));
      PieceDelimits(doc, p + |Flat(a)|, b);
    }
    ReadLaidOut(doc, p, a, v, scan);
    ApartLater(ps, n);
  }

  lemma NumberDelimited(ps: seq<Piece>, a: seq<Piece>, b: seq<Piece>, toks: seq<string>)
    requires NumbersApart(ps) && |toks| == 1 && Numeric(toks[0]) && Tokens(a) == toks
    requires 1 < |ps| && a == ps[..1] && b == ps[1..]
    ensures b[0].space == "" ==> b[0].tok != [] && !IsNumberChar(b[0].tok[0])
  {
    assert Tokens(a)[0] == ps[0].tok;
    assert b[0] == ps[1];
  }

  /** A separator, and what follows. */
  lemma SeparatorRead(doc: string, q: nat, b: seq<Piece>, sep: string, rest: seq<string>)
    requires Spaced(b) && NumbersApart(b) && Tokens(b) == [sep] + rest && At(doc, q, Flat(b))
    requires Separator(sep) && rest != [] && Writable(rest[0])
    ensures b != [] && q <= |doc|
    ensures var c, r := b[1..], NextToken(doc, q).end;
      && NextToken(doc, q).kind != ArrayEnd && r <= |doc|
      && Spaced(c) && NumbersApart(c) && Tokens(c) == rest && At(doc, r, Flat(c)) && r + |Flat(c)| == q + |Flat(b)|
  {
    hide ReadToken, NextToken, Flat, At, Writable, Numeric, Blank, IsNumberChar, Separator;
    FirstPiece(doc, q, b, sep, rest);
    var c, r := b[1..], q + |b[0].space + sep|;
    assert c != [] && c[0].tok == rest[0] by {
      assert |Tokens(c)| == |c|;
      assert Tokens(c)[0] == c[0].tok;
    }
    ItemIsNoWord(doc, r, c);
    if Numeric(sep) {
      assert c[0] == b[1];
      PieceDelimits(doc, r, c);
    }
    SeparatorTaken(doc, q, b[0]);
    ApartLater(b, 1);
  }

  lemma {:induction false} PartedRead(doc: string, p: nat, ps: seq<Piece>, items: seq<Value>, seps: seq<string>,
                                      read: seq<Value>, scan: Scanf)
    requires ItemsHeld(items) && ScansIntegers(scan) && |items| == |seps| + 1 && forall s | s in seps :: Separator(s)
    requires Spaced(ps) && NumbersApart(ps) && Tokens(ps) == Parted(items, seps) && At(doc, p, Flat(ps)) && p <= |doc|
    ensures ReadItems(doc, p, read, scan) == Read(p + |Flat(ps)|, Some(Arr(Listed(read + ItemsAgain(items)))))
    decreases |seps|
  {
    hide ReadToken, NextToken, ReadItems, ReadValue, Toks, ItemsAgain, Again, Flat, Storable, NoReals, At, Writable,
      ScansIntegers, Tokens, Listed, ItemsHeld, Spaced, NumbersApart, Parted, Separator, KindOf;
    ItemParts(items);
    ItemsAgainSplit(read, items);
    PartedIs(items, seps);
    var n, more := |Toks(items[0])|, read + [Again(items[0])];
    var sep := if seps == [] then "]" else seps[0];
    var rest := if seps == [] then [] else Parted(items[1..], seps[1..]);
    ItemTaken(doc, p, ps, items[0], sep, rest, scan);
    var q := p + |Flat(ps[..n])|;
    ItemRead(doc, p, read, scan, q, Again(items[0]));
    if seps == [] {
      BracketRead(doc, q, ps[n..]);
    } else {
      assert Separator(seps[0]);
      PartedStarts(items[1..], seps[1..], scan);
      SeparatorRead(doc, q, ps[n..], seps[0], rest);
      PartedRead(doc, NextToken(doc, q).end, ps[n..][1..], items[1..], seps[1..], more, scan);
    }
  }

  lemma BracketRead(doc: string, q: nat, b: seq<Piece>)
    requires Spaced(b) && Tokens(b) == ["]"] + [] && At(doc, q, Flat(b))
    ensures q <= |doc| && NextToken(doc, q).kind == ArrayEnd && NextToken(doc, q).end == q + |Flat(b)|
  {
    hide ReadToken, NextToken, Flat, Tokens, At, Blank;
    FirstPiece(doc, q, b, "]", []);
    PunctuationRead(doc, q, b[0]);
    FlatNone(b[1..]);
  }

  // ----- Main results -----------------------------------------------------------------------

  /** Items laid out with any separators are read as the array they are with commas. */
  lemma {:induction false} SeparatorsIgnored(ps: seq<Piece>, items: seq<Value>, seps: seq<string>, rest: string,
                                            scan: Scanf)
    requires ItemsHeld(items) && ScansIntegers(scan) && |items| == |seps| + 1 && forall s | s in seps :: Separator(s)
    requires Spaced(ps) && NumbersApart(ps) && Tokens(ps) == ["["] + Parted(items, seps)
    ensures Parse(Flat(ps) + rest, scan) == Some(Again(Arr(Listed(items))))
  {
    hide Flat, Spaced, NumbersApart, Tokens, Toks, ItemsAgain, ReadValue, ReadItems, ReadArray, ScansIntegers,
      ItemsHeld, Parted, Writable, Again, Items, Listed, Separator;
    var doc := Flat(ps) + rest;
    assert At(doc, 0, Flat(ps));
    Opened(doc, 0, ps, "[", Parted(items, seps), scan);
    var p := 0 + |ps[0].space + "["|;
    PartedStarts(items, seps, scan);
    assert ItemsHeld(items) ==> Storable(items[0]) && NoReals(items[0]) by { ItemParts(items); }
    FirstOfValue(items[0]);
    ItemFirst(doc, p, ps[1..], Parted(items, seps));
    ArrayStep(doc, p, scan);
    ApartLater(ps, 1);
    PartedRead(doc, p, ps[1..], items, seps, [], scan);
    assert [] + ItemsAgain(items) == ItemsAgain(items);
    ItemsListed(items);
    ContainerAgain(Arr(Listed(items)));
  }

  lemma OneDigit(n: nat)
    requires n < 10
    ensures Toks(Int(n)) == [[Digit(n)]] && Again(Int(n)) == Int(n)
  {
    assert Decimal(n) == [] + [Digit(n)] == [Digit(n)];
    assert IntText(n) == [Digit(n)];
  }

  lemma TwoTokens(sep: string)
    ensures Parted([Int(1), Int(2)], [sep]) == ["1", sep, "2", "]"]
  {
    OneDigit(1);
    OneDigit(2);
    assert [Digit(1)] == "1" && [Digit(2)] == "2";
    assert [Int(1), Int(2)][1..] == [Int(2)] && [sep][1..] == [];
    PartedIs([Int(2)], []);
    PartedIs([Int(1), Int(2)], [sep]);
  }

  lemma TwoPieces(sep: string)
    requires Separator(sep) && !IsNumberChar(sep[0])
    ensures var ps := Tight(["[", "1", sep, "2", "]"]);
      && Flat(ps) == "[1" + sep + "2]" && Spaced(ps) && NumbersApart(ps)
      && Tokens(ps) == ["[", "1", sep, "2", "]"]
  {
    hide Separator, Flat, Concat;
    var toks := ["[", "1", sep, "2", "]"];
    FlatTight(toks);
    TwoText(sep);
    var ps := Tight(toks);
    assert ps == [Piece("", "["), Piece("", "1"), Piece("", sep), Piece("", "2"), Piece("", "]")];
    NoSpaceFirst(sep);
    FiveApart(ps, sep);
  }

  lemma FiveApart(ps: seq<Piece>, sep: string)
    requires sep != [] && !IsNumberChar(sep[0])
    requires ps == [Piece("", "["), Piece("", "1"), Piece("", sep), Piece("", "2"), Piece("", "]")]
    ensures NumbersApart(ps)
  {
    forall i | 0 < i < |ps| && Numeric(ps[i - 1].tok) && ps[i].space == ""
      ensures ps[i].tok != [] && !IsNumberChar(ps[i].tok[0])
    {
      assert i == 2 || i == 4;
    }
  }

  lemma TwoText(sep: string)
    ensures Concat(["[", "1", sep, "2", "]"]) == "[1" + sep + "2]"
  {
    hide Concat;
    OneFirst("]", []);
    OneFirst("2", ["]"]);
    OneFirst(sep, ["2", "]"]);
    OneFirst("1", [sep, "2", "]"]);
    OneFirst("[", ["1", sep, "2", "]"]);
    assert Concat([]) == "" by { NothingThere(); }
    Gathered(sep);
  }

  lemma OneFirst(t: string, ts: seq<string>)
    ensures Concat([t] + ts) == t + Concat(ts)
  {
  }

  lemma NothingThere()
    ensures Concat([]) == ""
  {
  }

  lemma Gathered(sep: string)
    ensures "[" + ("1" + (sep + ("2" + ("]" + "")))) == "[1" + sep + "2]"
    ensures ["]"] + [] == ["]"] && ["2"] + ["]"] == ["2", "]"] && [sep] + ["2", "]"] == [sep, "2", "]"]
    ensures ["1"] + [sep, "2", "]"] == ["1", sep, "2", "]"]
    ensures ["["] + ["1", sep, "2", "]"] == ["[", "1", sep, "2", "]"]
  {
  }

  /** Two numbers with any token between them that no number goes on with. */
  lemma SeparatorBetween(sep: string, scan: Scanf)
    requires ScansIntegers(scan) && Separator(sep) && !IsNumberChar(sep[0])
    ensures Parse("[1" + sep + "2]", scan) == Some(Arr([Entry(0, Int(1)), Entry(1, Int(2))]))
  {
    hide Parse, Flat, Tight, Spaced, NumbersApart, Tokens, Parted, ScansIntegers, Again, Separator;
    var items, toks := [Int(1), Int(2)], ["[", "1", sep, "2", "]"];
    TwoPieces(sep);
    TwoTokens(sep);
    assert toks == ["["] + ["1", sep, "2", "]"];
    assert ItemsHeld(items);
    SeparatorsIgnored(Tight(toks), items, [sep], "", scan);
    assert "[1" + sep + "2]" + "" == "[1" + sep + "2]";
    OneDigit(1);
    OneDigit(2);
    assert items[1..] == [Int(2)];
    assert ItemsAgain([Int(2)]) == [Int(2)] + ItemsAgain([]) == [Int(2)];
    assert ItemsAgain(items) == [Int(1)] + ItemsAgain([Int(2)]) == items;
    assert Listed(items) == [Entry(0, Int(1)), Entry(1, Int(2))];
    ItemsListed(items);
    ContainerAgain(Arr(Listed(items)));
  }

  /** A colon in place of a comma, and a character that starts no token. */
  lemma ColonSeparates(scan: Scanf)
    requires ScansIntegers(scan)
    ensures Parse("[1:2]", scan) == Parse("[1@2]", scan) == Some(Arr([Entry(0, Int(1)), Entry(1, Int(2))]))
  {
    hide Parse, ScansIntegers;
    SeparatorBetween(":", scan);
    SeparatorBetween("@", scan);
    assert "[1" + ":" + "2]" == "[1:2]" && "[1" + "@" + "2]" == "[1@2]";
  }
}
