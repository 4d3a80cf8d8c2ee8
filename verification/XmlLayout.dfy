/** Where printed nodes lie in a document, and how their names, values and texts are read there. */
module XmlLayout {
  import opened Common
  import opened XmlTree
  import opened XmlParse

  // ----- What can be read in an encoding ----------------------------------------------------

  /** In UTF-8 a character of more than one byte begins here. */
  predicate Wide(s: string, i: nat, enc: Encoding)
    requires i < |s|
  {
    enc == Utf8 && CharLength(s[i]) > 1
  }

  /** The bytes after the first one of a character are there. */
  predicate Full(s: string, i: nat)
    requires i < |s|
  {
    i + CharLength(s[i]) <= |s| && forall k | i < k < i + CharLength(s[i]) :: 0x80 as char <= s[k] <= 0xbf as char
  }

  /** Every hexadecimal character reference that starts in a string has its semicolon there too, and every
      character in UTF-8 all its bytes. */
  predicate Complete(s: string, enc: Encoding) {
    && (forall i: nat | i < |s| && Reference(s, i) :: ';' in s[i..])
    && (forall i: nat | i < |s| && Wide(s, i, enc) :: Full(s, i))
  }

  /** In UTF-8 a byte order mark is taken for white space. */
  predicate Marked(s: string, i: nat, enc: Encoding) {
    enc == Utf8 && ByteOrderMark(s, i)
  }

  /** The values of a declaration are printed without being encoded. */
  predicate Quotable(s: string, enc: Encoding) {
    '\"' !in s && '&' !in s && '\0' !in s && forall i: nat | i < |s| && Wide(s, i, enc) :: Full(s, i)
  }

  /** Every string of a tree is complete, and none that is read behind white space begins with a byte order
      mark. */
  predicate CompleteTree(n: Node, enc: Encoding)
    decreases n
  {
    match n
    case Text(s) => Complete(s, enc) && !Marked(s, Lead(s), enc)
    case Declaration(version, encoding, standalone) =>
      Quotable(version, enc) && Quotable(encoding, enc) && Quotable(standalone, enc)
    case Element(name, attributes, children) =>
      && !Marked(name, 0, enc)
      && (forall a | a in attributes :: !Marked(a.name, 0, enc) && Complete(a.value, enc))
      && forall c | c in children :: CompleteTree(c, enc)
    case _ => true
  }

  predicate Sound(n: Node, enc: Encoding) {
    Formed(n) && CompleteTree(n, enc)
  }

  /** The number of blanks a text begins with. */
  function Lead(v: string): (k: nat)
    ensures k <= |v| && (k < |v| ==> v[k] != ' ') && forall i | 0 <= i < k :: v[i] == ' '
  {
    if v != [] && v[0] == ' ' then 1 + Lead(v[1..]) else 0
  }

  // ----- Places -----------------------------------------------------------------------------

  lemma MatchesSplit(doc: string, p: nat, a: string, b: string)
    ensures Matches(doc, p, a + b) <==> Matches(doc, p, a) && Matches(doc, p + |a|, b)
  {
    if p + |a| + |b| <= |doc| {
      assert doc[p..p + |a| + |b|] == doc[p..p + |a|] + doc[p + |a|..p + |a| + |b|];
      if Matches(doc, p, a + b) {
        assert doc[p..p + |a| + |b|][..|a|] == a && doc[p..p + |a| + |b|][|a|..] == b;
      }
    }
  }

  lemma MatchesIs(doc: string, p: nat, s: string)
    requires p + |s| <= |doc| && doc[p..p + |s|] == s
    ensures Matches(doc, p, s)
  {
  }

  lemma MatchesFits(doc: string, p: nat, s: string)
    requires Matches(doc, p, s)
    ensures p + |s| <= |doc|
  {
  }

  lemma MatchesAt(doc: string, p: nat, s: string, i: nat)
    requires Matches(doc, p, s) && i < |s|
    ensures doc[p + i] == s[i]
  {
    assert doc[p..p + |s|][i] == s[i];
  }

  lemma {:induction false} SkipOver(doc: string, p: nat, w: string, enc: Encoding := Undeclared)
    requires White(w) && Matches(doc, p, w)
    ensures SkipWhite(doc, p, enc) == SkipWhite(doc, p + |w|, enc)
    decreases |w|
  {
    hide Matches, SkipWhite;
    MatchesFits(doc, p, w);
    if w != [] {
      assert w == [w[0]] + w[1..];
      MatchesSplit(doc, p, [w[0]], w[1..]);
      MatchesAt(doc, p, w, 0);
      SkipOne(doc, p, enc);
      SkipOver(doc, p + 1, w[1..], enc);
    }
  }

  lemma SkipOne(doc: string, p: nat, enc: Encoding)
    requires p < |doc| && IsWhite(doc[p])
    ensures SkipWhite(doc, p, enc) == SkipWhite(doc, p + 1, enc)
  {
  }

  /** Something other than white space lies here. */
  predicate Stops(doc: string, p: nat, enc: Encoding) {
    p < |doc| && !IsWhite(doc[p]) && !Marked(doc, p, enc)
  }

  lemma StopsAt(doc: string, p: nat, enc: Encoding)
    requires p < |doc| && doc[p] < 127 as char && !IsWhite(doc[p])
    ensures Stops(doc, p, enc)
  {
  }

  lemma SkipNone(doc: string, p: nat, enc: Encoding := Undeclared)
    requires Stops(doc, p, enc)
    ensures SkipWhite(doc, p, enc) == p
  {
  }

  /** White space ends at the same place in every encoding, unless a byte order mark follows. */
  lemma {:induction false} SkipSame(doc: string, p: nat, enc: Encoding)
    requires p <= |doc| && !Marked(doc, SkipWhite(doc, p), enc)
    ensures SkipWhite(doc, p, enc) == SkipWhite(doc, p)
    decreases |doc| - p
  {
    if p < |doc| && IsWhite(doc[p]) {
      SkipSame(doc, p + 1, enc);
    }
  }

  lemma {:induction false} NameEndIs(doc: string, p: nat, name: string)
    requires Matches(doc, p, name) && (forall c | c in name :: IsNameChar(c))
    requires p + |name| < |doc| ==> !IsNameChar(doc[p + |name|])
    ensures NameEnd(doc, p) == p + |name|
    decreases |name|
  {
    if name != [] {
      assert name == [name[0]] + name[1..];
      MatchesSplit(doc, p, [name[0]], name[1..]);
      MatchesAt(doc, p, name, 0);
      NameEndIs(doc, p + 1, name[1..]);
    }
  }

  lemma NameRead(doc: string, p: nat, name: string, enc: Encoding)
    requires Matches(doc, p, name) && ValidName(name) && !Marked(name, 0, enc)
    requires p + |name| < |doc| ==> !IsNameChar(doc[p + |name|])
    ensures ReadName(doc, p) == Some(p + |name|) && doc[p..p + |name|] == name
    ensures SkipWhite(doc, p, enc) == p
  {
    MatchesAt(doc, p, name, 0);
    NameEndIs(doc, p, name);
    NameUnmarked(doc, p, name, enc);
    assert Stops(doc, p, enc);
  }

  lemma NameUnmarked(doc: string, p: nat, name: string, enc: Encoding)
    requires Matches(doc, p, name) && ValidName(name) && !Marked(name, 0, enc)
    requires p + |name| < |doc| ==> !IsNameChar(doc[p + |name|])
    ensures !Marked(doc, p, enc)
  {
    if Marked(doc, p, enc) {
      assert IsNameChar(doc[p + 1]) && IsNameChar(doc[p + 2]);
      assert |name| >= 3;
      MatchesAt(doc, p, name, 0);
      MatchesAt(doc, p, name, 1);
      MatchesAt(doc, p, name, 2);
      assert false;
    }
  }

  // ----- Characters -------------------------------------------------------------------------

  lemma NameCharEscaped(c: char)
    requires IsNameChar(c)
    ensures c != '&' && Escaped(c) == [c]
  {
  }

  /** A name needs no escapes. */
  lemma {:induction false} NameEncoded(name: string, i: nat)
    requires ValidName(name) && i <= |name|
    ensures Encode(name, i) == name[i..]
    decreases |name| - i
  {
    if i < |name| {
      hide Escaped, IsNameChar;
      NameEncoded(name, i + 1);
      assert name[i] in name;
      NameCharEscaped(name[i]);
      assert name[i..] == [name[i]] + name[i + 1..];
    }
  }

  /** What an escape starts with and what it does not have in it. */
  lemma EscapedIs(c: char)
    ensures Escaped(c) != [] && Escaped(c)[0] != '<' && (IsWhite(Escaped(c)[0]) <==> c == ' ')
    ensures Escaped(c)[0] != '\'' && Escaped(c)[0] != '\"'
    ensures c == ' ' ==> Escaped(c) == " "
  {
  }

  lemma {:induction false} FindAt(doc: string, p: nat, c: char, n: nat)
    requires p + n < |doc| && doc[p + n] == c && forall k | p <= k < p + n :: doc[k] != c
    ensures Find(doc, p, c) == Some(p + n)
    decreases n
  {
    if n > 0 {
      FindAt(doc, p + 1, c, n - 1);
    }
  }

  lemma HexDigitIs(n: nat)
    requires n < 16
    ensures Digit(HexDigit(n), 16) == Some(n) && HexDigit(n) != 'x' && HexDigit(n) != ';'
  {
  }

  lemma ControlText(c: char)
    requires c < ' '
    ensures Escaped(c) == ['&', '#', 'x', HexDigit(c as int / 16), HexDigit(c as int % 16), ';']
  {
  }

  /** A control character comes back from its reference. */
  lemma ControlRead(doc: string, p: nat, c: char, enc: Encoding)
    requires c < ' ' && Matches(doc, p, Escaped(c))
    ensures GetChar(doc, p, enc) == Got(p + 6, [c])
  {
    hide Escaped, Matches, GetChar, HexDigit;
    var h, l := c as int / 16, c as int % 16;
    var s := ['&', '#', 'x', HexDigit(h), HexDigit(l), ';'];
    ControlText(c);
    MatchesFits(doc, p, s);
    MatchesAt(doc, p, s, 0);
    MatchesAt(doc, p, s, 1);
    MatchesAt(doc, p, s, 2);
    MatchesAt(doc, p, s, 3);
    MatchesAt(doc, p, s, 4);
    MatchesAt(doc, p, s, 5);
    HexadecimalRead(doc, p, h, l, enc);
    SmallCharacter(c, enc);
    assert l + 16 * h == c as int;
  }

  lemma SmallCharacter(c: char, enc: Encoding)
    requires c < 0x80 as char
    ensures Character(c as int, enc) == [c]
  {
  }

  lemma HexadecimalRead(doc: string, p: nat, h: nat, l: nat, enc: Encoding)
    requires p + 6 <= |doc| && h < 16 && l < 16 && doc[p] == '&' && doc[p + 1] == '#' && doc[p + 2] == 'x'
    requires doc[p + 3] == HexDigit(h) && doc[p + 4] == HexDigit(l) && doc[p + 5] == ';'
    ensures GetChar(doc, p, enc) == Got(p + 6, Character(l + 16 * h, enc))
  {
    hide HexDigit, Digit, DigitsBack, Find, Character;
    HexDigitIs(h);
    HexDigitIs(l);
    FindAt(doc, p + 3, ';', 2);
    TwoDigits(doc, p + 2, h, l);
  }

  lemma TwoDigits(doc: string, p: nat, h: nat, l: nat)
    requires h < 16 && l < 16 && p + 2 < |doc|
    requires doc[p] == 'x' && doc[p + 1] == HexDigit(h) && doc[p + 2] == HexDigit(l)
    ensures DigitsBack(doc, p, p + 3, 16, 'x') == Some(l + 16 * h)
  {
    hide HexDigit, Digit;
    HexDigitIs(h);
    HexDigitIs(l);
    assert DigitsBack(doc, p, p + 1, 16, 'x') == Some(0);
    assert DigitsBack(doc, p, p + 2, 16, 'x') == Some(h);
  }

  /** Every escape is read as the character it stands for. */
  lemma EscapeRead(doc: string, p: nat, c: char, enc: Encoding)
    requires Matches(doc, p, Escaped(c)) && (enc == Utf8 ==> CharLength(c) == 1)
    ensures p < |doc| && GetChar(doc, p, enc) == Got(p + |Escaped(c)|, [c]) && doc[p] == Escaped(c)[0]
  {
    EscapedIs(c);
    MatchesAt(doc, p, Escaped(c), 0);
    if c == '&' || c == '<' || c == '>' || c == '\"' || c == '\'' {
      MatchesAt(doc, p, Escaped(c), 1);
      EntityRead(doc, p, c, enc);
    } else if c < ' ' {
      ControlRead(doc, p, c, enc);
    }
  }

  lemma EntityRead(doc: string, p: nat, c: char, enc: Encoding)
    requires c == '&' || c == '<' || c == '>' || c == '\"' || c == '\''
    requires Matches(doc, p, Escaped(c)) && doc[p] == '&' && doc[p + 1] != '#'
    ensures GetEntity(doc, p, enc) == Got(p + |Escaped(c)|, [c])
  {
    var s := Escaped(c);
    MatchesAt(doc, p, s, 1);
    MatchesAt(doc, p, s, 2);
    if Matches(doc, p, "&amp;") {
      MatchesAt(doc, p, "&amp;", 1);
      MatchesAt(doc, p, "&amp;", 2);
    } else if Matches(doc, p, "&lt;") {
      MatchesAt(doc, p, "&lt;", 1);
    } else if Matches(doc, p, "&gt;") {
      MatchesAt(doc, p, "&gt;", 1);
    } else if Matches(doc, p, "&quot;") {
      MatchesAt(doc, p, "&quot;", 1);
    } else if Matches(doc, p, "&apos;") {
      MatchesAt(doc, p, "&apos;", 2);
    }
  }

  // ----- Values and texts -------------------------------------------------------------------

  /** Where what is written at once for character i of a value ends: behind the character, or behind the
      semicolon of a reference. */
  function UnitEnd(v: string, i: nat, enc: Encoding): (j: nat)
    requires i < |v|
    ensures i < j <= |v|
  {
    if Wide(v, i, enc) && Full(v, i) then i + CharLength(v[i])
    else if Reference(v, i) && Find(v, i, ';').Some? then Find(v, i, ';').value + 1
    else i + 1
  }

  function Written(v: string, i: nat, enc: Encoding): string
    requires i < |v|
  {
    if Wide(v, i, enc) || Reference(v, i) then v[i..UnitEnd(v, i, enc)] else Escaped(v[i])
  }

  /** What is read for it: the character, or the one a reference stands for, if it is well-formed. */
  function ReadAs(v: string, i: nat, enc: Encoding): (t: Option<string>)
    requires i < |v|
  {
    if !Reference(v, i) then Some(v[i..UnitEnd(v, i, enc)])
    else if GetChar(v, i, enc).Bad? then None
    else Some(GetChar(v, i, enc).text)
  }

  function Joined(a: string, r: Option<string>): Option<string> {
    if r == None then None else Some(a + r.value)
  }

  /** What an attribute value is read as, from character i on. */
  function Kept(v: string, i: nat, enc: Encoding): Option<string>
    requires i <= |v|
    decreases |v| - i
  {
    if i == |v| then Some("")
    else if ReadAs(v, i, enc) == None then None
    else Joined(ReadAs(v, i, enc).value, Kept(v, UnitEnd(v, i, enc), enc))
  }

  /** A character is a reference, wide, or neither. */
  lemma UnitIs(v: string, i: nat, enc: Encoding)
    requires Complete(v, enc) && i < |v|
    ensures Wide(v, i, enc) ==>
      && !Reference(v, i) && Full(v, i) && UnitEnd(v, i, enc) == i + CharLength(v[i])
      && Written(v, i, enc) == v[i..UnitEnd(v, i, enc)] && v[i] >= 0x80 as char
    ensures !Wide(v, i, enc) && !Reference(v, i) ==>
      UnitEnd(v, i, enc) == i + 1 && Written(v, i, enc) == Escaped(v[i]) && v[i..UnitEnd(v, i, enc)] == [v[i]]
    ensures !Reference(v, i) ==> ReadAs(v, i, enc) == Some(v[i..UnitEnd(v, i, enc)])
    ensures v[i] == ' ' ==> !Wide(v, i, enc) && !Reference(v, i)
  {
    hide Escaped;
  }

  lemma CompleteAt(v: string, i: nat, enc: Encoding)
    requires Complete(v, enc) && i < |v| && Reference(v, i)
    ensures Find(v, i, ';').Some? && Find(v, i, ';').value >= i + 3
  {
    var f := Find(v, i, ';');
    assert ';' in v[i..];
    assert v[f.value] == ';';
  }

  lemma {:induction false} PassEndIs(v: string, i: nat, k: nat)
    requires i < k < |v| && v[k] == ';' && forall j | i < j < k :: v[j] != ';'
    ensures PassEnd(v, i) == k
    decreases k - i
  {
    if i + 1 < k {
      PassEndIs(v, i + 1, k);
    }
  }

  lemma NoSemicolonBefore(v: string, i: nat)
    requires i <= |v| && Find(v, i, ';').Some?
    ensures forall j | i <= j < Find(v, i, ';').value :: v[j] != ';'
  {
    var k := Find(v, i, ';').value;
    forall j | i <= j < k ensures v[j] != ';' {
      assert v[i..k][j - i] == v[j];
    }
  }

  lemma Regroup<T>(a: seq<T>, b: seq<T>, c: seq<T>)
    ensures a + b + c == a + (b + c)
  {
  }

  lemma EncodeEscaped(v: string, i: nat, rest: string)
    requires i < |v| && !Reference(v, i)
    ensures Encode(v, i) + rest == Escaped(v[i]) + (Encode(v, i + 1) + rest)
  {
    hide Escaped;
    Regroup(Escaped(v[i]), Encode(v, i + 1), rest);
  }

  lemma EncodeReference(v: string, i: nat, enc: Encoding)
    requires Complete(v, enc) && i < |v| && Reference(v, i)
    ensures Encode(v, i) == Written(v, i, enc) + Encode(v, UnitEnd(v, i, enc))
  {
    hide Complete, Encode, Find, PassEnd;
    CompleteAt(v, i, enc);
    NoSemicolonBefore(v, i);
    var k := Find(v, i, ';').value;
    PassEndIs(v, i, k);
    EncodePassed(v, i);
    EncodeSemicolon(v, k);
    Glue(v, i, k, Encode(v, k + 1));
  }

  lemma EncodePassed(v: string, i: nat)
    requires Reference(v, i)
    ensures Encode(v, i) == v[i..PassEnd(v, i)] + Encode(v, PassEnd(v, i))
  {
    hide Escaped;
  }

  lemma EncodeSemicolon(v: string, k: nat)
    requires k < |v| && v[k] == ';'
    ensures Encode(v, k) == ";" + Encode(v, k + 1)
  {
    SemicolonEscaped();
    hide Escaped;
  }

  lemma Glue(v: string, i: nat, k: nat, rest: string)
    requires i <= k < |v| && v[k] == ';'
    ensures v[i..k] + (";" + rest) == v[i..k + 1] + rest
  {
    assert v[i..k] + ";" == v[i..k + 1];
    assert v[i..k] + (";" + rest) == v[i..k] + ";" + rest;
  }

  /** Bytes of longer characters need no escapes. */
  lemma {:induction false} EncodeHigh(v: string, i: nat, j: nat)
    requires i <= j <= |v| && forall k | i <= k < j :: v[k] >= 0x80 as char
    ensures Encode(v, i) == v[i..j] + Encode(v, j)
    decreases j - i
  {
    hide Escaped;
    if i < j {
      HighEscaped(v[i]);
      EncodeHigh(v, i + 1, j);
      EncodeEscaped(v, i, "");
      HeadOff(v, i, j, Encode(v, j));
    } else {
      assert v[i..j] + Encode(v, j) == Encode(v, j);
    }
  }

  lemma HighEscaped(c: char)
    requires c >= 0x80 as char
    ensures Escaped(c) == [c]
  {
  }

  lemma HeadOff(v: string, i: nat, j: nat, rest: string)
    requires i < j <= |v|
    ensures [v[i]] + (v[i + 1..j] + rest + "") == v[i..j] + rest
    ensures forall e: string :: e + "" == e
  {
    assert v[i..j] == [v[i]] + v[i + 1..j];
  }

  lemma EncodeUnit(v: string, i: nat, rest: string, enc: Encoding)
    requires Complete(v, enc) && i < |v|
    ensures Encode(v, i) + rest == Written(v, i, enc) + (Encode(v, UnitEnd(v, i, enc)) + rest)
  {
    hide Encode, Escaped, Complete, Written, UnitEnd;
    UnitIs(v, i, enc);
    if Wide(v, i, enc) {
      EncodeHigh(v, i, UnitEnd(v, i, enc));
      Regroup(Written(v, i, enc), Encode(v, UnitEnd(v, i, enc)), rest);
    } else if Reference(v, i) {
      EncodeReference(v, i, enc);
      Regroup(Written(v, i, enc), Encode(v, UnitEnd(v, i, enc)), rest);
    } else {
      EncodeEscaped(v, i, rest);
    }
  }

  lemma SemicolonEscaped()
    ensures Escaped(';') == ";"
  {
  }

  lemma {:induction false} DigitsShift(doc: string, from: nat, q: nat, v: string, at: nat, r: nat)
    requires from < q <= |doc| && at < r <= |v| && q - from == r - at && doc[from..q] == v[at..r]
    requires doc[from] == 'x' == v[at]
    ensures DigitsBack(doc, from, q, 16, 'x') == DigitsBack(v, at, r, 16, 'x')
    decreases q
  {
    hide Digit;
    SliceAt(doc, from, v, at, q - from, q - from - 1);
    if q - 1 > from {
      SliceShorter(doc, from, v, at, q - from);
      DigitsShift(doc, from, q - 1, v, at, r - 1);
    }
  }

  lemma SliceAt(doc: string, p: nat, v: string, i: nat, n: nat, j: nat)
    requires p + n <= |doc| && i + n <= |v| && doc[p..p + n] == v[i..i + n] && j < n
    ensures doc[p + j] == v[i + j]
  {
    assert doc[p..p + n][j] == v[i..i + n][j];
  }

  lemma SliceShorter(doc: string, p: nat, v: string, i: nat, n: nat)
    requires n > 0 && p + n <= |doc| && i + n <= |v| && doc[p..p + n] == v[i..i + n]
    ensures doc[p..p + n - 1] == v[i..i + n - 1]
  {
    var a, b := doc[p..p + n - 1], v[i..i + n - 1];
    forall k | 0 <= k < n - 1 ensures a[k] == b[k] {
      SliceAt(doc, p, v, i, n, k);
    }
  }

  lemma SameInside(doc: string, p: nat, v: string, i: nat, n: nat)
    requires n >= 2 && p + n < |doc| && i + n < |v| && doc[p..p + n + 1] == v[i..i + n + 1]
    ensures doc[p + 2..p + n] == v[i + 2..i + n]
  {
    var a, b := doc[p + 2..p + n], v[i + 2..i + n];
    forall k | 0 <= k < n - 2 ensures a[k] == b[k] {
      SliceAt(doc, p, v, i, n + 1, k + 2);
    }
  }

  lemma SemicolonLies(doc: string, p: nat, v: string, i: nat, n: nat)
    requires n >= 3 && p + n < |doc| && i + n < |v| && doc[p..p + n + 1] == v[i..i + n + 1]
    requires v[i + n] == ';' && forall j | i <= j < i + n :: v[j] != ';'
    ensures Find(doc, p + 3, ';') == Some(p + n)
  {
    hide Find;
    SliceAt(doc, p, v, i, n + 1, n);
    forall k | p + 3 <= k < p + 3 + (n - 3) ensures doc[k] != ';' {
      SliceAt(doc, p, v, i, n + 1, k - p);
    }
    FindAt(doc, p + 3, ';', n - 3);
  }

  /** The parts of a reference in a document are those in its value. */
  lemma ReferenceLies(doc: string, p: nat, v: string, i: nat, enc: Encoding)
    requires Complete(v, enc) && i < |v| && Reference(v, i) && Matches(doc, p, v[i..UnitEnd(v, i, enc)])
    ensures Find(v, i, ';').Some?
    ensures var n := Find(v, i, ';').value - i;
      && n >= 3 && UnitEnd(v, i, enc) == i + n + 1 && p + n < |doc|
      && doc[p] == '&' && doc[p + 1] == '#' && doc[p + 2] == 'x' && doc[p + 2..p + n] == v[i + 2..i + n]
      && Find(v, i + 3, ';') == Some(i + n) && Find(doc, p + 3, ';') == Some(p + n)
  {
    hide Complete, Find;
    CompleteAt(v, i, enc);
    NoSemicolonBefore(v, i);
    var n := Find(v, i, ';').value - i;
    SliceAt(doc, p, v, i, n + 1, 0);
    SliceAt(doc, p, v, i, n + 1, 1);
    SliceAt(doc, p, v, i, n + 1, 2);
    SliceAt(doc, p, v, i, n + 1, n);
    SameInside(doc, p, v, i, n);
    FindAt(v, i + 3, ';', n - 3);
    SemicolonLies(doc, p, v, i, n);
  }

  /** A reference is read in a document as it is in its value. */
  lemma ReferenceRead(doc: string, p: nat, v: string, i: nat, enc: Encoding)
    requires Complete(v, enc) && i < |v| && Reference(v, i) && Matches(doc, p, v[i..UnitEnd(v, i, enc)])
    ensures p + UnitEnd(v, i, enc) - i <= |doc| && doc[p] == '&'
    ensures var g := GetChar(v, i, enc);
      if g.Bad? then GetChar(doc, p, enc) == Bad(false, "")
      else g.next == UnitEnd(v, i, enc) && GetChar(doc, p, enc) == Got(p + UnitEnd(v, i, enc) - i, g.text)
  {
    hide Matches, DigitsBack, Complete, UnitEnd, Find, GetChar;
    ReferenceLies(doc, p, v, i, enc);
    var n := Find(v, i, ';').value - i;
    DigitsShift(doc, p + 2, p + n, v, i + 2, i + n);
    NumberRead(doc, p, n, enc);
    NumberRead(v, i, n, enc);
  }

  lemma NumberRead(doc: string, p: nat, n: nat, enc: Encoding)
    requires n >= 3 && p + n < |doc| && doc[p] == '&' && doc[p + 1] == '#' && doc[p + 2] == 'x'
    requires Find(doc, p + 3, ';') == Some(p + n)
    ensures var d := DigitsBack(doc, p + 2, p + n, 16, 'x');
      GetChar(doc, p, enc) == if d == None then Bad(false, "") else Got(p + n + 1, Character(d.value, enc))
  {
    hide DigitsBack, Find, Character;
  }

  /** A character of several bytes is read in a document as it is in its value. */
  lemma WideRead(doc: string, p: nat, v: string, i: nat, enc: Encoding)
    requires i < |v| && Wide(v, i, enc) && Full(v, i) && Matches(doc, p, v[i..i + CharLength(v[i])])
    ensures var n := CharLength(v[i]);
      p + n <= |doc| && doc[p] == v[i] && GetChar(doc, p, enc) == Got(p + n, v[i..i + n])
  {
    hide CharLength;
    MatchesAt(doc, p, v[i..i + CharLength(v[i])], 0);
  }

  /** What is written at once is read at once. */
  lemma UnitRead(doc: string, p: nat, v: string, i: nat, enc: Encoding)
    requires Complete(v, enc) && i < |v| && Matches(doc, p, Written(v, i, enc))
    ensures var w := Written(v, i, enc);
      && p + |w| <= |doc| && w != [] && doc[p] == w[0] && w[0] != '<' && w[0] != '\'' && w[0] != '\"'
      && (IsWhite(w[0]) <==> v[i] == ' ') && (v[i] == ' ' ==> |w| == 1)
    ensures GetChar(doc, p, enc) ==
      if ReadAs(v, i, enc) == None then Bad(false, "") else Got(p + |Written(v, i, enc)|, ReadAs(v, i, enc).value)
  {
    hide GetChar, Escaped, Matches, Complete, UnitEnd, Find;
    MatchesFits(doc, p, Written(v, i, enc));
    UnitIs(v, i, enc);
    if Wide(v, i, enc) {
      WideRead(doc, p, v, i, enc);
    } else if Reference(v, i) {
      ReferenceRead(doc, p, v, i, enc);
      BadInside(v, i);
    } else {
      EscapeRead(doc, p, v[i], enc);
      EscapedIs(v[i]);
    }
  }

  lemma BadInside(v: string, i: nat)
    requires i < |v| && Reference(v, i)
    ensures v[i] == '&'
  {
  }

  /** An attribute value between its quotes. */
  lemma {:induction false} KeptRead(doc: string, p: nat, v: string, i: nat, quote: char, text: string, enc: Encoding)
    requires Complete(v, enc) && i <= |v| && (quote == '\'' || quote == '\"')
    requires Matches(doc, p, Encode(v, i) + [quote])
    ensures var g := ReadKept(doc, p, quote, text, enc);
      if Kept(v, i, enc) == None then g.Bad? && !g.leaves
      else g == Got(p + |Encode(v, i)| + 1, text + Kept(v, i, enc).value)
    decreases |v| - i
  {
    hide GetChar, Escaped, Matches, UnitEnd, Written, ReadAs, Encode, Complete;
    MatchesFits(doc, p, Encode(v, i) + [quote]);
    if i == |v| {
      EncodeNone(v, i);
      assert Encode(v, i) + [quote] == [quote] && text + "" == text;
      MatchesAt(doc, p, [quote], 0);
    } else {
      var w, j := Written(v, i, enc), UnitEnd(v, i, enc);
      EncodeUnit(v, i, [quote], enc);
      MatchesSplit(doc, p, w, Encode(v, j) + [quote]);
      UnitRead(doc, p, v, i, enc);
      if ReadAs(v, i, enc).Some? {
        var t := ReadAs(v, i, enc).value;
        KeptRead(doc, p + |w|, v, j, quote, text + t, enc);
        if Kept(v, j, enc).Some? {
          Regroup(text, t, Kept(v, j, enc).value);
        }
      }
    }
  }

  lemma EncodeNone(v: string, i: nat)
    requires i == |v|
    ensures Encode(v, i) == ""
  {
  }

  /** White space after a text is dropped. */
  lemma {:induction false} TrailingDropped(doc: string, p: nat, w: string, white: bool, text: string, enc: Encoding)
    requires White(w) && Matches(doc, p, w + "<")
    ensures ReadCondensed(doc, p, white, text, enc) == Got(p + |w|, text)
    decreases |w|
  {
    hide Matches;
    MatchesFits(doc, p, w + "<");
    MatchesAt(doc, p, w + "<", 0);
    if w == [] {
      assert (w + "<")[0] == '<';
    } else {
      assert w[0] in w && (w + "<")[0] == w[0];
      assert w + "<" == [w[0]] + (w[1..] + "<");
      MatchesSplit(doc, p, [w[0]], w[1..] + "<");
      TrailingDropped(doc, p + 1, w[1..], true, text, enc);
    }
  }

  /** What a text is read as, from character i on, after a blank if there was one. */
  function SqueezeFrom(v: string, i: nat, white: bool, enc: Encoding): Option<string>
    requires i <= |v|
    decreases |v| - i
  {
    if i == |v| then Some("")
    else if v[i] == ' ' then SqueezeFrom(v, i + 1, true, enc)
    else if ReadAs(v, i, enc) == None then None
    else
      Joined((if white then " " else "") + ReadAs(v, i, enc).value, SqueezeFrom(v, UnitEnd(v, i, enc), false, enc))
  }

  function Squeeze(v: string, enc: Encoding): Option<string> {
    SqueezeFrom(v, Lead(v), false, enc)
  }

  /** One step of reading a text. */
  lemma CondensedStep(doc: string, p: nat, v: string, i: nat, white: bool, text: string, enc: Encoding)
    requires Complete(v, enc) && i < |v| && Matches(doc, p, Written(v, i, enc))
    ensures p + |Written(v, i, enc)| <= |doc|
    ensures var g, w := ReadCondensed(doc, p, white, text, enc), Written(v, i, enc);
      if v[i] == ' ' then
        UnitEnd(v, i, enc) == i + 1 && |w| == 1 && g == ReadCondensed(doc, p + 1, true, text, enc)
      else if ReadAs(v, i, enc) == None then g.Bad? && !g.leaves
      else
        g == ReadCondensed(doc, p + |w|, false, text + (if white then " " else "") + ReadAs(v, i, enc).value, enc)
  {
    hide GetChar, Written, ReadAs, Complete, Matches, UnitEnd;
    UnitRead(doc, p, v, i, enc);
    UnitIs(v, i, enc);
  }

  /** A text is read condensed, from any character on. */
  lemma {:induction false} CondensedRead(doc: string, p: nat, v: string, i: nat, white: bool, text: string, w: string,
                                         enc: Encoding)
    requires Complete(v, enc) && i <= |v| && White(w)
    requires Matches(doc, p, Encode(v, i) + (w + "<"))
    ensures var g := ReadCondensed(doc, p, white, text, enc);
      if SqueezeFrom(v, i, white, enc) == None then g.Bad? && !g.leaves
      else g == Got(p + |Encode(v, i) + w|, text + SqueezeFrom(v, i, white, enc).value)
    decreases |v| - i
  {
    hide ReadCondensed, Matches, UnitEnd, Written, ReadAs, Encode, Complete, White;
    MatchesFits(doc, p, Encode(v, i) + (w + "<"));
    if i == |v| {
      EncodeNone(v, i);
      assert Encode(v, i) + (w + "<") == w + "<" && Encode(v, i) + w == w && text + "" == text;
      TrailingDropped(doc, p, w, white, text, enc);
    } else {
      var u, j := Written(v, i, enc), UnitEnd(v, i, enc);
      EncodeUnit(v, i, w + "<", enc);
      EncodeUnit(v, i, w, enc);
      MatchesSplit(doc, p, u, Encode(v, j) + (w + "<"));
      CondensedStep(doc, p, v, i, white, text, enc);
      if v[i] == ' ' {
        CondensedRead(doc, p + 1, v, i + 1, true, text, w, enc);
      } else if ReadAs(v, i, enc).Some? {
        var b, t := if white then " " else "", ReadAs(v, i, enc).value;
        CondensedRead(doc, p + |u|, v, j, false, text + b + t, w, enc);
        if SqueezeFrom(v, j, false, enc).Some? {
          Reassociate(text, b, t, SqueezeFrom(v, j, false, enc).value);
        }
      }
    }
  }

  lemma Reassociate(a: string, b: string, c: string, d: string)
    ensures a + b + c + d == a + (b + c + d)
  {
  }

  lemma NotWhiteLead(v: string)
    requires !White(v)
    ensures Lead(v) < |v|
  {
    var c :| c in v && !IsWhite(c);
    var k: nat :| k < |v| && v[k] == c;
    assert k >= Lead(v);
  }

  /** Blanks at the start of a text are printed as they are. */
  lemma {:induction false} LeadEncoded(v: string, i: nat)
    requires i <= Lead(v)
    ensures Encode(v, i) == v[i..Lead(v)] + Encode(v, Lead(v))
    decreases Lead(v) - i
  {
    hide Escaped, Encode;
    var k := Lead(v);
    if i < k {
      LeadEncoded(v, i + 1);
      EncodeEscaped(v, i, "");
      EscapedIs(' ');
      assert v[i..k] == " " + v[i + 1..k];
      assert " " + (v[i + 1..k] + Encode(v, k) + "") == " " + v[i + 1..k] + Encode(v, k);
      assert Encode(v, i) + "" == Encode(v, i);
    } else {
      assert v[i..k] + Encode(v, k) == Encode(v, k);
    }
  }

  // ----- Attributes -------------------------------------------------------------------------

  lemma AttributeIs(a: Attribute)
    requires ValidName(a.name)
    ensures PrintAttribute(a) == a.name + ("=" + ([Quote(a.value)] + (Encode(a.value, 0) + [Quote(a.value)])))
  {
    NameEncoded(a.name, 0);
    assert a.name[0..] == a.name;
    var q, v := [Quote(a.value)], Encode(a.value, 0);
    assert a.name + "=" + q + v + q == a.name + ("=" + (q + (v + q)));
  }

  /** The parts of an attribute, put together. */
  lemma AttributeFrom(doc: string, p: nat, e: nat, enc: Encoding)
    requires p < e && e + 1 < |doc| && SkipWhite(doc, p, enc) == p && ReadName(doc, p) == Some(e)
    requires doc[e] == '=' && (doc[e + 1] == '\'' || doc[e + 1] == '\"')
    ensures var g := ReadAttributeValue(doc, e + 1, enc);
      ReadAttribute(doc, p, enc) ==
      if g.Bad? then BadAttribute(g.leaves, g.text) else AttributeRead(g.next, Attribute(doc[p..e], g.text))
  {
    hide ReadAttributeValue, ReadName;
    StopsAt(doc, e, enc);
    StopsAt(doc, e + 1, enc);
    SkipNone(doc, e, enc);
    SkipNone(doc, e + 1, enc);
  }

  /** What an attribute is read as. */
  function AttributeAgain(a: Attribute, enc: Encoding): Option<Attribute> {
    if Kept(a.value, 0, enc) == None then None else Some(Attribute(a.name, Kept(a.value, 0, enc).value))
  }

  lemma QuotedParsed(doc: string, p: nat, value: string, enc: Encoding)
    requires Complete(value, enc)
    requires Matches(doc, p, [Quote(value)] + (Encode(value, 0) + [Quote(value)]))
    ensures p < |doc| && (doc[p] == '\'' || doc[p] == '\"')
    ensures var g := ReadAttributeValue(doc, p, enc);
      if Kept(value, 0, enc) == None then g.Bad? && !g.leaves
      else g == Got(p + |Encode(value, 0)| + 2, Kept(value, 0, enc).value)
  {
    hide Encode, ReadKept, Kept;
    var quote := Quote(value);
    MatchesSplit(doc, p, [quote], Encode(value, 0) + [quote]);
    MatchesAt(doc, p, [quote], 0);
    KeptRead(doc, p + 1, value, 0, quote, "", enc);
    assert Kept(value, 0, enc).Some? ==> "" + Kept(value, 0, enc).value == Kept(value, 0, enc).value;
  }

  /** The name of an attribute, and its value as far as it can be read. */
  predicate Readable(a: Attribute, enc: Encoding) {
    ValidName(a.name) && !Marked(a.name, 0, enc) && Complete(a.value, enc)
  }

  lemma AttributeParsed(doc: string, p: nat, a: Attribute, enc: Encoding)
    requires Readable(a, enc) && Matches(doc, p, PrintAttribute(a))
    ensures p <= |doc| && SkipWhite(doc, p, enc) == p
    ensures var r := ReadAttribute(doc, p, enc);
      if AttributeAgain(a, enc) == None then r.BadAttribute? && !r.leaves
      else r == AttributeRead(p + |PrintAttribute(a)|, AttributeAgain(a, enc).value)
  {
    hide Encode, ReadName, ReadAttributeValue, PrintAttribute, Quote, ReadAttribute, ValidName, Complete, Kept, Marked;
    MatchesFits(doc, p, PrintAttribute(a));
    var v := [Quote(a.value)] + (Encode(a.value, 0) + [Quote(a.value)]);
    AttributeIs(a);
    MatchesSplit(doc, p, a.name, "=" + v);
    var e := p + |a.name|;
    MatchesSplit(doc, e, "=", v);
    MatchesAt(doc, e, "=", 0);
    NameRead(doc, p, a.name, enc);
    QuotedParsed(doc, e + 1, a.value, enc);
    AttributeFrom(doc, p, e, enc);
  }

  function AttributesAgain(attributes: seq<Attribute>, enc: Encoding): Option<seq<Attribute>> {
    if attributes == [] then Some([])
    else if AttributeAgain(attributes[0], enc) == None || AttributesAgain(attributes[1..], enc) == None then None
    else Some([AttributeAgain(attributes[0], enc).value] + AttributesAgain(attributes[1..], enc).value)
  }

  /** What follows the attributes of a start tag. */
  predicate TagEnd(tail: string) {
    tail == " />" || tail == ">"
  }

  lemma NotNamed(done: seq<Attribute>, name: string)
    requires forall a | a in done :: a.name != name
    ensures !HasName(done, name)
  {
  }

  lemma EndParsed(doc: string, p: nat, tail: string, done: seq<Attribute>, enc: Encoding)
    requires TagEnd(tail) && Matches(doc, p, tail)
    ensures ReadTag(doc, p, done, enc) == if tail == ">" then Open(p + 1, done) else Closed(p + 3, done)
  {
    MatchesAt(doc, p, tail, 0);
    if tail == " />" {
      MatchesAt(doc, p, tail, 1);
      MatchesAt(doc, p, tail, 2);
      assert tail == " " + "/>";
      MatchesSplit(doc, p, " ", "/>");
      SkipOver(doc, p, " ", enc);
      StopsAt(doc, p + 1, enc);
      SkipNone(doc, p + 1, enc);
    } else {
      StopsAt(doc, p, enc);
      SkipNone(doc, p, enc);
    }
  }

  lemma AttributesStep(rest: seq<Attribute>, tail: string)
    requires rest != []
    ensures PrintAttributes(rest) + tail == " " + (PrintAttribute(rest[0]) + (PrintAttributes(rest[1..]) + tail))
  {
    hide PrintAttribute;
    var a, r := PrintAttribute(rest[0]), PrintAttributes(rest[1..]);
    assert " " + a + r + tail == " " + (a + (r + tail));
  }

  /** What comes of a start tag with these attributes, behind some. */
  function TagAgain(rest: seq<Attribute>, done: seq<Attribute>, tail: string, q: nat, enc: Encoding): Tag {
    if AttributesAgain(rest, enc) == None then BadTag(false)
    else if tail == ">" then Open(q, done + AttributesAgain(rest, enc).value)
    else Closed(q, done + AttributesAgain(rest, enc).value)
  }

  lemma {:induction false} TagParsed(doc: string, p: nat, rest: seq<Attribute>, tail: string, done: seq<Attribute>,
                                     enc: Encoding)
    requires TagEnd(tail) && Matches(doc, p, PrintAttributes(rest) + tail)
    requires forall a | a in rest :: Readable(a, enc)
    requires forall i, j | 0 <= i < j < |rest| :: rest[i].name != rest[j].name
    requires forall a, b | a in done && b in rest :: a.name != b.name
    ensures p <= |doc|
    ensures ReadTag(doc, p, done, enc) == TagAgain(rest, done, tail, p + |PrintAttributes(rest) + tail|, enc)
    decreases |rest|
  {
    hide ReadAttribute, PrintAttribute, Readable, PrintAttributes, ReadTag, Matches, AttributeAgain,
      AttributesAgain, TagAgain;
    MatchesFits(doc, p, PrintAttributes(rest) + tail);
    if rest == [] {
      NoAttributes(rest);
      assert PrintAttributes(rest) + tail == tail;
      EndParsed(doc, p, tail, done, enc);
      TagAgainNone(done, tail, p + |tail|, enc);
    } else {
      var a, more := rest[0], PrintAttributes(rest[1..]) + tail;
      AttributesStep(rest, tail);
      MatchesSplit(doc, p, " ", PrintAttribute(a) + more);
      MatchesSplit(doc, p + 1, PrintAttribute(a), more);
      MatchesFits(doc, p + 1 + |PrintAttribute(a)|, more);
      MoreFollows(rest[1..], tail);
      TagStep(doc, p, a, done, enc);
      TagAgainMore(rest, done, tail, p + |PrintAttributes(rest) + tail|, enc);
      if AttributeAgain(a, enc).Some? {
        var b := AttributeAgain(a, enc).value;
        NameAgain(a, enc);
        TagParsed(doc, p + 1 + |PrintAttribute(a)|, rest[1..], tail, done + [b], enc);
      }
    }
  }

  lemma TagAgainNone(done: seq<Attribute>, tail: string, q: nat, enc: Encoding)
    requires TagEnd(tail)
    ensures TagAgain([], done, tail, q, enc) == if tail == ">" then Open(q, done) else Closed(q, done)
  {
    assert done + [] == done;
  }

  lemma TagAgainMore(rest: seq<Attribute>, done: seq<Attribute>, tail: string, q: nat, enc: Encoding)
    requires rest != []
    ensures TagAgain(rest, done, tail, q, enc) ==
      if AttributeAgain(rest[0], enc) == None then BadTag(false)
      else TagAgain(rest[1..], done + [AttributeAgain(rest[0], enc).value], tail, q, enc)
  {
    hide AttributeAgain;
    if AttributeAgain(rest[0], enc).Some? && AttributesAgain(rest[1..], enc).Some? {
      var a, r := AttributeAgain(rest[0], enc).value, AttributesAgain(rest[1..], enc).value;
      assert done + ([a] + r) == done + [a] + r;
    }
  }

  lemma NameAgain(a: Attribute, enc: Encoding)
    ensures AttributeAgain(a, enc).Some? ==> AttributeAgain(a, enc).value.name == a.name
  {
  }

  lemma MoreFollows(rest: seq<Attribute>, tail: string)
    requires TagEnd(tail)
    ensures |PrintAttributes(rest) + tail| > 0
  {
  }

  lemma NoAttributes(rest: seq<Attribute>)
    requires rest == []
    ensures PrintAttributes(rest) == ""
  {
  }

  /** One attribute of a start tag. */
  lemma TagStep(doc: string, p: nat, a: Attribute, done: seq<Attribute>, enc: Encoding)
    requires Readable(a, enc) && Matches(doc, p, " ") && Matches(doc, p + 1, PrintAttribute(a))
    requires p + 1 + |PrintAttribute(a)| < |doc| && forall b | b in done :: b.name != a.name
    ensures ReadTag(doc, p, done, enc) ==
      if AttributeAgain(a, enc) == None then BadTag(false)
      else ReadTag(doc, p + 1 + |PrintAttribute(a)|, done + [AttributeAgain(a, enc).value], enc)
  {
    hide PrintAttribute, ReadAttribute, HasName, Readable, AttributeAgain;
    MatchesAt(doc, p, " ", 0);
    SkipOver(doc, p, " ", enc);
    AttributeStarts(doc, p + 1, a, enc);
    AttributeParsed(doc, p + 1, a, enc);
    NameAgain(a, enc);
    NotNamed(done, a.name);
  }

  lemma AttributeStarts(doc: string, p: nat, a: Attribute, enc: Encoding)
    requires Readable(a, enc) && Matches(doc, p, PrintAttribute(a))
    ensures p < |doc| && IsNameStart(doc[p])
  {
    AttributeIs(a);
    MatchesAt(doc, p, PrintAttribute(a), 0);
  }

  // ----- Where nodes lie in a document ------------------------------------------------------

  /** The blanks a node is printed with before its first character. */
  function Blanks(n: Node): string {
    if n.Text? then n.value[..Lead(n.value)] else ""
  }

  /** What is printed of a node from its first character on. */
  function Shown(n: Node, style: Style, depth: nat): string {
    if n.Text? then Encode(n.value, Lead(n.value)) else Content(n, style, depth)
  }

  lemma ContentShown(n: Node, style: Style, depth: nat)
    ensures Content(n, style, depth) == Blanks(n) + Shown(n, style, depth) && White(Blanks(n))
  {
    hide Body, Encode;
    if n.Text? {
      LeadEncoded(n.value, 0);
      forall c | c in Blanks(n) ensures c == ' ' {
        var i: nat :| i < Lead(n.value) && c == n.value[i];
      }
    } else {
      assert "" + Content(n, style, depth) == Content(n, style, depth);
    }
  }

  /** From place p, nodes lie one after the other with only white space around them, up to `end`. */
  predicate Laid(doc: string, p: nat, nodes: seq<Node>, style: Style, depth: nat, end: nat)
    requires p <= |doc|
    decreases |nodes|
  {
    var q := SkipWhite(doc, p);
    if nodes == [] then q == end
    else
      && Matches(doc, q, Shown(nodes[0], style, depth))
      && Laid(doc, q + |Shown(nodes[0], style, depth)|, nodes[1..], style, depth, end)
  }

  lemma LaidLater(doc: string, p: nat, r: nat, nodes: seq<Node>, style: Style, depth: nat, end: nat)
    requires p <= |doc| && r <= |doc| && SkipWhite(doc, p) == SkipWhite(doc, r)
    ensures Laid(doc, p, nodes, style, depth, end) == Laid(doc, r, nodes, style, depth, end)
  {
    hide Shown;
  }

  lemma {:induction false} IndentWhite(style: Style, depth: nat)
    requires White(style.indent)
    ensures White(Indent(style, depth))
  {
    if depth > 0 {
      IndentWhite(style, depth - 1);
    }
  }

  lemma MarkupStarts(n: Node, style: Style, depth: nat)
    requires !n.Text?
    ensures Content(n, style, depth) != [] && Content(n, style, depth)[0] == '<'
  {
    hide Inner, PrintAttributes, PrintDeclared;
    if n.Element? {
      assert Body(n, style, depth)[0] == '<';
    }
  }

  /** The first character of a node as printed. */
  lemma ShownStarts(n: Node, style: Style, depth: nat)
    requires Formed(n)
    ensures var c := Shown(n, style, depth); c != [] && !IsWhite(c[0]) && (c[0] == '<' <==> !n.Text?)
  {
    if n.Text? {
      var k := Lead(n.value);
      NotWhiteLead(n.value);
      EscapedIs(n.value[k]);
      if Reference(n.value, k) {
        assert Encode(n.value, k)[0] == '&';
      } else {
        EncodeEscaped(n.value, k, "");
      }
    } else {
      MarkupStarts(n, style, depth);
    }
  }

  lemma LineIs(nodes: seq<Node>, style: Style, depth: nat, rest: string)
    requires nodes != []
    ensures PrintNodes(nodes, style, depth) + rest ==
      Indent(style, depth) + Blanks(nodes[0]) + (Shown(nodes[0], style, depth) +
        (style.lineBreak + (PrintNodes(nodes[1..], style, depth) + rest)))
  {
    hide Content, Shown, Indent, Blanks, PrintNodes, White;
    ContentShown(nodes[0], style, depth);
    NodesSplit(nodes, style, depth);
    RegroupLine(Indent(style, depth), Blanks(nodes[0]), Shown(nodes[0], style, depth), style.lineBreak,
                PrintNodes(nodes[1..], style, depth), rest);
  }

  lemma NodesSplit(nodes: seq<Node>, style: Style, depth: nat)
    requires nodes != []
    ensures PrintNodes(nodes, style, depth) ==
      Indent(style, depth) + Content(nodes[0], style, depth) + style.lineBreak + PrintNodes(nodes[1..], style, depth)
  {
    hide Content, Indent;
  }

  lemma RegroupLine(i: string, b: string, c: string, l: string, r: string, rest: string)
    ensures i + (b + c) + l + r + rest == i + b + (c + (l + (r + rest)))
  {
    assert l + r + rest == l + (r + rest);
    assert i + (b + c) == i + b + c;
  }

  lemma WhiteJoined(a: string, b: string)
    requires White(a) && White(b)
    ensures White(a + b)
  {
  }

  lemma LaidOne(doc: string, p: nat, nodes: seq<Node>, style: Style, depth: nat, end: nat)
    requires p <= |doc| && nodes != [] && Matches(doc, SkipWhite(doc, p), Shown(nodes[0], style, depth))
    requires Laid(doc, SkipWhite(doc, p) + |Shown(nodes[0], style, depth)|, nodes[1..], style, depth, end)
    ensures Laid(doc, p, nodes, style, depth, end)
  {
    hide Shown;
  }

  lemma LaidNone(doc: string, p: nat, nodes: seq<Node>, style: Style, depth: nat)
    requires p <= |doc| && nodes == []
    ensures Laid(doc, p, nodes, style, depth, SkipWhite(doc, p))
  {
  }

  /** The first of printed nodes: where it is, and where the others are. */
  lemma FirstPlaced(doc: string, p: nat, nodes: seq<Node>, style: Style, depth: nat, rest: string)
    requires White(style.indent) && White(style.lineBreak) && nodes != [] && Formed(nodes[0])
    requires Matches(doc, p, PrintNodes(nodes, style, depth) + rest)
    ensures var i, c := Indent(style, depth) + Blanks(nodes[0]), Shown(nodes[0], style, depth);
      var q, r := p + |i|, p + |i| + |c| + |style.lineBreak|;
      && r <= |doc| && SkipWhite(doc, p) == q && Matches(doc, q, c) && SkipWhite(doc, q + |c|) == SkipWhite(doc, r)
      && Matches(doc, r, PrintNodes(nodes[1..], style, depth) + rest)
      && p + |PrintNodes(nodes, style, depth)| == r + |PrintNodes(nodes[1..], style, depth)|
  {
    hide Shown, Indent, PrintNodes, SkipWhite, Formed, Matches, White, Blanks;
    var i, c := Indent(style, depth) + Blanks(nodes[0]), Shown(nodes[0], style, depth);
    var tail := PrintNodes(nodes[1..], style, depth) + rest;
    var q := p + |i|;
    LineIs(nodes, style, depth, rest);
    IndentWhite(style, depth);
    ContentShown(nodes[0], style, depth);
    WhiteJoined(Indent(style, depth), Blanks(nodes[0]));
    MatchesSplit(doc, p, i, c + (style.lineBreak + tail));
    SkipOver(doc, p, i);
    MatchesSplit(doc, q, c, style.lineBreak + tail);
    ShownStarts(nodes[0], style, depth);
    MatchesFits(doc, q, c);
    MatchesAt(doc, q, c, 0);
    SkipNone(doc, q);
    MatchesSplit(doc, q + |c|, style.lineBreak, tail);
    MatchesFits(doc, q + |c| + |style.lineBreak|, tail);
    SkipOver(doc, q + |c|, style.lineBreak);
  }

  /** Printed nodes lie in the document. */
  lemma {:induction false} PrintedLaid(doc: string, p: nat, nodes: seq<Node>, style: Style, depth: nat, rest: string)
    requires White(style.indent) && White(style.lineBreak) && (forall n | n in nodes :: Formed(n))
    requires Matches(doc, p, PrintNodes(nodes, style, depth) + rest)
    ensures Laid(doc, p, nodes, style, depth, SkipWhite(doc, p + |PrintNodes(nodes, style, depth)|))
    decreases |nodes|
  {
    hide Shown, Indent, PrintNodes, SkipWhite, Formed, Laid, Matches, White, Blanks;
    MatchesFits(doc, p, PrintNodes(nodes, style, depth) + rest);
    if nodes == [] {
      NoNodes(nodes, style, depth);
      LaidNone(doc, p, nodes, style, depth);
    } else {
      FirstPlaced(doc, p, nodes, style, depth, rest);
      var q, c := p + |Indent(style, depth) + Blanks(nodes[0])|, Shown(nodes[0], style, depth);
      var r := q + |c| + |style.lineBreak|;
      PrintedLaid(doc, r, nodes[1..], style, depth, rest);
      var end := SkipWhite(doc, r + |PrintNodes(nodes[1..], style, depth)|);
      LaidLater(doc, q + |c|, r, nodes[1..], style, depth, end);
      LaidOne(doc, p, nodes, style, depth, end);
    }
  }

  lemma NoNodes(nodes: seq<Node>, style: Style, depth: nat)
    requires nodes == []
    ensures PrintNodes(nodes, style, depth) == ""
  {
  }

  /** What stands between the tags of an element lies in the document. */
  lemma InnerLaid(doc: string, p: nat, children: seq<Node>, style: Style, depth: nat, rest: string)
    requires White(style.indent) && White(style.lineBreak) && children != []
    requires forall n | n in children :: Formed(n)
    requires Matches(doc, p, Inner(children, style, depth) + ("</" + rest))
    ensures Laid(doc, p, children, style, depth + 1, p + |Inner(children, style, depth)|)
  {
    hide Content, Shown, Blanks, Indent, PrintNodes, Formed, Laid, Matches, White;
    var tail := "</" + rest;
    var end := p + |Inner(children, style, depth)|;
    MatchesSplit(doc, p, Inner(children, style, depth), tail);
    MatchesFits(doc, end, tail);
    MatchesAt(doc, end, tail, 0);
    SkipNone(doc, end);
    if Simple(children) {
      var b, c := Blanks(children[0]), Shown(children[0], style, depth + 1);
      assert Formed(children[0]);
      SimpleContent(children, style, depth);
      ContentShown(children[0], style, depth + 1);
      ShownStarts(children[0], style, depth + 1);
      MatchesSplit(doc, p, b, c);
      SkipOver(doc, p, b);
      MatchesAt(doc, p + |b|, c, 0);
      SkipNone(doc, p + |b|);
      LaidNone(doc, end, children[1..], style, depth + 1);
      LaidOne(doc, p, children, style, depth + 1, end);
    } else {
      LinesLaid(doc, p, children, style, depth, tail, end);
    }
  }

  /** The same for children that stand on lines of their own. */
  lemma LinesLaid(doc: string, p: nat, children: seq<Node>, style: Style, depth: nat, tail: string, end: nat)
    requires White(style.indent) && White(style.lineBreak) && children != [] && !Simple(children)
    requires forall n | n in children :: Formed(n)
    requires Matches(doc, p, Inner(children, style, depth) + tail)
    requires end == p + |Inner(children, style, depth)| && end <= |doc| && SkipWhite(doc, end) == end
    ensures p <= |doc| && Laid(doc, p, children, style, depth + 1, end)
  {
    hide Content, Shown, Indent, PrintNodes, Formed, Laid, Matches, White, SkipWhite;
    var l, n, i := style.lineBreak, PrintNodes(children, style, depth + 1), Indent(style, depth);
    assert Inner(children, style, depth) == l + n + i;
    RegroupLines(l, n, i, tail);
    IndentWhite(style, depth);
    MatchesSplit(doc, p, l, n + (i + tail));
    SkipOver(doc, p, l);
    var q := p + |l|;
    PrintedLaid(doc, q, children, style, depth + 1, i + tail);
    MatchesSplit(doc, q, n, i + tail);
    MatchesSplit(doc, q + |n|, i, tail);
    MatchesFits(doc, q, n);
    MatchesFits(doc, q + |n|, i);
    SkipOver(doc, q + |n|, i);
    LaidLater(doc, p, q, children, style, depth + 1, end);
  }

  lemma RegroupLines(l: string, n: string, i: string, tail: string)
    ensures l + n + i + tail == l + (n + (i + tail))
  {
  }

  lemma SimpleContent(children: seq<Node>, style: Style, depth: nat)
    requires Simple(children)
    ensures Inner(children, style, depth) == Content(children[0], style, depth + 1)
  {
  }
}
