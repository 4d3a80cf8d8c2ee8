/** Exactly which attribute values come back from what `EncodeString` writes. */
module XmlEncoding {
  import opened Common
  import opened XmlTree
  import opened XmlParse
  import opened XmlLayout
  import opened XmlRoundTrip

  /** From place p on, the document is a value from character i on, encoded, and its closing quote. */
  predicate Rest(doc: string, p: nat, v: string, i: nat, quote: char) {
    p <= |doc| && i <= |v| && doc[p..] == Encode(v, i) + [quote]
  }

  /** Some reference starts at or after character i. */
  predicate HasReference(v: string, i: nat) {
    exists k: nat | i <= k < |v| :: Reference(v, k)
  }

  lemma RestSplit(doc: string, p: nat, a: string, b: string)
    requires p <= |doc| && doc[p..] == a + b
    ensures Matches(doc, p, a) && p + |a| <= |doc| && doc[p + |a|..] == b
  {
    assert doc[p..p + |a|] == doc[p..][..|a|];
    assert doc[p + |a|..] == doc[p..][|a|..];
  }

  /** One character that is not part of a reference. */
  lemma RestStep(doc: string, p: nat, v: string, i: nat, quote: char)
    requires Rest(doc, p, v, i, quote) && i < |v| && !Reference(v, i)
    ensures Matches(doc, p, Escaped(v[i])) && Rest(doc, p + |Escaped(v[i])|, v, i + 1, quote)
  {
    assert Encode(v, i) + [quote] == Escaped(v[i]) + (Encode(v, i + 1) + [quote]);
    RestSplit(doc, p, Escaped(v[i]), Encode(v, i + 1) + [quote]);
  }

  /** What is passed through with a reference. */
  lemma RestPass(doc: string, p: nat, v: string, i: nat, quote: char)
    requires Rest(doc, p, v, i, quote) && Reference(v, i)
    ensures var e := PassEnd(v, i); Matches(doc, p, v[i..e]) && Rest(doc, p + e - i, v, e, quote)
  {
    var e := PassEnd(v, i);
    assert Encode(v, i) + [quote] == v[i..e] + (Encode(v, e) + [quote]);
    RestSplit(doc, p, v[i..e], Encode(v, e) + [quote]);
  }

  lemma {:induction false} PassedHasNoSemicolon(v: string, i: nat, k: nat)
    requires i + 1 < |v| && i < k < PassEnd(v, i)
    ensures v[k] != ';'
    decreases |v| - i
  {
    if k > i + 1 {
      PassedHasNoSemicolon(v, i + 1, k);
    }
  }

  /** The only semicolon of an escape is at its end. */
  lemma SemicolonLast(c: char, k: nat)
    requires k < |Escaped(c)| && Escaped(c)[k] == ';'
    ensures k + 1 == |Escaped(c)|
  {
  }

  lemma {:induction false} FindLater(doc: string, p: nat, q: nat, c: char)
    requires p <= q <= |doc| && forall k | p <= k < q :: doc[k] != c
    ensures Find(doc, p, c) == Find(doc, q, c)
    decreases q - p
  {
    if p < q {
      FindLater(doc, p + 1, q, c);
    }
  }

  /** The next semicolon ends what is written for some character. */
  lemma {:induction false} SemicolonEnds(doc: string, p: nat, v: string, i: nat, quote: char) returns (j: nat)
    requires Rest(doc, p, v, i, quote) && quote != ';' && Find(doc, p, ';').Some?
    ensures i < j && Rest(doc, Find(doc, p, ';').value + 1, v, j, quote)
    decreases |v| - i
  {
    hide Rest, Escaped, Matches;
    RestIs(doc, p, v, i, quote);
    j := i + 1;
    if i == |v| {
      assert false;
    } else if Reference(v, i) {
      var e := PassEnd(v, i);
      RestPass(doc, p, v, i, quote);
      NoSemicolonPassed(doc, p, v, i, e);
      j := SemicolonEnds(doc, p + e - i, v, e, quote);
    } else {
      var s := Escaped(v[i]);
      RestStep(doc, p, v, i, quote);
      EscapedIs(v[i]);
      j := AfterEscape(doc, p, v, i, quote);
    }
  }

  lemma RestIs(doc: string, p: nat, v: string, i: nat, quote: char)
    requires Rest(doc, p, v, i, quote)
    ensures p < |doc| && i <= |v|
    ensures i == |v| ==> p + 1 == |doc| && doc[p] == quote
  {
    assert |doc[p..]| == |Encode(v, i)| + 1;
    if i == |v| {
      assert doc[p..][0] == quote;
    }
  }

  lemma NoSemicolonPassed(doc: string, p: nat, v: string, i: nat, e: nat)
    requires Reference(v, i) && e == PassEnd(v, i) && Matches(doc, p, v[i..e])
    ensures p + e - i <= |doc| && Find(doc, p, ';') == Find(doc, p + e - i, ';')
  {
    forall k | p <= k < p + e - i ensures doc[k] != ';' {
      MatchesAt(doc, p, v[i..e], k - p);
      if k > p {
        PassedHasNoSemicolon(v, i, i + k - p);
      }
    }
    FindLater(doc, p, p + e - i, ';');
  }

  lemma {:induction false} AfterEscape(doc: string, p: nat, v: string, i: nat, quote: char) returns (j: nat)
    requires Rest(doc, p, v, i, quote) && quote != ';' && Find(doc, p, ';').Some?
    requires i < |v| && !Reference(v, i)
    ensures i < j && Rest(doc, Find(doc, p, ';').value + 1, v, j, quote)
    decreases |v| - i, 0
  {
    hide Rest, Escaped, Matches;
    var s := Escaped(v[i]);
    RestStep(doc, p, v, i, quote);
    EscapedIs(v[i]);
    MatchesFits(doc, p, s);
    var last := p + |s| - 1;
    forall k | p <= k < last ensures doc[k] != ';' {
      MatchesAt(doc, p, s, k - p);
      if s[k - p] == ';' {
        SemicolonLast(v[i], k - p);
      }
    }
    FindLater(doc, p, last, ';');
    if doc[last] == ';' {
      j := i + 1;
    } else {
      FindLater(doc, last, last + 1, ';');
      j := SemicolonEnds(doc, p + |s|, v, i + 1, quote);
    }
  }

  /** A reference stands for at most one character, but for at least four of the value. */
  lemma ReferenceShrinks(doc: string, p: nat, v: string, i: nat, quote: char) returns (j: nat)
    requires Rest(doc, p, v, i, quote) && quote != ';' && Reference(v, i)
    ensures p < |doc| && doc[p] == '&'
    ensures GetChar(doc, p).Got? ==>
      i + 4 <= j && Rest(doc, GetChar(doc, p).next, v, j, quote) && |GetChar(doc, p).text| == 1
  {
    hide Rest;
    var e := PassEnd(v, i);
    RestPass(doc, p, v, i, quote);
    MatchesAt(doc, p, v[i..e], 0);
    MatchesAt(doc, p, v[i..e], 1);
    RestIs(doc, p + e - i, v, e, quote);
    ThirdIsX(doc, p, v, i, quote);
    j := 0;
    if GetChar(doc, p).Got? {
      j := PastReference(doc, p, v, i, quote);
    }
  }

  lemma ThirdIsX(doc: string, p: nat, v: string, i: nat, quote: char)
    requires Rest(doc, p, v, i, quote) && Reference(v, i)
    ensures p + 3 < |doc| && doc[p + 1] == '#' && doc[p + 2] == 'x'
    ensures PassEnd(v, i) == i + 2 ==> Rest(doc, p + 3, v, i + 3, quote)
    ensures PassEnd(v, i) >= i + 2
  {
    hide Rest;
    var e := PassEnd(v, i);
    RestPass(doc, p, v, i, quote);
    MatchesAt(doc, p, v[i..e], 1);
    RestIs(doc, p + e - i, v, e, quote);
    if e == i + 2 {
      RestStep(doc, p + 2, v, e, quote);
      MatchesAt(doc, p + 2, "x", 0);
      RestIs(doc, p + 3, v, i + 3, quote);
    } else {
      MatchesAt(doc, p, v[i..e], 2);
    }
  }

  lemma PastReference(doc: string, p: nat, v: string, i: nat, quote: char) returns (j: nat)
    requires Rest(doc, p, v, i, quote) && quote != ';' && Reference(v, i)
    requires p + 3 < |doc| && Find(doc, p + 3, ';').Some?
    ensures i + 4 <= j && Rest(doc, Find(doc, p + 3, ';').value + 1, v, j, quote)
  {
    hide Rest;
    var e := PassEnd(v, i);
    ThirdIsX(doc, p, v, i, quote);
    if e == i + 2 {
      j := SemicolonEnds(doc, p + 3, v, i + 3, quote);
    } else {
      RestPass(doc, p, v, i, quote);
      forall k | p + 3 <= k < p + e - i ensures doc[k] != ';' {
        MatchesAt(doc, p, v[i..e], k - p);
        PassedHasNoSemicolon(v, i, i + k - p);
      }
      FindLater(doc, p + 3, p + e - i, ';');
      j := SemicolonEnds(doc, p + e - i, v, e, quote);
    }
  }

  /** Reading never finds more characters than were written, and fewer if there was a reference. */
  lemma {:induction false} Shorter(doc: string, p: nat, v: string, i: nat, quote: char, text: string)
    requires Rest(doc, p, v, i, quote) && (quote == '\'' || quote == '\"')
    ensures var g := ReadKept(doc, p, quote, text);
      g.Got? ==> |g.text| <= |text| + |v| - i && (HasReference(v, i) ==> |g.text| < |text| + |v| - i)
    decreases |v| - i
  {
    hide Rest, GetChar, Escaped, Matches;
    RestIs(doc, p, v, i, quote);
    if i < |v| {
      if Reference(v, i) {
        var j := ReferenceShrinks(doc, p, v, i, quote);
        var g := GetChar(doc, p);
        if g.Got? {
          RestIs(doc, g.next, v, j, quote);
          Shorter(doc, g.next, v, j, quote, text + g.text);
        }
      } else {
        RestStep(doc, p, v, i, quote);
        EscapeRead(doc, p, v[i], Undeclared);
        EscapedIs(v[i]);
        Shorter(doc, p + |Escaped(v[i])|, v, i + 1, quote, text + [v[i]]);
      }
    }
  }

  /** An encoded value, read up to its quote, is the value exactly when no hexadecimal character
      reference is in it. */
  lemma ValueComesBack(v: string, quote: char)
    requires quote == '\'' || quote == '\"'
    ensures ReadKept(Encode(v, 0) + [quote], 0, quote, "") == Got(|Encode(v, 0)| + 1, v) <==> Plain(v)
  {
    hide Encode, ReadKept, Reference, Kept;
    var doc := Encode(v, 0) + [quote];
    assert doc[0..] == doc && doc[0..|doc|] == doc;
    if Plain(v) {
      KeptIsSame(v, Undeclared);
      KeptRead(doc, 0, v, 0, quote, "", Undeclared);
      assert "" + v == v;
    } else {
      assert HasReference(v, 0);
      Shorter(doc, 0, v, 0, quote, "");
    }
  }

  const REFERENCE := Element("a", [], [Text("&#x41;")])

  lemma ReferencePassed(v: string)
    requires v == "&#x41;"
    ensures Encode(v, 0) == v
  {
    assert PassEnd(v, 4) == 5 && PassEnd(v, 3) == 5 && PassEnd(v, 2) == 5 && PassEnd(v, 1) == 5;
    assert PassEnd(v, 0) == 5;
    assert Encode(v, 5) == Escaped(';') + Encode(v, 6) == ";";
    assert Encode(v, 0) == v[0..5] + ";";
  }

  lemma ReferenceText()
    ensures PrintNodes([REFERENCE], STREAM, 0) == "<a>&#x41;</a>"
  {
    hide Encode;
    ReferencePassed("&#x41;");
    assert Inner(REFERENCE.children, STREAM, 0) == "&#x41;";
    assert Body(REFERENCE, STREAM, 0) == "<a>&#x41;</a>";
    assert PrintNodes([REFERENCE], STREAM, 0) == "" + Body(REFERENCE, STREAM, 0) + "" + "";
  }

  lemma ReferenceCharacter(doc: string)
    requires doc == "<a>&#x41;</a>"
    ensures GetChar(doc, 3) == Got(9, "A")
  {
    FindAt(doc, 6, ';', 2);
    assert DigitsBack(doc, 5, 6, 16, 'x') == Some(0);
    assert DigitsBack(doc, 5, 7, 16, 'x') == Some(4);
    assert DigitsBack(doc, 5, 8, 16, 'x') == Some(1 + 16 * 4);
  }

  lemma ReferenceElement(doc: string)
    requires doc == "<a>&#x41;</a>"
    ensures ReadElement(doc, 0) == Parsed(13, Element("a", [], [Text("A")]))
  {
    hide GetChar, Matches;
    assert SkipWhite(doc, 0) == 0 && SkipWhite(doc, 1) == 1 && SkipWhite(doc, 2) == 2 && SkipWhite(doc, 3) == 3;
    assert SkipWhite(doc, 9) == 9 && SkipWhite(doc, 12) == 12;
    assert NameEnd(doc, 2) == 2 && NameEnd(doc, 1) == 2;
    assert ReadTag(doc, 2, []) == Open(3, []);
    ReferenceCharacter(doc);
    assert "" + "" + "A" == "A" && [] + [Text("A")] == [Text("A")];
    assert ReadCondensed(doc, 3, false, "") == ReadCondensed(doc, 9, false, "A") == Got(9, "A");
    assert doc[9..13] == "</a>" == "</" + ("a" + ">");
    assert Matches(doc, 9, "</" + ("a" + ">")) by { MatchesIs(doc, 9, "</" + ("a" + ">")); }
    EndTagParsed(doc, 9, "a", Undeclared);
    assert ReadValue(doc, 9, [Text("A")]) == Children(9, [Text("A")]);
    assert !White("A") by {
      assert "A"[0] in "A";
    }
    assert ReadValue(doc, 3, []) == ReadValue(doc, 9, [Text("A")]);
    assert doc[1..2] == "a";
  }

  /** A hexadecimal character reference in a text is printed as it is, and read as the character it
      stands for. */
  lemma ReferenceIsRead()
    ensures Parse(PrintNodes([REFERENCE], STREAM, 0)) == Document([Element("a", [], [Text("A")])])
  {
    hide ReadElement, PrintNodes;
    ReferenceText();
    var doc, e := "<a>&#x41;</a>", Element("a", [], [Text("A")]);
    ReferenceElement(doc);
    assert SkipWhite(doc, 0) == 0 && SkipWhite(doc, 13) == 13;
    assert StartsElement(doc, 0);
    assert [] + [e] == [e];
    assert ReadNodes(doc, 13, [e]) == Document([e]);
  }
}
