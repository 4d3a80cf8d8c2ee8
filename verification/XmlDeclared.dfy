/** A printed declaration is parsed as itself. */
module XmlDeclared {
  import opened Common
  import opened XmlTree
  import opened XmlParse
  import opened XmlLayout

  /** The names of the three values. */
  predicate IsName(name: string) {
    name == "version" || name == "encoding" || name == "standalone"
  }

  /** A declaration with one of its values set. */
  function With(d: Node, name: string, value: string): (r: Node)
    requires d.Declaration? && IsName(name)
    ensures r.Declaration?
  {
    if name == "version" then d.(version := value)
    else if name == "encoding" then d.(encoding := value)
    else d.(standalone := value)
  }

  // ----- One value --------------------------------------------------------------------------

  /** A value that needs no encoding is read as it is. */
  lemma {:induction false} RawRead(doc: string, p: nat, v: string, i: nat, text: string, enc: Encoding)
    requires Quotable(v, enc) && i <= |v| && Matches(doc, p, v[i..] + "\"")
    ensures ReadKept(doc, p, '\"', text, enc) == Got(p + |v| - i + 1, text + v[i..])
    decreases |v| - i
  {
    hide GetChar, Matches, Quotable;
    MatchesFits(doc, p, v[i..] + "\"");
    MatchesAt(doc, p, v[i..] + "\"", 0);
    if i == |v| {
      assert v[i..] == "" && text + "" == text;
    } else {
      RawUnit(doc, p, v, i, enc);
      var n := if Wide(v, i, enc) then CharLength(v[i]) else 1;
      var unit := v[i..i + n];
      UnitFirst(v, i, n);
      MatchesSplit(doc, p, unit, v[i + n..] + "\"");
      RawRead(doc, p + n, v, i + n, text + unit, enc);
      Regroup(text, unit, v[i + n..]);
    }
  }

  lemma UnitFirst(v: string, i: nat, n: nat)
    requires i + n <= |v|
    ensures v[i..i + n] + (v[i + n..] + "\"") == v[i..] + "\"" && v[i..i + n] + v[i + n..] == v[i..]
  {
    assert v[i..] == v[i..i + n] + v[i + n..];
  }

  lemma RawUnit(doc: string, p: nat, v: string, i: nat, enc: Encoding)
    requires Quotable(v, enc) && i < |v| && Matches(doc, p, v[i..] + "\"")
    ensures var n := if Wide(v, i, enc) then CharLength(v[i]) else 1;
      && i + n <= |v| && p + n <= |doc| && doc[p] == v[i] && doc[p] != '\"'
      && GetChar(doc, p, enc) == Got(p + n, v[i..i + n])
  {
    hide CharLength;
    var n := if Wide(v, i, enc) then CharLength(v[i]) else 1;
    assert v[i] in v;
    assert Wide(v, i, enc) ==> Full(v, i);
    UnitFirst(v, i, n);
    MatchesSplit(doc, p, v[i..i + n], v[i + n..] + "\"");
    MatchesAt(doc, p, v[i..i + n], 0);
  }

  /** What is printed of a value: its name, and the value in quotes. */
  function Named(name: string, value: string): string {
    name + ("=\"" + (value + "\""))
  }

  lemma NameIsValid(name: string)
    requires IsName(name)
    ensures ValidName(name) && name[0] < 127 as char
  {
  }

  lemma NamedRead(doc: string, p: nat, name: string, value: string, enc: Encoding)
    requires IsName(name) && Quotable(value, enc) && Matches(doc, p, Named(name, value))
    ensures p + |Named(name, value)| <= |doc| && SkipWhite(doc, p, enc) == p && Matches(doc, p, name)
    ensures ReadAttribute(doc, p, enc) == AttributeRead(p + |Named(name, value)|, Attribute(name, value))
  {
    hide Matches, ReadName, ReadKept, SkipWhite, IsName, Quotable, ValidName;
    NameIsValid(name);
    var e := p + |name|;
    MatchesFits(doc, p, Named(name, value));
    MatchesSplit(doc, p, name, "=\"" + (value + "\""));
    MatchesSplit(doc, e, "=\"", value + "\"");
    MatchesAt(doc, e, "=\"", 0);
    MatchesAt(doc, e, "=\"", 1);
    NameRead(doc, p, name, enc);
    AttributeFrom(doc, p, e, enc);
    assert value[0..] == value && "" + value == value;
    RawRead(doc, e + 2, value, 0, "", enc);
  }

  lemma NamesDiffer(doc: string, p: nat, name: string)
    requires IsName(name) && Matches(doc, p, name)
    ensures MatchesFold(doc, p, name)
    ensures MatchesFold(doc, p, "version") ==> name == "version"
    ensures MatchesFold(doc, p, "encoding") ==> name == "encoding"
    ensures Declares(doc, p)
  {
    forall i | 0 <= i < |name| ensures Lower(doc[p + i]) == Lower(name[i]) {
      MatchesAt(doc, p, name, i);
    }
    assert Lower(doc[p + 0]) == Lower(name[0]);
    var v, e := "version", "encoding";
    assert MatchesFold(doc, p, v) ==> Lower(doc[p + 0]) == Lower(v[0]);
    assert MatchesFold(doc, p, e) ==> Lower(doc[p + 0]) == Lower(e[0]);
  }

  /** One turn of the loop, over one of the values. */
  lemma ValueTaken(doc: string, p: nat, name: string, value: string, d: Node, enc: Encoding)
    requires IsName(name) && Quotable(value, enc) && d.Declaration? && Matches(doc, p, " " + Named(name, value))
    ensures p + 1 + |Named(name, value)| <= |doc|
    ensures ReadDeclared(doc, p, d, enc) == ReadDeclared(doc, p + 1 + |Named(name, value)|, With(d, name, value), enc)
  {
    hide Matches, MatchesFold, ReadAttribute, SkipWhite, IsName, Quotable, Declares, Named;
    MatchesSplit(doc, p, " ", Named(name, value));
    MatchesAt(doc, p, " ", 0);
    NamedRead(doc, p + 1, name, value, enc);
    NamesDiffer(doc, p + 1, name);
    SkipOver(doc, p, " ", enc);
    NoNull(value, enc);
    CStrWhole(value);
  }

  lemma NoNull(value: string, enc: Encoding)
    requires Quotable(value, enc)
    ensures '\0' !in value
  {
  }

  // ----- The declaration --------------------------------------------------------------------

  /** Values that are printed stand behind a blank. Those that are empty are not printed. */
  function Shifted(name: string, value: string): string {
    if value == [] then "" else " " + Named(name, value)
  }

  lemma PrintedShifted(version: string, encoding: string, standalone: string)
    ensures PrintDeclaration(version, encoding, standalone) ==
      "<?xml" + (Shifted("version", version) + (Shifted("encoding", encoding) + (Shifted("standalone", standalone)
        + " ?>")))
  {
    hide Named;
    ShiftOne("version", version);
    ShiftOne("encoding", encoding);
    ShiftOne("standalone", standalone);
    Gather(Shifted("version", version), Shifted("encoding", encoding), Shifted("standalone", standalone),
           PrintDeclared("version", version), PrintDeclared("encoding", encoding),
           PrintDeclared("standalone", standalone));
  }

  lemma ShiftOne(name: string, value: string)
    ensures " " + PrintDeclared(name, value) == Shifted(name, value) + " "
  {
    if value != [] {
      assert name + "=\"" + value + "\" " == Named(name, value) + " ";
    }
  }

  lemma Gather(a: string, b: string, c: string, x: string, y: string, z: string)
    requires " " + x == a + " " && " " + y == b + " " && " " + z == c + " "
    ensures "<?xml " + x + y + z + "?>" == "<?xml" + (a + (b + (c + " ?>")))
  {
    assert "<?xml " + x + y + z + "?>" == "<?xml" + (" " + x) + y + z + "?>";
    assert "<?xml" + (a + " ") + y + z + "?>" == "<?xml" + a + (" " + y) + z + "?>";
    assert "<?xml" + a + (b + " ") + z + "?>" == "<?xml" + a + b + (" " + z) + "?>";
    assert "<?xml" + a + b + (c + " ") + "?>" == "<?xml" + (a + (b + (c + " ?>")));
  }

  lemma ShiftedTaken(doc: string, p: nat, name: string, value: string, d: Node, enc: Encoding, rest: string)
    requires IsName(name) && Quotable(value, enc) && d.Declaration? && With(d, name, "") == d
    requires Matches(doc, p, Shifted(name, value) + rest)
    ensures p + |Shifted(name, value)| <= |doc| && Matches(doc, p + |Shifted(name, value)|, rest)
    ensures ReadDeclared(doc, p, d, enc) ==
      ReadDeclared(doc, p + |Shifted(name, value)|, With(d, name, value), enc)
  {
    hide Matches, Named, Quotable, IsName, ReadDeclared;
    MatchesSplit(doc, p, Shifted(name, value), rest);
    MatchesFits(doc, p, Shifted(name, value));
    if value != [] {
      ValueTaken(doc, p, name, value, d, enc);
    }
  }

  /** The end of a declaration. */
  lemma MarkTaken(doc: string, p: nat, d: Node, enc: Encoding)
    requires d.Declaration? && Matches(doc, p, " ?>")
    ensures p <= |doc| && ReadDeclared(doc, p, d, enc) == Parsed(p + 3, d)
  {
    hide Matches, MatchesFold, ReadAttribute;
    var end := " ?>";
    MatchesFits(doc, p, end);
    MatchesAt(doc, p, end, 0);
    MatchesAt(doc, p, end, 1);
    MatchesAt(doc, p, end, 2);
    StopsAt(doc, p + 1, enc);
    SkipNone(doc, p + 1, enc);
    assert SkipWhite(doc, p, enc) == p + 1;
    QuestionMark(doc, p + 1);
    assert SkipWord(doc, p + 2) == p + 2 && SkipWord(doc, p + 1) == p + 2;
  }

  lemma QuestionMark(doc: string, p: nat)
    requires p < |doc| && doc[p] == '?'
    ensures !Declares(doc, p)
  {
    var v, e, s := "version", "encoding", "standalone";
    assert MatchesFold(doc, p, v) ==> Lower(doc[p + 0]) == Lower(v[0]);
    assert MatchesFold(doc, p, e) ==> Lower(doc[p + 0]) == Lower(e[0]);
    assert MatchesFold(doc, p, s) ==> Lower(doc[p + 0]) == Lower(s[0]);
  }

  lemma Opening(doc: string, q: nat, rest: string)
    requires Matches(doc, q, "<?xml" + rest)
    ensures q + 5 <= |doc| && doc[q] == '<' && StartsDeclaration(doc, q) && !StartsElement(doc, q)
    ensures Matches(doc, q + 5, rest) && !Matches(doc, q, "</")
  {
    var open, close := "<?xml", "</";
    MatchesSplit(doc, q, open, rest);
    forall i | 0 <= i < |open| ensures Lower(doc[q + i]) == Lower(open[i]) {
      MatchesAt(doc, q, open, i);
    }
    MatchesAt(doc, q, open, 0);
    MatchesAt(doc, q, open, 1);
    if Matches(doc, q, close) {
      MatchesAt(doc, q, close, 1);
      assert false;
    }
  }

  /** `TiXmlDeclaration::Parse` of a printed declaration. */
  lemma DeclarationParsed(doc: string, q: nat, n: Node, style: Style, depth: nat, enc: Encoding)
    requires n.Declaration? && CompleteTree(n, enc) && Matches(doc, q, Content(n, style, depth))
    ensures q < |doc| && doc[q] == '<' && !StartsElement(doc, q) && !Matches(doc, q, "</")
    ensures ReadMarkup(doc, q, enc) == Parsed(q + |Content(n, style, depth)|, n)
  {
    hide Matches, Shifted, Quotable, ReadDeclared, PrintDeclaration, StartsDeclaration, StartsElement;
    var v, e, s := Shifted("version", n.version), Shifted("encoding", n.encoding), Shifted("standalone", n.standalone);
    PrintedShifted(n.version, n.encoding, n.standalone);
    Opening(doc, q, v + (e + (s + " ?>")));
    var d := Declaration("", "", "");
    ShiftedTaken(doc, q + 5, "version", n.version, d, enc, e + (s + " ?>"));
    d := d.(version := n.version);
    ShiftedTaken(doc, q + 5 + |v|, "encoding", n.encoding, d, enc, s + " ?>");
    d := d.(encoding := n.encoding);
    ShiftedTaken(doc, q + 5 + |v| + |e|, "standalone", n.standalone, d, enc, " ?>");
    MarkTaken(doc, q + 5 + |v| + |e| + |s|, n, enc);
  }
}
