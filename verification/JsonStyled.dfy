/** The styled layout is a layout of the same tokens, so it reads back as the fast one does. */
module JsonStyled {
  import opened Common
  import opened JsonValue
  import opened JsonText
  import opened JsonDecode
  import opened JsonRead
  import opened JsonRoundTrip

  /** The text is that of the tokens, spaced somehow. */
  ghost predicate LaidOut(text: string, ps: seq<Piece>, toks: seq<string>) {
    text == Flat(ps) && Spaced(ps) && Tokens(ps) == toks
  }

  lemma Join(s: string, a: seq<Piece>, x: seq<string>, t: string, b: seq<Piece>, y: seq<string>)
      returns (c: seq<Piece>)
    requires LaidOut(s, a, x) && LaidOut(t, b, y)
    ensures LaidOut(s + t, c, x + y)
  {
    c := a + b;
    FlatSplit(a, b);
  }

  lemma One(space: string, tok: string) returns (c: seq<Piece>)
    requires Blank(space)
    ensures LaidOut(space + tok, c, [tok])
  {
    c := [Piece(space, tok)];
  }

  /** White space before a text of at least one token. */
  lemma Lead(space: string, s: string, a: seq<Piece>, x: seq<string>) returns (c: seq<Piece>)
    requires Blank(space) && LaidOut(s, a, x) && x != []
    ensures LaidOut(space + s, c, x)
  {
    assert |Tokens(a)| == |a|;
    c := [Piece(space + a[0].space, a[0].tok)] + a[1..];
    assert Tokens(a)[0] == a[0].tok;
    assert c[1..] == a[1..];
  }

  lemma IndentedBy(doc: string, indent: string) returns (w: string)
    requires Blank(indent)
    ensures Blank(w) && Indented(doc, indent) == doc + w
  {
    if doc != [] && doc[|doc| - 1] == ' ' {
      w := "";
    } else if doc != [] && doc[|doc| - 1] != '\n' {
      w := "\n" + indent;
    } else {
      w := indent;
    }
  }

  lemma ToksNonempty(v: Value)
    ensures Toks(v) != []
  {
  }

  lemma {:induction false} InLineLaidOut(items: seq<Value>) returns (ps: seq<Piece>)
    requires items != []
    ensures LaidOut(" " + InLine(items), ps, ItemToks(items, true))
    decreases |items|
  {
    hide Toks, LaidOut, ItemToks;
    var x := Toks(items[0]);
    ToksNonempty(items[0]);
    FastLaidOut(items[0]);
    var a := Lead(" ", Fast(items[0]), Tight(x), x);
    ItemToksUnfold(items, true);
    if |items| == 1 {
      ItemToksNone(items[1..], false);
      assert x + [] == x;
      assert " " + InLine(items) == " " + Fast(items[0]);
      ps := a;
    } else {
      var b := InLineLaidOut(items[1..]);
      var c := One("", ",");
      var d := Join(" " + Fast(items[0]), a, x, "" + ",", c, [","]);
      ps := Join(" " + Fast(items[0]) + ("" + ","), d, x + [","], " " + InLine(items[1..]), b,
                 ItemToks(items[1..], true));
      assert " " + InLine(items) == " " + Fast(items[0]) + ("" + ",") + (" " + InLine(items[1..]));
      ItemToksTail(items[1..]);
      assert x + [","] + ItemToks(items[1..], true) == x + ItemToks(items[1..], false);
    }
  }

  lemma FastLaidOut(v: Value)
    ensures LaidOut(Fast(v), Tight(Toks(v)), Toks(v))
  {
    FlatTight(Toks(v));
  }

  /** A value written in the styled layout appends to the text one layout of its tokens. */
  lemma {:induction false} StyledLaidOut(doc: string, indent: string, v: Value)
      returns (t: string, ps: seq<Piece>)
    requires Blank(indent)
    ensures Styled(doc, indent, v) == doc + t && LaidOut(t, ps, Toks(v))
    decreases Height(v), 0, 0
  {
    hide LaidOut, Toks, ItemToks, MemberToks, MultiLine, Indented, InLine, Fast, StyledItems, StyledMembers, Items;
    FastLaidOut(v);
    t, ps := Fast(v), Tight(Toks(v));
    AtomicText(v);
    match v
    case Arr(es) =>
      if es != [] {
        ItemsAreLower(es);
        t, ps := ArrayLaidOut(doc, indent, es);
        ContainerToks(v);
      }
    case Obj(ms) =>
      if ms != [] {
        var w := IndentedBy(doc, indent);
        var open := One(w, "{");
        var it, ip := StyledMembersLaidOut(doc + w + "{", indent + INDENT, ms);
        var w' := IndentedBy(doc + w + "{" + it, indent);
        t, ps := Enclosed(w, "{", open, it, ip, MemberToks(ms, true), w', "}");
        ContainerToks(v);
      }
    case _ =>
  }

  lemma AtomicText(v: Value)
    ensures v == Arr([]) ==> Fast(v) == "[]"
    ensures v == Obj([]) ==> Fast(v) == "{}"
  {
  }

  lemma Enclosed(w: string, open: string, op: seq<Piece>, inner: string, ip: seq<Piece>, x: seq<string>,
                 w': string, close: string)
      returns (t: string, ps: seq<Piece>)
    requires LaidOut(w + open, op, [open]) && LaidOut(inner, ip, x) && Blank(w')
    ensures t == w + open + inner + (w' + close) && LaidOut(t, ps, [open] + x + [close])
  {
    hide LaidOut;
    var cl := One(w', close);
    var a := Join(w + open, op, [open], inner, ip, x);
    ps := Join(w + open + inner, a, [open] + x, w' + close, cl, [close]);
    t := w + open + inner + (w' + close);
  }

  lemma {:induction false} ArrayLaidOut(doc: string, indent: string, es: seq<Entry>)
      returns (t: string, ps: seq<Piece>)
    requires Blank(indent) && es != []
    ensures Styled(doc, indent, Arr(es)) == doc + t
    ensures LaidOut(t, ps, ["["] + ItemToks(Items(es), true) + ["]"])
    decreases ItemsHeight(Items(es)), 2, 0
  {
    hide LaidOut, Toks, ItemToks, MultiLine, Indented, InLine, StyledItems, Items, ItemsHeight;
    var items := Items(es);
    if MultiLine(items) {
      var w := IndentedBy(doc, indent);
      var open := One(w, "[");
      var it, ip := StyledItemsLaidOut(doc + w + "[", indent + INDENT, items);
      var w' := IndentedBy(doc + w + "[" + it, indent);
      t, ps := Enclosed(w, "[", open, it, ip, ItemToks(items, true), w', "]");
    } else {
      var open := One("", "[");
      var ip := InLineLaidOut(items);
      t, ps := Enclosed("", "[", open, " " + InLine(items), ip, ItemToks(items, true), " ", "]");
      assert doc + "[ " + InLine(items) + " ]" == doc + ("" + "[" + (" " + InLine(items)) + (" " + "]"));
    }
  }

  lemma {:induction false} StyledItemsLaidOut(doc: string, indent: string, items: seq<Value>)
      returns (t: string, ps: seq<Piece>)
    requires Blank(indent) && items != []
    ensures StyledItems(doc, indent, items) == doc + t && LaidOut(t, ps, ItemToks(items, true))
    decreases ItemsHeight(items), 1, |items|
  {
    hide LaidOut, Toks, ItemToks, Styled, Indented, Height, ItemsHeight;
    ItemsHeights(items);
    var x := Toks(items[0]);
    var w := IndentedBy(doc, indent);
    var vt, vp := StyledLaidOut(doc + w, indent, items[0]);
    ToksNonempty(items[0]);
    var a := Lead(w, vt, vp, x);
    ItemToksUnfold(items, true);
    if |items| == 1 {
      ItemToksNone(items[1..], false);
      assert x + [] == x;
      t, ps := w + vt, a;
    } else {
      var c := One("", ",");
      var d := Join(w + vt, a, x, "" + ",", c, [","]);
      var rt, rp := StyledItemsLaidOut(doc + (w + vt + ("" + ",")), indent, items[1..]);
      ps := Join(w + vt + ("" + ","), d, x + [","], rt, rp, ItemToks(items[1..], true));
      t := w + vt + ("" + ",") + rt;
      assert doc + w + vt + "," == doc + (w + vt + ("" + ","));
      ItemToksTail(items[1..]);
      assert x + [","] + ItemToks(items[1..], true) == x + ItemToks(items[1..], false);
    }
  }

  lemma {:induction false} StyledMembersLaidOut(doc: string, indent: string, ms: seq<Member>)
      returns (t: string, ps: seq<Piece>)
    requires Blank(indent) && ms != []
    ensures StyledMembers(doc, indent, ms) == doc + t && LaidOut(t, ps, MemberToks(ms, true))
    decreases MembersHeight(ms), 2, |ms|
  {
    hide LaidOut, Toks, MemberToks, Styled, Indented, Quoted, Height, MembersHeight;
    MembersHeights(ms);
    var kt, mt, mp := MemberLaidOut(doc, indent, ms[0]);
    var x := KeyToks(ms[0]) + Toks(ms[0].value);
    MemberToksUnfold(ms, true);
    if |ms| == 1 {
      MemberToksNone(ms[1..], false);
      assert x + [] == x;
      t, ps := mt, mp;
    } else {
      var c := One("", ",");
      var d := Join(mt, mp, x, "" + ",", c, [","]);
      var rt, rp := StyledMembersLaidOut(doc + (mt + ("" + ",")), indent, ms[1..]);
      ps := Join(mt + ("" + ","), d, x + [","], rt, rp, MemberToks(ms[1..], true));
      t := mt + ("" + ",") + rt;
      assert doc + mt + "," == doc + (mt + ("" + ","));
      MemberToksTail(ms[1..]);
      assert x + [","] + MemberToks(ms[1..], true) == x + MemberToks(ms[1..], false);
    }
  }

  lemma {:induction false} MemberLaidOut(doc: string, indent: string, m: Member)
      returns (kt: string, t: string, ps: seq<Piece>)
    requires Blank(indent)
    ensures Styled(Indented(doc, indent) + Quoted(m.key) + " : ", indent, m.value) == doc + t
    ensures LaidOut(t, ps, KeyToks(m) + Toks(m.value))
    decreases Height(m.value), 1, 0
  {
    hide LaidOut, Toks, Styled, Indented, Quoted;
    var w := IndentedBy(doc, indent);
    var k := One(w, Quoted(m.key));
    var c := One(" ", ":");
    var kc := Join(w + Quoted(m.key), k, [Quoted(m.key)], " " + ":", c, [":"]);
    kt := w + Quoted(m.key) + (" " + ":");
    var vt, vp := StyledLaidOut(doc + (kt + " "), indent, m.value);
    ToksNonempty(m.value);
    var lp := Lead(" ", vt, vp, Toks(m.value));
    ps := Join(kt, kc, [Quoted(m.key)] + [":"], " " + vt, lp, Toks(m.value));
    t := kt + (" " + vt);
    assert doc + w + Quoted(m.key) + " : " == doc + (kt + " ");
    assert doc + (kt + " ") + vt == doc + t;
    assert [Quoted(m.key)] + [":"] == KeyToks(m);
  }

  /** `Reader::parse` of what `StyledWriter::write` writes: the same tree as from `FastWriter`. */
  lemma StyledRoundTrip(v: Value, scan: Scanf)
    requires Storable(v) && NoReals(v) && ScansIntegers(scan)
    ensures Parse(Styled("", "", v) + "\n", scan) == Some(Again(v)) == Parse(Fast(v) + "\n", scan)
  {
    var t, ps := StyledLaidOut("", "", v);
    assert "" + t == t;
    ParseLaidOut(ps, v, "\n", scan);
    FastRoundTrip(v, scan);
  }

  // ----- Which values come back unchanged ---------------------------------------------------

  lemma {:induction false} ItemsAgainAt(items: seq<Value>, i: nat)
    requires i < |items|
    ensures |ItemsAgain(items)| == |items| && ItemsAgain(items)[i] == Again(items[i])
    decreases |items|
  {
    if |items| > 1 {
      ItemsAgainAt(items[1..], if i > 0 then i - 1 else 0);
    }
  }

  lemma {:induction false} MembersAgainAt(ms: seq<Member>, i: nat)
    requires i < |ms|
    ensures |MembersAgain(ms)| == |ms| && MembersAgain(ms)[i] == Member(ms[i].key, Again(ms[i].value))
    decreases |ms|
  {
    if |ms| > 1 {
      MembersAgainAt(ms[1..], if i > 0 then i - 1 else 0);
    }
  }

  /** An array comes back as it was if and only if it is dense and all its values do. */
  lemma ArrayAgain(es: seq<Entry>)
    requires Increasing(es)
    ensures Again(Arr(es)) == Arr(es) <==>
      Dense(es) && forall i | 0 <= i < |es| :: Again(es[i].value) == es[i].value
  {
    hide Again;
    var items, again := Items(es), ItemsAgain(Items(es));
    ContainerAgain(Arr(es));
    ItemsAgainLength(items);
    if Dense(es) {
      forall i | 0 <= i < |es| ensures items[i] == es[i].value && again[i] == Again(es[i].value) {
        LookupEntry(es, i);
        ItemsAgainAt(items, i);
      }
      assert |es| == |items|;
    }
    if Listed(again) == es {
      assert forall i | 0 <= i < |es| :: Listed(again)[i] == Entry(i, again[i]);
    }
  }

  lemma {:induction false} ItemsAgainLength(items: seq<Value>)
    ensures |ItemsAgain(items)| == |items|
  {
    if items != [] {
      ItemsAgainAt(items, 0);
    }
  }

  lemma {:induction false} AgainIsSame(v: Value)
    requires Storable(v)
    ensures Again(v) == v <==> Faithful(v)
    decreases v
  {
    match v
    case Arr(es) =>
      forall i | 0 <= i < |es| ensures Again(es[i].value) == es[i].value <==> Faithful(es[i].value) {
        AgainIsSame(es[i].value);
      }
      ArrayAgain(es);
    case Obj(ms) =>
      forall i | 0 <= i < |ms|
        ensures |MembersAgain(ms)| == |ms| && (MembersAgain(ms)[i] == ms[i] <==> Faithful(ms[i].value))
      {
        MembersAgainAt(ms, i);
        AgainIsSame(ms[i].value);
      }
    case _ =>
  }

  const RESIZED := Arr([Entry(1, Null)])

  lemma ResizedText()
    ensures Items(RESIZED.entries) == [Null, Null] && Fast(RESIZED) == "[null,null]"
  {
    assert Items(RESIZED.entries) == [Null, Null];
    assert ItemToks([Null], false) == [","] + ["null"] + [];
    assert ItemToks([Null, Null], true) == [] + ["null"] + ItemToks([Null], false);
    assert Toks(RESIZED) == ["["] + (["null"] + ([","] + (["null"] + ["]"])));
    MoreText("null", ["]"]);
    MoreText(",", ["null"] + ["]"]);
    MoreText("null", [","] + (["null"] + ["]"]));
    MoreText("[", ["null"] + ([","] + (["null"] + ["]"])));
    MoreText("]", []);
  }

  lemma MoreText(t: string, ts: seq<string>)
    ensures Concat([t] + ts) == t + Concat(ts)
    ensures Concat([t]) == t
  {
    assert ([t] + ts)[1..] == ts;
  }

  /** What `resize(2)` makes of a null: an array with one entry, at index 1. It is written as an array of
      two nulls, which is not equal to it. */
  lemma ResizedArray(scan: Scanf)
    requires ScansIntegers(scan)
    ensures var again := Arr([Entry(0, Null), Entry(1, Null)]);
      && Storable(RESIZED) && Fast(RESIZED) == "[null,null]" && !Equal(RESIZED, again)
      && Parse(Fast(RESIZED) + "\n", scan) == Some(again)
  {
    hide Fast, Items;
    ResizedText();
    ContainerAgain(RESIZED);
    assert ItemsAgain([Null, Null]) == [Null] + ItemsAgain([Null]) == [Null, Null];
    assert Listed([Null, Null]) == [Entry(0, Null), Entry(1, Null)];
    FastRoundTrip(RESIZED, scan);
  }

  /** Writing, fast or styled, and reading gives the same tree back exactly when it is faithful. */
  lemma RoundTripExact(v: Value, scan: Scanf)
    requires Storable(v) && NoReals(v) && ScansIntegers(scan)
    ensures Parse(Fast(v) + "\n", scan) == Some(v) <==> Faithful(v)
    ensures Parse(Styled("", "", v) + "\n", scan) == Some(v) <==> Faithful(v)
  {
    StyledRoundTrip(v, scan);
    AgainIsSame(v);
  }

  /** Whatever is read, if it has no reals, is written and read again as it is: a first reading settles
      a document. */
  lemma ReadingSettles(doc: string, scan: Scanf)
    requires Parse(doc, scan).Some? && NoReals(Parse(doc, scan).value) && ScansIntegers(scan)
    ensures var v := Parse(doc, scan).value;
      Parse(Fast(v) + "\n", scan) == Parse(Styled("", "", v) + "\n", scan) == Some(v)
  {
    ReadStorable(doc, 0, scan);
    RoundTripExact(Parse(doc, scan).value, scan);
  }
}
