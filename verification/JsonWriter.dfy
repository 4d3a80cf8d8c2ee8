/** The JSON writers as they run: text appended to `document_`, digits written backwards into a buffer,
    and the buffer of child texts that `StyledWriter` shares through its recursion (json_writer.cpp). */
module JsonWriter {
  import opened JsonValue
  import opened JsonText

  // ----- Numbers and strings ----------------------------------------------------------------

  function Pow10(k: nat): nat {
    if k == 0 then 1 else 10 * Pow10(k - 1)
  }

  lemma {:induction false} DecimalLength(n: nat, k: nat)
    requires k > 0 && n < Pow10(k)
    ensures |Decimal(n)| <= k
  {
    if n >= 10 {
      DecimalLength(n / 10, k - 1);
    }
  }

  lemma UIntLength(n: nat)
    requires n <= MAX_UINT
    ensures |Decimal(n)| <= 10
  {
    assert Pow10(5) == 100000;
    assert Pow10(10) == 10 * Pow10(9) && Pow10(9) == 10 * Pow10(8) && Pow10(8) == 10 * Pow10(7);
    assert Pow10(7) == 10 * Pow10(6) && Pow10(6) == 10 * Pow10(5);
    DecimalLength(n, 10);
  }

  lemma DecimalStep(n: nat)
    ensures Decimal(n) == if n / 10 == 0 then [Digit(n % 10)] else Decimal(n / 10) + [Digit(n % 10)]
  {
  }

  /** `uintToString`: a NUL and then the digits, last to first, before `end`; the text begins at the
      result. */
  method UIntToString(number: nat, buffer: array<char>, end: nat) returns (current: nat)
    requires number <= MAX_UINT && 11 <= end <= buffer.Length
    modifies buffer
    ensures end - 11 <= current < end && buffer[current..end] == Decimal(number) + ['\0']
    ensures forall i | end <= i < buffer.Length :: buffer[i] == old(buffer[i])
  {
    hide Decimal, Digit;
    UIntLength(number);
    current := end - 1;
    buffer[current] := '\0';
    var value: nat := number;
    while true
      invariant end - 11 <= current < end && value <= number
      invariant Decimal(value) + buffer[current..end] == Decimal(number) + ['\0']
      invariant forall i | end <= i < buffer.Length :: buffer[i] == old(buffer[i])
      decreases value
    {
      ghost var tail := buffer[current..end];
      assert |Decimal(value)| + |tail| == |Decimal(number)| + 1;
      DecimalStep(value);
      current := current - 1;
      buffer[current] := Digit(value % 10);
      assert buffer[current..end] == [Digit(value % 10)] + tail;
      if value / 10 == 0 {
        break;
      }
      Associate(Decimal(value / 10), [Digit(value % 10)], tail);
      value := value / 10;
    }
  }

  /** `valueToString` of an `Int`, whose magnitude is taken as an `unsigned int`. */
  method IntToString(i: int) returns (text: string)
    requires MIN_INT <= i <= MAX_INT
    ensures text == IntText(i)
  {
    var buffer := new char[32];
    var current := UIntToString(if i < 0 then -i else i, buffer, 32);
    ghost var digits := buffer[current..32];
    if i < 0 {
      current := current - 1;
      buffer[current] := '-';
      assert buffer[current + 1..32] == digits;
      assert buffer[current..31] == ['-'] + buffer[current + 1..32][..31 - current - 1];
    } else {
      assert buffer[current..31] == digits[..31 - current];
    }
    text := buffer[current..31];
  }

  method UIntToText(u: int) returns (text: string)
    requires 0 <= u <= MAX_UINT
    ensures text == IntText(u)
  {
    var buffer := new char[32];
    var current := UIntToString(u, buffer, 32);
    text := buffer[current..31];
    assert text == buffer[current..32][..31 - current];
  }

  method ContainsControlCharacter(s: string) returns (found: bool)
    ensures found <==> exists i | 0 <= i < |s| :: IsControl(s[i])
  {
    for i := 0 to |s|
      invariant forall k | 0 <= k < i :: !IsControl(s[k])
    {
      if IsControl(s[i]) {
        return true;
      }
    }
    found := false;
  }

  /** `strpbrk(s, "\"\\\b\f\n\r\t")`. */
  predicate NeedsEscape(s: string) {
    exists i | 0 <= i < |s| :: s[i] in ['"', '\\', BACKSPACE, FORMFEED, '\n', '\r', '\t']
  }

  /** `valueToQuotedString`, of a C string. */
  method QuotedString(s: string) returns (result: string)
    requires '\0' !in s
    ensures result == Quoted(s)
  {
    var control := ContainsControlCharacter(s);
    if !NeedsEscape(s) && !control {
      PlainEscape(s);
      return "\"" + s + "\"";
    }
    hide EscapeAll, Escape, NeedsEscape;
    result := "\"";
    var i := 0;
    assert s[0..] == s;
    while i < |s|
      invariant 0 <= i <= |s|
      invariant result + EscapeAll(s[i..]) == "\"" + EscapeAll(s)
    {
      EscapeStep(s, i);
      Associate(result, Escape(s[i]), EscapeAll(s[i + 1..]));
      var piece := EscapedPiece(s[i]);
      result := result + piece;
      i := i + 1;
    }
    assert EscapeAll(s[i..]) == [] by { EscapeNone(s[i..]); }
    result := result + "\"";
  }

  lemma EscapeStep(s: string, i: nat)
    requires i < |s|
    ensures EscapeAll(s[i..]) == Escape(s[i]) + EscapeAll(s[i + 1..])
  {
    assert s[i..][1..] == s[i + 1..];
  }

  lemma EscapeNone(s: string)
    requires s == []
    ensures EscapeAll(s) == []
  {
  }

  /** One turn of the loop of `valueToQuotedString`. */
  method EscapedPiece(c: char) returns (piece: string)
    requires c != '\0'
    ensures piece == Escape(c)
  {
    if c == '"' {
      piece := "\\\"";
    } else if c == '\\' {
      piece := "\\\\";
    } else if c == BACKSPACE {
      piece := "\\b";
    } else if c == FORMFEED {
      piece := "\\f";
    } else if c == '\n' {
      piece := "\\n";
    } else if c == '\r' {
      piece := "\\r";
    } else if c == '\t' {
      piece := "\\t";
    } else if IsControl(c) {
      piece := HexEscape(c);
    } else {
      piece := [c];
    }
  }

  /** "\\u" and four upper-case hexadecimal digits. */
  function HexEscape(c: char): (t: string)
    requires c as int < 0x100
    ensures IsControl(c) && c !in [BACKSPACE, FORMFEED, '\n', '\r', '\t'] ==> t == Escape(c)
  {
    var d := "0123456789ABCDEF";
    "\\u00" + [d[c as int / 16]] + [d[c as int % 16]]
  }

  lemma OneToken(t: string)
    ensures Concat([t]) == t
  {
  }

  // ----- FastWriter -------------------------------------------------------------------------

  class FastWriter {
    var document: string

    constructor ()
      ensures document == ""
    {
      document := "";
    }

    method Write(root: Value) returns (text: string)
      requires Storable(root)
      modifies this
      ensures text == document == Fast(root) + "\n"
    {
      document := "";
      WriteValue(root);
      document := document + "\n";
      text := document;
    }

    method WriteValue(v: Value)
      requires Storable(v)
      modifies this
      ensures document == old(document) + Fast(v)
      decreases Height(v), 1
    {
      match v {
        case Null => document := document + "null";
        case Int(i) =>
          var t := IntToString(i);
          document := document + t;
        case UInt(u) =>
          var t := UIntToText(u);
          document := document + t;
        case Real(t) => document := document + t;
        case Str(s) =>
          var t := QuotedString(s);
          document := document + t;
        case Bool(b) => document := document + (if b then "true" else "false");
        case Arr(es) => WriteItems(es);
        case Obj(ms) => WriteMembers(ms);
      }
      if !v.Arr? && !v.Obj? {
        OneToken(Toks(v)[0]);
      }
    }

    method WriteItems(es: seq<Entry>)
      requires Storable(Arr(es))
      modifies this
      ensures document == old(document) + Fast(Arr(es))
      decreases Height(Arr(es)), 0
    {
      hide Fast, ItemToks, Storable, Concat, Height;
      ghost var items := Items(es);
      ArrayText(es);
      Associate(document, "[" + Concat(ItemToks(items, true)), "]");
      Associate(document, "[", Concat(ItemToks(items, true)));
      document := document + "[";
      var size := Span(es);
      var index := 0;
      assert items[0..] == items;
      while index < size
        invariant 0 <= index <= size
        invariant document + Concat(ItemToks(items[index..], index == 0))
          == old(document) + "[" + Concat(ItemToks(items, true))
      {
        ItemsText(items, index, document);
        if index > 0 {
          document := document + ",";
        }
        PartStorable(es, index);
        WriteValue(Lookup(es, index));
        index := index + 1;
      }
      NoItemsText(items[index..]);
      document := document + "]";
    }

    method WriteMembers(ms: seq<Member>)
      requires Storable(Obj(ms))
      modifies this
      ensures document == old(document) + Fast(Obj(ms))
      decreases Height(Obj(ms)), 0
    {
      hide Fast, MemberToks, Storable, Concat, Quoted, Height;
      ObjectText(ms);
      Associate(document, "{" + Concat(MemberToks(ms, true)), "}");
      Associate(document, "{", Concat(MemberToks(ms, true)));
      document := document + "{";
      var index := 0;
      assert ms[0..] == ms;
      while index < |ms|
        invariant 0 <= index <= |ms|
        invariant document + Concat(MemberToks(ms[index..], index == 0))
          == old(document) + "{" + Concat(MemberToks(ms, true))
      {
        MembersText(ms, index, document);
        PartOfObjectStorable(ms, index);
        if index > 0 {
          document := document + ",";
        }
        var name := QuotedString(ms[index].key);
        document := document + name;
        document := document + ":";
        WriteValue(ms[index].value);
        index := index + 1;
      }
      NoMembersText(ms[index..]);
      document := document + "}";
    }
  }

  lemma PartStorable(es: seq<Entry>, i: nat)
    requires Storable(Arr(es)) && es != []
    ensures Storable(Lookup(es, i)) && Height(Lookup(es, i)) < Height(Arr(es))
  {
    LookupIs(es, i);
    if k :| 0 <= k < |es| && Lookup(es, i) == es[k].value {
      EntryHeight(es, k);
    } else {
      EntryHeight(es, 0);
    }
  }

  lemma PartOfObjectStorable(ms: seq<Member>, i: nat)
    requires Storable(Obj(ms)) && i < |ms|
    ensures '\0' !in ms[i].key && Storable(ms[i].value) && Height(ms[i].value) < Height(Obj(ms))
  {
    MemberHeight(ms, i);
  }

  lemma {:induction false} MemberHeight(ms: seq<Member>, i: nat)
    requires i < |ms|
    ensures Height(ms[i].value) <= MembersHeight(ms)
  {
    if i > 0 {
      MemberHeight(ms[1..], i - 1);
    }
  }

  /** What the next item adds to a document. */
  lemma ItemsText(items: seq<Value>, i: nat, doc: string)
    requires i < |items|
    ensures doc + Concat(ItemToks(items[i..], i == 0)) ==
      (if i == 0 then doc else doc + ",") + Fast(items[i]) + Concat(ItemToks(items[i + 1..], false))
  {
    hide Toks;
    var rest, first := items[i..], i == 0;
    var t := Toks(items[i]);
    assert rest[1..] == items[i + 1..];
    var tail := ItemToks(rest[1..], false);
    if first {
      assert ItemToks(rest, first) == t + tail;
      ConcatSplit(t, tail);
    } else {
      assert ItemToks(rest, first) == [","] + t + tail;
      ConcatSplit([","] + t, tail);
      ConcatSplit([","], t);
      OneToken(",");
      Associate(doc, "," + Concat(t), Concat(tail));
      Associate(doc, ",", Concat(t));
    }
  }

  lemma MembersText(ms: seq<Member>, i: nat, doc: string)
    requires i < |ms|
    ensures doc + Concat(MemberToks(ms[i..], i == 0)) ==
      (if i == 0 then doc else doc + ",") + Quoted(ms[i].key) + ":" + Fast(ms[i].value)
        + Concat(MemberToks(ms[i + 1..], false))
  {
    hide Toks, Quoted;
    var rest, first := ms[i..], i == 0;
    var k, t := [Quoted(ms[i].key), ":"], Toks(ms[i].value);
    assert rest[1..] == ms[i + 1..];
    var tail := MemberToks(rest[1..], false);
    KeyText(ms[i].key);
    var d := if first then doc else doc + ",";
    Associate(d, Quoted(ms[i].key), ":");
    if first {
      assert MemberToks(rest, first) == k + t + tail by { assert [] + k == k; }
      ConcatSplit(k + t, tail);
      ConcatSplit(k, t);
      Associate(doc, Concat(k) + Concat(t), Concat(tail));
      Associate(doc, Concat(k), Concat(t));
    } else {
      assert MemberToks(rest, first) == [","] + k + t + tail;
      ConcatSplit([","] + k + t, tail);
      ConcatSplit([","] + k, t);
      ConcatSplit([","], k);
      OneToken(",");
      Associate(doc, "," + Concat(k) + Concat(t), Concat(tail));
      Associate(doc, "," + Concat(k), Concat(t));
      Associate(doc, ",", Concat(k));
    }
  }

  lemma KeyText(key: string)
    ensures Concat([Quoted(key), ":"]) == Quoted(key) + ":"
  {
    hide Quoted;
    assert [Quoted(key), ":"][1..] == [":"];
    OneToken(":");
  }

  lemma NoItemsText(items: seq<Value>)
    requires items == []
    ensures Concat(ItemToks(items, true)) == Concat(ItemToks(items, false)) == []
  {
  }

  lemma NoMembersText(ms: seq<Member>)
    requires ms == []
    ensures Concat(MemberToks(ms, true)) == Concat(MemberToks(ms, false)) == []
  {
  }

  lemma ArrayText(es: seq<Entry>)
    ensures Fast(Arr(es)) == "[" + Concat(ItemToks(Items(es), true)) + "]"
  {
    hide ItemToks, Items;
    var items := Items(es);
    ConcatSplit(["["] + ItemToks(items, true), ["]"]);
    ConcatSplit(["["], ItemToks(items, true));
    OneToken("[");
    OneToken("]");
  }

  lemma ObjectText(ms: seq<Member>)
    ensures Fast(Obj(ms)) == "{" + Concat(MemberToks(ms, true)) + "}"
  {
    hide MemberToks;
    ConcatSplit(["{"] + MemberToks(ms, true), ["}"]);
    ConcatSplit(["{"], MemberToks(ms, true));
    OneToken("{");
    OneToken("}");
  }

  // ----- StyledWriter -----------------------------------------------------------------------

  /** The texts of a list of values, in order. */
  function Texts(items: seq<Value>): seq<string> {
    seq(|items|, i requires 0 <= i < |items| => Fast(items[i]))
  }

  class StyledWriter {
    var document: string
    var childValues: seq<string>
    var addChildValues: bool
    var indentString: string

    constructor ()
      ensures document == "" && !addChildValues && indentString == ""
    {
      document, childValues, addChildValues, indentString := "", [], false, "";
    }

    method Write(root: Value) returns (text: string)
      requires Storable(root)
      modifies this
      ensures text == document == Styled("", "", root) + "\n"
    {
      document := "";
      addChildValues := false;
      indentString := "";
      WriteValue(root);
      document := document + "\n";
      text := document;
    }

    /** `pushValue`. */
    method PushValue(text: string)
      modifies `document, `childValues
      ensures document == if addChildValues then old(document) else old(document) + text
      ensures childValues == if addChildValues then old(childValues) + [text] else old(childValues)
    {
      if addChildValues {
        childValues := childValues + [text];
      } else {
        document := document + text;
      }
    }

    method WriteIndent()
      modifies `document
      ensures document == Indented(old(document), indentString)
    {
      if document != [] {
        var last := document[|document| - 1];
        if last == ' ' {
          return;
        }
        if last != '\n' {
          document := document + "\n";
        }
      }
      document := document + indentString;
    }

    method WriteWithIndent(text: string)
      modifies `document
      ensures document == Indented(old(document), indentString) + text
    {
      WriteIndent();
      document := document + text;
    }

    method Indent()
      modifies `indentString
      ensures indentString == old(indentString) + INDENT
    {
      indentString := indentString + INDENT;
    }

    method Unindent(ghost before: string)
      requires indentString == before + INDENT
      modifies `indentString
      ensures indentString == before
    {
      indentString := indentString[..|indentString| - |INDENT|];
    }

    /** `writeValue` has two uses. Writing, it appends the value to the document in the styled layout,
        whatever it does to the buffer of child texts on the way. Collecting, of a value that is one
        piece of text, it appends that text to the buffer and nothing to the document. */
    method WriteValue(v: Value)
      requires Storable(v) && (addChildValues ==> Atomic(v))
      modifies this
      ensures addChildValues == old(addChildValues) && indentString == old(indentString)
      ensures !addChildValues ==> document == Styled(old(document), indentString, v)
      ensures addChildValues ==> document == old(document) && childValues == old(childValues) + [Fast(v)]
      decreases Height(v), 3
    {
      hide Fast, StyledItems, StyledMembers, MultiLine, Storable, InLine, Height, Items;
      AtomicText(v);
      match v {
        case Null => PushValue("null");
        case Int(i) =>
          assert MIN_INT <= i <= MAX_INT by { NumberStorable(v); }
          var t := IntToString(i);
          PushValue(t);
        case UInt(u) =>
          assert 0 <= u <= MAX_UINT by { NumberStorable(v); }
          var t := UIntToText(u);
          PushValue(t);
        case Real(t) => PushValue(t);
        case Str(s) =>
          NumberStorable(v);
          var t := QuotedString(s);
          PushValue(t);
        case Bool(b) => PushValue(if b then "true" else "false");
        case Arr(es) => WriteArrayValue(es);
        case Obj(ms) =>
          if ms == [] {
            PushValue("{}");
          } else {
            WriteMembers(ms);
          }
      }
    }

    method WriteArrayValue(es: seq<Entry>)
      requires Storable(Arr(es)) && (addChildValues ==> es == [])
      modifies this
      ensures addChildValues == old(addChildValues) && indentString == old(indentString)
      ensures !addChildValues ==> document == Styled(old(document), indentString, Arr(es))
      ensures addChildValues ==> document == old(document) && childValues == old(childValues) + [Fast(Arr(es))]
      decreases Height(Arr(es)), 2
    {
      hide Fast, StyledItems, MultiLine, Storable, InLine, Items, Height;
      AtomicText(Arr(es));
      if Span(es) == 0 {
        PushValue("[]");
        return;
      }
      var isArrayMultiLine := IsMultilineArray(es);
      if isArrayMultiLine {
        WriteManyLines(es);
      } else {
        WriteOneLine(es);
      }
    }

    /** The buffer holds the texts of all items, or is empty; when it is not empty, every item is one
        piece of text. */
    ghost predicate Collected(items: seq<Value>)
      reads this
    {
      childValues == [] || (childValues == Texts(items) && forall i | 0 <= i < |items| :: Atomic(items[i]))
    }

    method WriteManyLines(es: seq<Entry>)
      requires Storable(Arr(es)) && es != [] && !addChildValues && MultiLine(Items(es)) && Collected(Items(es))
      modifies this
      ensures !addChildValues && indentString == old(indentString)
      ensures document == Styled(old(document), indentString, Arr(es))
      decreases Height(Arr(es)), 1
    {
      hide Storable, Indented, Fast, Styled, MultiLine, Height;
      ghost var items := Items(es);
      WriteWithIndent("[");
      ghost var start, outer := document, indentString;
      Indent();
      var size := Span(es);
      var hasChildValue := childValues != [];
      var index := 0;
      assert items[0..] == items;
      while true
        invariant 0 <= index < size && !addChildValues && indentString == outer + INDENT
        invariant hasChildValue ==> childValues == Texts(items) && forall i | 0 <= i < |items| :: Atomic(items[i])
        invariant StyledItems(document, indentString, items[index..]) == StyledItems(start, indentString, items)
        decreases size - index
      {
        ghost var rest := items[index..];
        assert rest[0] == items[index] && rest[1..] == items[index + 1..];
        if hasChildValue {
          StyledAtomic(Indented(document, indentString), indentString, items[index]);
          WriteWithIndent(childValues[index]);
        } else {
          WriteIndent();
          PartStorable(es, index);
          WriteValue(Lookup(es, index));
        }
        index := index + 1;
        if index == size {
          break;
        }
        document := document + ",";
      }
      assert items[index..] == [];
      Unindent(outer);
      WriteWithIndent("]");
      StyledArray(old(document), outer, es);
    }

    method WriteOneLine(es: seq<Entry>)
      requires es != [] && !MultiLine(Items(es)) && childValues == Texts(Items(es))
      modifies `document
      ensures document == Styled(old(document), indentString, Arr(es))
    {
      hide MultiLine, Fast, Styled;
      ghost var items := Items(es);
      StyledArray(document, indentString, es);
      document := document + "[ ";
      var size := Span(es);
      var index := 0;
      assert items[0..] == items;
      ghost var start := document;
      while index < size
        invariant 0 <= index <= size
        invariant document + Separated(items, index) == start + InLine(items)
      {
        assert items[index..][1..] == items[index + 1..];
        Associate(document, if index > 0 then ", " else "", InLine(items[index..]));
        ghost var d := document;
        if index > 0 {
          document := document + ", ";
        }
        assert document + InLine(items[index..]) == d + Separated(items, index);
        InLineStep(document, items, index);
        document := document + childValues[index];
        index := index + 1;
      }
      document := document + " ]";
    }

    /** `isMultineArray`, which leaves in the buffer the texts of the items if it had to measure them. */
    method IsMultilineArray(es: seq<Entry>) returns (isMultiLine: bool)
      requires Storable(Arr(es)) && es != [] && !addChildValues
      modifies this
      ensures !addChildValues && document == old(document) && indentString == old(indentString)
      ensures isMultiLine == MultiLine(Items(es)) && Collected(Items(es))
      ensures !isMultiLine ==> childValues == Texts(Items(es))
      decreases Height(Arr(es)), 1
    {
      hide Fast, Storable, Height;
      ghost var items := Items(es);
      var size := Span(es);
      isMultiLine := size * 3 >= RIGHT_MARGIN;
      childValues := [];
      var index := 0;
      while index < size && !isMultiLine
        invariant 0 <= index <= size && childValues == []
        invariant isMultiLine ==> MultiLine(items)
        invariant !isMultiLine ==> size * 3 < RIGHT_MARGIN && forall i | 0 <= i < index :: Atomic(items[i])
        decreases size - index
      {
        assert items[index] == Lookup(es, index);
        isMultiLine := !Atomic(Lookup(es, index));
        index := index + 1;
      }
      if !isMultiLine {
        addChildValues := true;
        var lineLength := 4 + (size - 1) * 2;
        index := 0;
        assert items[0..] == items;
        while index < size
          invariant 0 <= index <= size && addChildValues
          invariant document == old(document) && indentString == old(indentString)
          invariant childValues == Texts(items[..index])
          invariant lineLength + TotalLength(items[index..]) == 4 + (size - 1) * 2 + TotalLength(items)
        {
          PartStorable(es, index);
          WriteValue(Lookup(es, index));
          assert items[index..][1..] == items[index + 1..];
          assert Texts(items[..index + 1]) == Texts(items[..index]) + [Fast(items[index])];
          lineLength := lineLength + |childValues[index]|;
          index := index + 1;
        }
        addChildValues := false;
        assert items[index..] == [] && items[..index] == items;
        isMultiLine := lineLength >= RIGHT_MARGIN;
      }
    }

    method WriteMembers(ms: seq<Member>)
      requires Storable(Obj(ms)) && ms != [] && !addChildValues
      modifies this
      ensures !addChildValues && indentString == old(indentString)
      ensures document == Styled(old(document), indentString, Obj(ms))
      decreases Height(Obj(ms)), 1
    {
      hide Storable, Indented, Quoted, Fast, Styled, Height;
      WriteWithIndent("{");
      ghost var start, outer := document, indentString;
      Indent();
      var it := 0;
      assert ms[0..] == ms;
      while true
        invariant 0 <= it < |ms| && !addChildValues && indentString == outer + INDENT
        invariant StyledMembers(document, indentString, ms[it..]) == StyledMembers(start, indentString, ms)
        decreases |ms| - it
      {
        ghost var rest := ms[it..];
        assert rest[0] == ms[it] && rest[1..] == ms[it + 1..];
        PartOfObjectStorable(ms, it);
        var name := QuotedString(ms[it].key);
        WriteWithIndent(name);
        document := document + " : ";
        WriteValue(ms[it].value);
        it := it + 1;
        if it == |ms| {
          break;
        }
        document := document + ",";
      }
      assert ms[it..] == [];
      Unindent(outer);
      WriteWithIndent("}");
      StyledObject(old(document), outer, ms);
    }
  }

  lemma NumberStorable(v: Value)
    requires Storable(v)
    ensures v.Int? ==> MIN_INT <= v.i <= MAX_INT
    ensures v.UInt? ==> 0 <= v.u <= MAX_UINT
    ensures v.Str? ==> '\0' !in v.s
  {
  }

  lemma AtomicText(v: Value)
    ensures v == Null ==> Fast(v) == "null"
    ensures v.Int? ==> Fast(v) == IntText(v.i)
    ensures v.UInt? ==> Fast(v) == IntText(v.u)
    ensures v.Real? ==> Fast(v) == v.token
    ensures v.Str? ==> Fast(v) == Quoted(v.s)
    ensures v.Bool? ==> Fast(v) == if v.b then "true" else "false"
    ensures v == Arr([]) ==> Fast(v) == "[]"
    ensures v == Obj([]) ==> Fast(v) == "{}"
  {
    if !v.Arr? && !v.Obj? {
      OneToken(Toks(v)[0]);
    }
  }

  /** The text of the items from the index on, with the separator that comes before them. */
  function Separated(items: seq<Value>, index: nat): string
    requires index <= |items|
  {
    (if 0 < index < |items| then ", " else "") + InLine(items[index..])
  }

  lemma InLineStep(doc: string, items: seq<Value>, index: nat)
    requires index < |items|
    ensures doc + InLine(items[index..]) == doc + Fast(items[index]) + Separated(items, index + 1)
  {
    hide Fast;
    var rest := items[index..];
    assert rest[1..] == items[index + 1..];
  }

  lemma StyledAtomic(doc: string, indent: string, v: Value)
    requires Atomic(v)
    ensures Styled(doc, indent, v) == doc + Fast(v)
  {
    hide Fast;
    AtomicText(v);
  }

  lemma StyledArray(doc: string, indent: string, es: seq<Entry>)
    requires es != []
    ensures var items := Items(es);
      Styled(doc, indent, Arr(es)) ==
      if MultiLine(items) then
        Indented(StyledItems(Indented(doc, indent) + "[", indent + INDENT, items), indent) + "]"
      else doc + "[ " + InLine(items) + " ]"
  {
  }

  lemma StyledObject(doc: string, indent: string, ms: seq<Member>)
    requires ms != []
    ensures Styled(doc, indent, Obj(ms)) ==
      Indented(StyledMembers(Indented(doc, indent) + "{", indent + INDENT, ms), indent) + "}"
  {
  }
}
