/** The recursive descent of the JSON reader, as functions from a document and a position
    (json_reader.cpp). Reading stops at a position, with a value or with an error. */
module JsonRead {
  import opened Common
  import opened JsonValue
  import opened JsonScan
  import opened JsonDecode

  datatype Read = Read(end: nat, value: Option<Value>)

  /** `currentValue()[name] = value`: the member is replaced, or inserted where the order puts it. */
  function Put(ms: seq<Member>, key: string, v: Value): seq<Member> {
    if ms == [] || StrLess(key, ms[0].key) then [Member(key, v)] + ms
    else if ms[0].key == key then [Member(key, v)] + ms[1..]
    else [ms[0]] + Put(ms[1..], key, v)
  }

  function TextOf(doc: string, t: Token): string
    requires t.start <= t.end <= |doc|
  {
    doc[t.start..t.end]
  }

  lemma WithoutEnds(doc: string, p: nat, q: nat)
    requires p + 2 <= q <= |doc|
    ensures doc[p..q][1..q - p - 1] == doc[p + 1..q - 1]
  {
    var a, b := doc[p..q][1..q - p - 1], doc[p + 1..q - 1];
    assert |a| == |b|;
    forall k | 0 <= k < |a| ensures a[k] == b[k] {
      assert a[k] == doc[p..q][k + 1];
    }
  }

  /** The tokenizer and `decodeString` agree on where a string ends. */
  lemma TokenWalksClean(doc: string, p: nat)
    requires p <= |doc| && ReadToken(doc, p).kind == StringToken
    ensures var tok := TextOf(doc, ReadToken(doc, p)); |tok| >= 2 && WalksClean(tok[1..|tok| - 1])
  {
    var t := ReadToken(doc, p);
    var tok := TextOf(doc, t);
    StringTokenEscaped(doc, t.start + 1);
    WithoutEnds(doc, t.start, t.end);
    EscapedWalksClean(tok[1..|tok| - 1]);
  }

  /** `readValue`. */
  function ReadValue(doc: string, p: nat, scan: Scanf): (r: Read)
    requires p <= |doc|
    ensures p <= r.end <= |doc|
    ensures r.value.Some? ==> p < r.end
    decreases |doc| - p, 2
  {
    var t := NextToken(doc, p);
    match t.kind
    case ObjectBegin => ReadMembers(doc, t.end, true, [], scan)
    case ArrayBegin => ReadArray(doc, t.end, scan)
    case NumberToken => Read(t.end, DecodeNumber(TextOf(doc, t), scan))
    case StringToken =>
      var s := DecodeString(TextOf(doc, t));
      Read(t.end, if s.Some? then Some(Str(CStr(s.value))) else None)
    case TrueToken => Read(t.end, Some(Bool(true)))
    case FalseToken => Read(t.end, Some(Bool(false)))
    case NullToken => Read(t.end, Some(Null))
    case _ => Read(t.end, None)
  }

  /** `readArray`, after the opening bracket. */
  function ReadArray(doc: string, p: nat, scan: Scanf): (r: Read)
    requires p <= |doc|
    ensures p <= r.end <= |doc|
    decreases |doc| - p, 4
  {
    var q := SkipSpaces(doc, p);
    if Peek(doc, q) == ']' then Read(ReadToken(doc, q).end, Some(Arr([]))) else ReadItems(doc, q, [], scan)
  }

  /** The loop of `readArray`. What separates two items is not looked at: any token but a closing
      bracket will do, since the test meant to check it can never be true. */
  function ReadItems(doc: string, p: nat, read: seq<Value>, scan: Scanf): (r: Read)
    requires p <= |doc|
    ensures p <= r.end <= |doc|
    decreases |doc| - p, 3
  {
    var v := ReadValue(doc, p, scan);
    if v.value.None? then Read(Recover(doc, v.end, ArrayEnd), None)
    else
      var t := NextToken(doc, v.end);
      if t.kind == ArrayEnd then Read(t.end, Some(Arr(Listed(read + [v.value.value]))))
      else ReadItems(doc, t.end, read + [v.value.value], scan)
  }

  /** The loop of `readObject`; `unnamed` says that the name last read is empty, as it is at first. */
  function ReadMembers(doc: string, p: nat, unnamed: bool, read: seq<Member>, scan: Scanf): (r: Read)
    requires p <= |doc|
    ensures p <= r.end <= |doc|
    decreases |doc| - p, 3
  {
    var t := NextToken(doc, p);
    if t.kind == ObjectEnd && unnamed then Read(t.end, Some(Obj(read)))
    else if t.kind != StringToken then Read(Recover(doc, t.end, ObjectEnd), None)
    else
      var name := DecodeString(TextOf(doc, t));
      if name.None? then Read(Recover(doc, t.end, ObjectEnd), None)
      else
        var colon := ReadToken(doc, t.end);
        if colon.kind != MemberSeparator then Read(Recover(doc, colon.end, ObjectEnd), None)
        else
          var v := ReadValue(doc, colon.end, scan);
          if v.value.None? then Read(Recover(doc, v.end, ObjectEnd), None)
          else
            var comma := ReadToken(doc, v.end);
            if comma.kind !in {ObjectEnd, ArraySeparator, CommentToken} then
              Read(Recover(doc, comma.end, ObjectEnd), None)
            else
              var members := Put(read, CStr(name.value), v.value.value);
              var last := NextToken(doc, v.end);
              if last.kind == ObjectEnd then Read(last.end, Some(Obj(members)))
              else ReadMembers(doc, last.end, name.value == [], members, scan)
  }

  /** `Reader::parse` of a whole document, with the default features. What follows the first value is
      not looked at. */
  function Parse(doc: string, scan: Scanf): Option<Value> {
    ReadValue(doc, 0, scan).value
  }

  // ----- What is read can be stored ---------------------------------------------------------

  lemma {:induction false} PutSorted(ms: seq<Member>, key: string, v: Value)
    requires Sorted(ms)
    ensures Sorted(Put(ms, key, v))
    ensures forall m | m in Put(ms, key, v) :: m in ms || m == Member(key, v)
  {
    if ms != [] {
      StrTotal(key, ms[0].key);
      if StrLess(key, ms[0].key) {
        forall i | 0 <= i < |ms| ensures StrLess(key, ms[i].key) {
          if i > 0 {
            StrTransitive(key, ms[0].key, ms[i].key);
          }
        }
      } else if ms[0].key != key {
        PutSorted(ms[1..], key, v);
        var t := Put(ms[1..], key, v);
        forall i | 0 <= i < |t| ensures StrLess(ms[0].key, t[i].key) {
          assert t[i] in t;
        }
      }
    }
  }

  /** A member with the greatest key goes to the end. */
  lemma {:induction false} PutLast(ms: seq<Member>, key: string, v: Value)
    requires forall i | 0 <= i < |ms| :: StrLess(ms[i].key, key)
    ensures Put(ms, key, v) == ms + [Member(key, v)]
  {
    if ms != [] {
      StrTotal(key, ms[0].key);
      PutLast(ms[1..], key, v);
      assert ms == [ms[0]] + ms[1..];
    }
  }

  /** Whatever the document, a value that is read is one the library can hold, its integers are within the
      reader's thresholds, and its arrays are dense. */
  lemma {:induction false} ReadStorable(doc: string, p: nat, scan: Scanf)
    requires p <= |doc|
    ensures var r := ReadValue(doc, p, scan).value; r.Some? ==> Storable(r.value) && Faithful(r.value)
    decreases |doc| - p, 2
  {
    hide NextToken, ReadMembers, ReadArray, DecodeNumber, DecodeString;
    var t := NextToken(doc, p);
    match t.kind
    case ObjectBegin => ReadMembersStorable(doc, t.end, true, [], scan);
    case ArrayBegin => ReadArrayStorable(doc, t.end, scan);
    case NumberToken => DecodedNumberStorable(TextOf(doc, t), scan);
    case _ =>
  }

  lemma {:induction false} ReadArrayStorable(doc: string, p: nat, scan: Scanf)
    requires p <= |doc|
    ensures var r := ReadArray(doc, p, scan).value; r.Some? ==> Storable(r.value) && Faithful(r.value)
    decreases |doc| - p, 4
  {
    hide ReadItems, ReadToken;
    ReadItemsStorable(doc, SkipSpaces(doc, p), [], scan);
  }

  lemma {:induction false} ReadItemsStorable(doc: string, p: nat, read: seq<Value>, scan: Scanf)
    requires p <= |doc| && forall i | 0 <= i < |read| :: Storable(read[i]) && Faithful(read[i])
    ensures var r := ReadItems(doc, p, read, scan).value; r.Some? ==> Storable(r.value) && Faithful(r.value)
    decreases |doc| - p, 3
  {
    hide ReadValue, NextToken;
    var v := ReadValue(doc, p, scan);
    ReadStorable(doc, p, scan);
    if v.value.Some? {
      var t := NextToken(doc, v.end);
      if t.kind != ArrayEnd {
        ReadItemsStorable(doc, t.end, read + [v.value.value], scan);
      }
    }
  }

  lemma {:induction false} ReadMembersStorable(doc: string, p: nat, unnamed: bool, read: seq<Member>, scan: Scanf)
    requires p <= |doc| && Storable(Obj(read)) && Faithful(Obj(read))
    ensures var r := ReadMembers(doc, p, unnamed, read, scan).value;
      r.Some? ==> Storable(r.value) && Faithful(r.value)
    decreases |doc| - p, 3
  {
    hide ReadValue, NextToken, ReadToken, Put, DecodeString, CStr;
    var t := NextToken(doc, p);
    if t.kind == StringToken {
      var name := DecodeString(TextOf(doc, t));
      var colon := ReadToken(doc, t.end);
      if name.Some? && colon.kind == MemberSeparator {
        var v := ReadValue(doc, colon.end, scan);
        ReadStorable(doc, colon.end, scan);
        if v.value.Some? {
          var members := Put(read, CStr(name.value), v.value.value);
          PutStorable(read, CStr(name.value), v.value.value);
          var last := NextToken(doc, v.end);
          if last.kind in {ObjectEnd} {
          } else if ReadToken(doc, v.end).kind in {ObjectEnd, ArraySeparator, CommentToken} {
            EndsLater(doc, v.end);
            ReadMembersStorable(doc, last.end, name.value == [], members, scan);
          }
        }
      }
    }
  }

  lemma EndsLater(doc: string, p: nat)
    requires p <= |doc|
    ensures NextToken(doc, p).end >= p
  {
  }

  lemma PutStorable(ms: seq<Member>, key: string, v: Value)
    requires Storable(Obj(ms)) && '\0' !in key && Storable(v)
    requires Faithful(Obj(ms)) && Faithful(v)
    ensures Storable(Obj(Put(ms, key, v))) && Faithful(Obj(Put(ms, key, v)))
  {
    hide Put;
    PutSorted(ms, key, v);
    var r := Put(ms, key, v);
    forall i | 0 <= i < |r| ensures '\0' !in r[i].key && Storable(r[i].value) && Faithful(r[i].value) {
      assert r[i] in r;
    }
  }
}
