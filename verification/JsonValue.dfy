/** The value tree of the JSON library and its two comparisons (json_value.cpp).

    A C string is a sequence of characters without NUL; each character stands for one byte. */
module JsonValue {

  const MIN_INT := -0x8000_0000
  const MAX_INT := 0x7fff_ffff
  const MAX_UINT := 0xffff_ffff

  datatype Member = Member(key: string, value: Value)

  datatype Entry = Entry(index: nat, value: Value)

  /** An array and an object are each a `std::map`: entries lie in the order of their indices, members in
      that of their keys. An array need not have an entry at every index. A real is known by the token it
      was scanned from. */
  datatype Value =
    | Null
    | Int(i: int)
    | UInt(u: int)
    | Real(token: string)
    | Str(s: string)
    | Bool(b: bool)
    | Arr(entries: seq<Entry>)
    | Obj(members: seq<Member>)

  // ----- Keys -------------------------------------------------------------------------------

  /** `strcmp(a, b) < 0`. */
  predicate StrLess(a: string, b: string) {
    if b == [] then false
    else if a == [] then true
    else if a[0] != b[0] then a[0] < b[0]
    else StrLess(a[1..], b[1..])
  }

  lemma {:induction false} StrTotal(a: string, b: string)
    ensures a == b || StrLess(a, b) || StrLess(b, a)
    ensures !(StrLess(a, b) && StrLess(b, a))
    ensures !StrLess(a, a)
  {
    if a != [] {
      StrTotal(a[1..], a[1..]);
      if b != [] && a[0] == b[0] {
        StrTotal(a[1..], b[1..]);
        assert a == [a[0]] + a[1..] && b == [b[0]] + b[1..];
      }
    }
  }

  lemma {:induction false} StrTransitive(a: string, b: string, c: string)
    requires StrLess(a, b) && StrLess(b, c)
    ensures StrLess(a, c)
  {
    if a != [] && a[0] == b[0] == c[0] {
      StrTransitive(a[1..], b[1..], c[1..]);
    }
  }

  ghost predicate Sorted(ms: seq<Member>) {
    forall i, j | 0 <= i < j < |ms| :: StrLess(ms[i].key, ms[j].key)
  }

  // ----- Arrays -----------------------------------------------------------------------------

  ghost predicate Increasing(es: seq<Entry>) {
    forall i, j | 0 <= i < j < |es| :: es[i].index < es[j].index
  }

  /** `size` of an array: one more than its last index. */
  function Span(es: seq<Entry>): nat {
    if es == [] then 0 else es[|es| - 1].index + 1
  }

  /** `operator[]` of a constant array: null where there is no entry. */
  function Lookup(es: seq<Entry>, index: nat): Value {
    if es == [] then Null else if es[0].index == index then es[0].value else Lookup(es[1..], index)
  }

  /** What a loop over an array sees. */
  function Items(es: seq<Entry>): (items: seq<Value>)
    ensures |items| == Span(es)
  {
    seq(Span(es), i requires 0 <= i < Span(es) => Lookup(es, i))
  }

  /** An array with an entry at every index. */
  function Listed(items: seq<Value>): seq<Entry> {
    seq(|items|, i requires 0 <= i < |items| => Entry(i, items[i]))
  }

  predicate Dense(es: seq<Entry>) {
    forall i | 0 <= i < |es| :: es[i].index == i
  }

  lemma {:induction false} LookupEntry(es: seq<Entry>, k: nat)
    requires Increasing(es) && k < |es|
    ensures Lookup(es, es[k].index) == es[k].value
    decreases |es|
  {
    if k > 0 {
      LookupEntry(es[1..], k - 1);
    }
  }

  /** What is looked up is null or some entry's. */
  lemma {:induction false} LookupIs(es: seq<Entry>, index: nat)
    ensures Lookup(es, index) == Null || exists k | 0 <= k < |es| :: Lookup(es, index) == es[k].value
    decreases |es|
  {
    if es != [] && es[0].index != index {
      LookupIs(es[1..], index);
      if k :| 0 <= k < |es| - 1 && Lookup(es[1..], index) == es[1..][k].value {
        assert es[k + 1].value == Lookup(es, index);
      }
    }
  }

  /** A loop over an array sees every entry and no gap if and only if the array is dense. */
  lemma DenseItems(es: seq<Entry>)
    requires Increasing(es)
    ensures Dense(es) <==> Listed(Items(es)) == es
  {
    if Dense(es) {
      forall i | 0 <= i < |es| ensures Items(es)[i] == es[i].value {
        LookupEntry(es, i);
      }
    } else {
      var i :| 0 <= i < |es| && es[i].index != i;
      assert i < Span(es) ==> Listed(Items(es))[i].index == i;
    }
  }

  lemma ItemsListed(items: seq<Value>)
    ensures Increasing(Listed(items)) && Items(Listed(items)) == items
  {
    var es := Listed(items);
    forall i | 0 <= i < |items| ensures Lookup(es, i) == items[i] {
      LookupEntry(es, i);
    }
  }

  // ----- What can be held -------------------------------------------------------------------

  /** What the library can hold: words in range, strings without NUL, maps in the order of their keys. */
  ghost predicate Storable(v: Value) {
    match v
    case Int(i) => MIN_INT <= i <= MAX_INT
    case UInt(u) => 0 <= u <= MAX_UINT
    case Str(s) => '\0' !in s
    case Arr(es) => Increasing(es) && forall i | 0 <= i < |es| :: Storable(es[i].value)
    case Obj(ms) => Sorted(ms) && forall i | 0 <= i < |ms| :: '\0' !in ms[i].key && Storable(ms[i].value)
    case _ => true
  }

  ghost predicate NoReals(v: Value) {
    match v
    case Real(_) => false
    case Arr(es) => forall i | 0 <= i < |es| :: NoReals(es[i].value)
    case Obj(ms) => forall i | 0 <= i < |ms| :: NoReals(ms[i].value)
    case _ => true
  }

  /** A tree whose every integer is one the reader stores as it is, an `Int` not among the nine least or a
      `UInt` above all `Int`s and not among the six greatest, and whose every array is dense. */
  predicate Faithful(v: Value) {
    match v
    case Int(i) => MIN_INT + 9 <= i <= MAX_INT
    case UInt(u) => MAX_INT < u <= MAX_UINT - 6
    case Arr(es) => Dense(es) && forall i | 0 <= i < |es| :: Faithful(es[i].value)
    case Obj(ms) => forall i | 0 <= i < |ms| :: Faithful(ms[i].value)
    case _ => true
  }

  // ----- Height -----------------------------------------------------------------------------

  function Max(a: nat, b: nat): nat {
    if a < b then b else a
  }

  function Height(v: Value): (n: nat)
    ensures n > 0
    decreases v
  {
    match v
    case Arr(es) => 1 + EntriesHeight(es)
    case Obj(ms) => 1 + MembersHeight(ms)
    case _ => 1
  }

  function EntriesHeight(es: seq<Entry>): nat
    decreases es
  {
    if es == [] then 0
    else
      assert es[0].value < es[0];
      Max(Height(es[0].value), EntriesHeight(es[1..]))
  }

  function MembersHeight(ms: seq<Member>): nat
    decreases ms
  {
    if ms == [] then 0 else Max(Height(ms[0].value), MembersHeight(ms[1..]))
  }

  function ItemsHeight(items: seq<Value>): nat {
    if items == [] then 0 else Max(Height(items[0]), ItemsHeight(items[1..]))
  }

  lemma {:induction false} EntryHeight(es: seq<Entry>, k: nat)
    requires k < |es|
    ensures 0 < Height(es[k].value) <= EntriesHeight(es)
  {
    if k > 0 {
      EntryHeight(es[1..], k - 1);
    }
  }

  lemma {:induction false} ItemsHeightBound(items: seq<Value>, n: nat)
    requires forall i | 0 <= i < |items| :: Height(items[i]) <= n
    ensures ItemsHeight(items) <= n
  {
    if items != [] {
      ItemsHeightBound(items[1..], n);
    }
  }

  /** The gaps of an array add nothing to its height. */
  lemma ItemsAreLower(es: seq<Entry>)
    ensures ItemsHeight(Items(es)) <= EntriesHeight(es)
  {
    forall i | 0 <= i < Span(es) ensures Height(Items(es)[i]) <= EntriesHeight(es) {
      LookupIs(es, i);
      if k :| 0 <= k < |es| && Lookup(es, i) == es[k].value {
        EntryHeight(es, k);
      } else {
        EntryHeight(es, 0);
      }
    }
    ItemsHeightBound(Items(es), EntriesHeight(es));
  }

  // ----- Order ------------------------------------------------------------------------------

  /** The value of the type's enumerator. */
  function Rank(v: Value): nat {
    match v
    case Null => 0
    case Int(_) => 1
    case UInt(_) => 2
    case Real(_) => 3
    case Str(_) => 4
    case Bool(_) => 5
    case Arr(_) => 6
    case Obj(_) => 7
  }

  /** `Value::operator<`, of values without reals. Of two maps the one with fewer entries is less. */
  predicate Less(a: Value, b: Value)
    decreases Height(a) + Height(b), 0, 0
  {
    if Rank(a) != Rank(b) then Rank(a) < Rank(b)
    else
      match a
      case Null => false
      case Int(i) => i < b.i
      case UInt(u) => u < b.u
      case Real(_) => false
      case Str(s) => StrLess(s, b.s)
      case Bool(x) => !x && b.b
      case Arr(es) =>
        if |es| != |b.entries| then |es| < |b.entries| else EntriesLess(es, b.entries)
      case Obj(ms) =>
        if |ms| != |b.members| then |ms| < |b.members| else MembersLess(ms, b.members)
  }

  /** `std::pair::operator<` of two entries: by index, then by value. */
  predicate EntryLess(m: Entry, n: Entry)
    decreases Height(m.value) + Height(n.value), 1, 0
  {
    m.index < n.index || (!(n.index < m.index) && Less(m.value, n.value))
  }

  /** `std::lexicographical_compare` of two maps: the first place where one is less decides. */
  predicate EntriesLess(a: seq<Entry>, b: seq<Entry>)
    decreases EntriesHeight(a) + EntriesHeight(b), 2, |a|
  {
    if b == [] then false
    else if a == [] then true
    else if EntryLess(a[0], b[0]) then true
    else if EntryLess(b[0], a[0]) then false
    else EntriesLess(a[1..], b[1..])
  }

  /** The same for members: by key, then by value. */
  predicate MemberLess(m: Member, n: Member)
    decreases Height(m.value) + Height(n.value), 1, 0
  {
    StrLess(m.key, n.key) || (!StrLess(n.key, m.key) && Less(m.value, n.value))
  }

  predicate MembersLess(a: seq<Member>, b: seq<Member>)
    decreases MembersHeight(a) + MembersHeight(b), 2, |a|
  {
    if b == [] then false
    else if a == [] then true
    else if MemberLess(a[0], b[0]) then true
    else if MemberLess(b[0], a[0]) then false
    else MembersLess(a[1..], b[1..])
  }

  /** `Value::operator==`. */
  predicate Equal(a: Value, b: Value)
    decreases a
  {
    Rank(a) == Rank(b) &&
    match a
    case Null => true
    case Int(i) => i == b.i
    case UInt(u) => u == b.u
    case Real(t) => t == b.token
    case Str(s) => s == b.s
    case Bool(x) => x == b.b
    case Arr(es) =>
      |es| == |b.entries| &&
      forall i | 0 <= i < |es| :: es[i].index == b.entries[i].index && Equal(es[i].value, b.entries[i].value)
    case Obj(ms) =>
      |ms| == |b.members| &&
      forall i | 0 <= i < |ms| :: ms[i].key == b.members[i].key && Equal(ms[i].value, b.members[i].value)
  }

  lemma {:induction false} EqualIsEquality(a: Value, b: Value)
    ensures Equal(a, b) <==> a == b
    decreases a
  {
    match a
    case Arr(es) =>
      if b.Arr? && |es| == |b.entries| {
        forall i | 0 <= i < |es|
          ensures Equal(es[i].value, b.entries[i].value) <==> es[i].value == b.entries[i].value
        {
          EqualIsEquality(es[i].value, b.entries[i].value);
        }
      }
    case Obj(ms) =>
      if b.Obj? && |ms| == |b.members| {
        forall i | 0 <= i < |ms|
          ensures Equal(ms[i].value, b.members[i].value) <==> ms[i].value == b.members[i].value
        {
          EqualIsEquality(ms[i].value, b.members[i].value);
        }
      }
    case _ =>
  }

  /** Exactly one of three booleans. */
  predicate ExactlyOne(p: bool, q: bool, r: bool) {
    (p && !q && !r) || (!p && q && !r) || (!p && !q && r)
  }

  /** Of two values without reals exactly one is less, or they are equal. */
  lemma {:induction false} Trichotomy(a: Value, b: Value)
    requires NoReals(a) && NoReals(b)
    ensures ExactlyOne(Less(a, b), a == b, Less(b, a))
    decreases Height(a) + Height(b), 0, 0
  {
    if Rank(a) == Rank(b) {
      match a
      case Str(s) => StrTotal(s, b.s);
      case Arr(es) => EntriesTrichotomy(es, b.entries);
      case Obj(ms) => MembersTrichotomy(ms, b.members);
      case _ =>
    }
  }

  lemma {:induction false} EntryTrichotomy(m: Entry, n: Entry)
    requires NoReals(m.value) && NoReals(n.value)
    ensures ExactlyOne(EntryLess(m, n), m == n, EntryLess(n, m))
    decreases Height(m.value) + Height(n.value), 1, 0
  {
    Trichotomy(m.value, n.value);
  }

  lemma {:induction false} EntriesTrichotomy(a: seq<Entry>, b: seq<Entry>)
    requires forall i | 0 <= i < |a| :: NoReals(a[i].value)
    requires forall i | 0 <= i < |b| :: NoReals(b[i].value)
    ensures ExactlyOne(EntriesLess(a, b), a == b, EntriesLess(b, a))
    decreases EntriesHeight(a) + EntriesHeight(b), 2, |a|
  {
    if a != [] && b != [] {
      assert a == [a[0]] + a[1..] && b == [b[0]] + b[1..];
      EntryTrichotomy(a[0], b[0]);
      EntriesTrichotomy(a[1..], b[1..]);
    }
  }

  lemma {:induction false} MemberTrichotomy(m: Member, n: Member)
    requires NoReals(m.value) && NoReals(n.value)
    ensures ExactlyOne(MemberLess(m, n), m == n, MemberLess(n, m))
    decreases Height(m.value) + Height(n.value), 1, 0
  {
    StrTotal(m.key, n.key);
    Trichotomy(m.value, n.value);
  }

  lemma {:induction false} MembersTrichotomy(a: seq<Member>, b: seq<Member>)
    requires forall i | 0 <= i < |a| :: NoReals(a[i].value)
    requires forall i | 0 <= i < |b| :: NoReals(b[i].value)
    ensures ExactlyOne(MembersLess(a, b), a == b, MembersLess(b, a))
    decreases MembersHeight(a) + MembersHeight(b), 2, |a|
  {
    if a != [] && b != [] {
      assert a == [a[0]] + a[1..] && b == [b[0]] + b[1..];
      MemberTrichotomy(a[0], b[0]);
      MembersTrichotomy(a[1..], b[1..]);
    }
  }

  /** The order is transitive. */
  lemma {:induction false} Transitivity(a: Value, b: Value, c: Value)
    requires NoReals(a) && NoReals(b) && NoReals(c)
    requires Less(a, b) && Less(b, c)
    ensures Less(a, c)
    decreases Height(a) + Height(b) + Height(c), 0, 0
  {
    if Rank(a) == Rank(b) == Rank(c) {
      match a
      case Str(s) => StrTransitive(s, b.s, c.s);
      case Arr(es) =>
        if |es| == |b.entries| == |c.entries| {
          EntriesTransitivity(es, b.entries, c.entries);
        }
      case Obj(ms) =>
        if |ms| == |b.members| == |c.members| {
          MembersTransitivity(ms, b.members, c.members);
        }
      case _ =>
    }
  }

  lemma {:induction false} EntryTransitivity(l: Entry, m: Entry, n: Entry)
    requires NoReals(l.value) && NoReals(m.value) && NoReals(n.value)
    requires EntryLess(l, m) && EntryLess(m, n)
    ensures EntryLess(l, n)
    decreases Height(l.value) + Height(m.value) + Height(n.value), 1, 0
  {
    if l.index == m.index == n.index {
      Transitivity(l.value, m.value, n.value);
    }
  }

  lemma {:induction false} EntriesTransitivity(a: seq<Entry>, b: seq<Entry>, c: seq<Entry>)
    requires forall i | 0 <= i < |a| :: NoReals(a[i].value)
    requires forall i | 0 <= i < |b| :: NoReals(b[i].value)
    requires forall i | 0 <= i < |c| :: NoReals(c[i].value)
    requires EntriesLess(a, b) && EntriesLess(b, c)
    ensures EntriesLess(a, c)
    decreases EntriesHeight(a) + EntriesHeight(b) + EntriesHeight(c), 2, |a|
  {
    if a != [] {
      EntryTrichotomy(a[0], b[0]);
      EntryTrichotomy(b[0], c[0]);
      EntryTrichotomy(a[0], c[0]);
      if a[0] == b[0] == c[0] {
        EntriesTransitivity(a[1..], b[1..], c[1..]);
      } else if EntryLess(a[0], b[0]) && EntryLess(b[0], c[0]) {
        EntryTransitivity(a[0], b[0], c[0]);
      }
    }
  }

  lemma {:induction false} MemberTransitivity(l: Member, m: Member, n: Member)
    requires NoReals(l.value) && NoReals(m.value) && NoReals(n.value)
    requires MemberLess(l, m) && MemberLess(m, n)
    ensures MemberLess(l, n)
    decreases Height(l.value) + Height(m.value) + Height(n.value), 1, 0
  {
    StrTotal(l.key, m.key);
    StrTotal(m.key, n.key);
    StrTotal(l.key, n.key);
    if l.key == m.key == n.key {
      Transitivity(l.value, m.value, n.value);
    } else if StrLess(l.key, m.key) && StrLess(m.key, n.key) {
      StrTransitive(l.key, m.key, n.key);
    }
  }

  lemma {:induction false} MembersTransitivity(a: seq<Member>, b: seq<Member>, c: seq<Member>)
    requires forall i | 0 <= i < |a| :: NoReals(a[i].value)
    requires forall i | 0 <= i < |b| :: NoReals(b[i].value)
    requires forall i | 0 <= i < |c| :: NoReals(c[i].value)
    requires MembersLess(a, b) && MembersLess(b, c)
    ensures MembersLess(a, c)
    decreases MembersHeight(a) + MembersHeight(b) + MembersHeight(c), 2, |a|
  {
    if a != [] {
      MemberTrichotomy(a[0], b[0]);
      MemberTrichotomy(b[0], c[0]);
      MemberTrichotomy(a[0], c[0]);
      if a[0] == b[0] == c[0] {
        MembersTransitivity(a[1..], b[1..], c[1..]);
      } else if MemberLess(a[0], b[0]) && MemberLess(b[0], c[0]) {
        MemberTransitivity(a[0], b[0], c[0]);
      }
    }
  }

  /** `Value::operator<=` as it is written: `!(other > *this)`, with `a > b` for `b < a`. */
  predicate WrittenLessOrEqual(a: Value, b: Value) {
    !Less(a, b)
  }

  /** So written it is the reverse of what its name says, right only for values that are equal. */
  lemma WrittenLessOrEqualIsRight(a: Value, b: Value)
    requires NoReals(a) && NoReals(b)
    ensures (WrittenLessOrEqual(a, b) <==> Less(a, b) || Equal(a, b)) <==> Equal(a, b)
  {
    EqualIsEquality(a, b);
    Trichotomy(a, b);
  }

  lemma WrittenLessOrEqualFails()
    ensures Less(Int(1), Int(2)) && !WrittenLessOrEqual(Int(1), Int(2))
  {
  }
}
