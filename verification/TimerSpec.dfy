/** The timer wheel of GameLib/mtimer.c as a transition system over unbounded time.

    The slot lists are numbered as they lie in `struct tvec_base`: 0..255 is `tv1`, then 64 slots each
    for `tv2` to `tv5`, and slot 512 is the `work_list` of `run_stimer_list`. A timer is known by an
    identity of any type; what it means for a timer to be armed is recorded beside the lists. */
module TimerSpec {
  import opened Common
  import opened WordTime

  const WORK: nat := 512

  /** One arming of a timer: the tick it was armed at, the tick it has to fire at, and its place in
      the order of all events. */
  datatype Arm = Arm(at: nat, due: nat, seqno: nat)

  datatype Event<Id> =
    | Armed(x: Id, arm: Arm)
    | Disarmed(x: Id)
    | Fired(x: Id, tick: nat)

  datatype State<Id(==)> = State(
    m: nat,                       // modulus of `unsigned long`
    now: nat,                     // timer_jiffies, unwrapped
    pend: map<Id, Arm>,           // the timers that are linked somewhere
    loc: map<Id, nat>,            // the slot each of them is linked in
    slots: seq<seq<Id>>,
    fired: nat,                   // how many callbacks have been called
    log: seq<Event<Id>>)

  // ----- Slots ------------------------------------------------------------------------------

  /** `internal_add_timer`: the slot for an expiry, in integers. */
  function InsertSlot(now: nat, expires: int): (j: nat)
    ensures j < WORK
  {
    var idx := expires - now;
    if idx < 0 then now % 256
    else if idx < 0x100 then expires % 256
    else if idx < 0x4000 then 256 + expires / 0x100 % 64
    else if idx < 0x10_0000 then 320 + expires / 0x4000 % 64
    else if idx < 0x400_0000 then 384 + expires / 0x10_0000 % 64
    else
      var capped := if idx > 0xffff_ffff then now + 0xffff_ffff else expires;
      448 + capped / 0x400_0000 % 64
  }

  /** The block that slot `i` of a 64-slot level of the given unit stands for at tick `now`: the
      only multiple-of-64 neighbour of `i` in the level's window. */
  function Block(now: nat, unit: nat, i: nat): (b: nat)
    requires unit > 0
    ensures Ceiling(now, unit) <= b <= Ceiling(now, unit) + 63
  {
    Ceiling(now, unit) + (i - Ceiling(now, unit)) % 64
  }

  /** Where a timer may wait: at tick `now`, linked in slot `j`, due at `due`. In `tv1` its slot is
      exactly its tick; higher up its block starts no later than its tick. */
  predicate Placed(now: nat, j: nat, due: nat) {
    if j < 256 then now <= due < now + 256 && due % 256 == j
    else if j < 320 then Block(now, 0x100, j - 256) * 0x100 <= due
    else if j < 384 then Block(now, 0x4000, j - 320) * 0x4000 <= due
    else if j < 448 then Block(now, 0x10_0000, j - 384) * 0x10_0000 <= due
    else if j < 512 then Block(now, 0x400_0000, j - 448) * 0x400_0000 <= due
    else j == WORK && due + 1 == now
  }

  /** Slot `j` of a higher level is the one whose block begins at tick `now`. */
  predicate Current(now: nat, j: nat) {
    || (now % 0x100 == 0 && j == 256 + now / 0x100 % 64)
    || (now % 0x4000 == 0 && j == 320 + now / 0x4000 % 64)
    || (now % 0x10_0000 == 0 && j == 384 + now / 0x10_0000 % 64)
    || (now % 0x400_0000 == 0 && j == 448 + now / 0x400_0000 % 64)
  }

  lemma BlockUnique(now: nat, unit: nat, b: nat)
    requires unit > 0
    requires Ceiling(now, unit) <= b <= Ceiling(now, unit) + 63
    ensures Block(now, unit, b % 64) == b
  {
    var first := Ceiling(now, unit);
    assert (b % 64 - first) % 64 == b - first;
  }

  /** A timer is always linked in a slot where it may wait. */
  lemma InsertPlaced(now: nat, due: nat)
    requires due >= now
    ensures Placed(now, InsertSlot(now, due), due)
  {
    var idx := due - now;
    if idx < 0x100 {
    } else if idx < 0x4000 {
      BlockUnique(now, 0x100, due / 0x100);
    } else if idx < 0x10_0000 {
      BlockUnique(now, 0x4000, due / 0x4000);
    } else if idx < 0x400_0000 {
      BlockUnique(now, 0x10_0000, due / 0x10_0000);
    } else {
      var capped := if idx > 0xffff_ffff then now + 0xffff_ffff else due;
      BlockUnique(now, 0x400_0000, capped / 0x400_0000);
    }
  }

  /** Nothing is ever linked into a slot whose block begins right now. */
  lemma InsertAvoidsCurrent(now: nat, due: nat)
    requires due >= now
    ensures !Current(now, InsertSlot(now, due))
  {
    var idx := due - now;
    if idx < 0x100 {
    } else if idx < 0x4000 {
      AvoidsBlock(now, 0x100, due);
    } else if idx < 0x10_0000 {
      AvoidsBlock(now, 0x4000, due);
    } else if idx < 0x400_0000 {
      AvoidsBlock(now, 0x10_0000, due);
    } else {
      AvoidsBlock(now, 0x400_0000, if idx > 0xffff_ffff then now + 0xffff_ffff else due);
    }
  }

  lemma AvoidsBlock(now: nat, unit: nat, due: nat)
    requires unit in {0x100, 0x4000, 0x10_0000, 0x400_0000} && unit <= due - now < 64 * unit
    ensures now % unit == 0 ==> due / unit % 64 != now / unit % 64
  {
    var q, r := now / unit, due / unit;
    if now % unit == 0 {
      if unit == 0x100 {
      } else if unit == 0x4000 {
      } else if unit == 0x10_0000 {
      } else {
      }
      assert q < r < q + 64;
    }
  }

  /** A waiting timer is never overdue. */
  lemma PlacedNotOverdue(now: nat, j: nat, due: nat)
    requires j < WORK && Placed(now, j, due)
    ensures due >= now
  {
  }

  function Ceiling(now: nat, unit: nat): nat
    requires unit > 0
  {
    (now + unit - 1) / unit
  }

  lemma CeilingIs(now: nat, unit: nat)
    requires unit in {0x100, 0x4000, 0x10_0000, 0x400_0000}
    ensures Ceiling(now, unit) == now / unit + if now % unit == 0 then 0 else 1
  {
    if unit == 0x100 {
    } else if unit == 0x4000 {
    } else if unit == 0x10_0000 {
    } else {
    }
  }

  /** Rounding up moves on by one block exactly when the tick begins a block. */
  lemma CeilingAdvance(now: nat, unit: nat)
    requires unit in {0x100, 0x4000, 0x10_0000, 0x400_0000}
    ensures now % unit == 0 ==> Ceiling(now, unit) == now / unit
    ensures Ceiling(now + 1, unit) == Ceiling(now, unit) + (if now % unit == 0 then 1 else 0)
  {
    hide Ceiling;
    CeilingIs(now, unit);
    CeilingIs(now + 1, unit);
    if unit == 0x100 {
    } else if unit == 0x4000 {
    } else if unit == 0x10_0000 {
    } else {
    }
  }

  lemma BlockAdvance(now: nat, unit: nat, i: nat)
    requires unit in {0x100, 0x4000, 0x10_0000, 0x400_0000} && i < 64
    requires !(now % unit == 0 && i == now / unit % 64)
    ensures Block(now + 1, unit, i) == Block(now, unit, i)
  {
    hide Ceiling;
    CeilingAdvance(now, unit);
    if now % unit == 0 {
      NextInWindow(now / unit, i);
    }
  }

  lemma NextInWindow(first: nat, i: nat)
    requires i < 64 && i != first % 64
    ensures first + (i - first) % 64 == first + 1 + (i - (first + 1)) % 64
  {
  }

  /** A tick later a timer may still wait where it is, unless its slot was the one to be emptied. */
  lemma PlacedAdvance(now: nat, j: nat, due: nat)
    requires j < WORK && j != now % 256 && !Current(now, j)
    requires Placed(now, j, due)
    ensures Placed(now + 1, j, due)
  {
    if j < 256 {
    } else if j < 320 {
      BlockAdvance(now, 0x100, j - 256);
    } else if j < 384 {
      BlockAdvance(now, 0x4000, j - 320);
    } else if j < 448 {
      BlockAdvance(now, 0x10_0000, j - 384);
    } else {
      BlockAdvance(now, 0x400_0000, j - 448);
    }
  }

  // ----- Invariant --------------------------------------------------------------------------

  /** Every pending timer is linked in exactly one slot, exactly once, and nothing else is linked. */
  ghost predicate Shape<Id>(s: State<Id>) {
    && |s.slots| == 513
    && s.loc.Keys == s.pend.Keys
    && (forall x | x in s.loc :: s.loc[x] < 513 && x in s.slots[s.loc[x]])
    && (forall j, a | 0 <= j < 513 && 0 <= a < |s.slots[j]| ::
          s.slots[j][a] in s.loc && s.loc[s.slots[j][a]] == j)
    && (forall j | 0 <= j < 513 :: Distinct(s.slots[j]))
  }

  /** Every pending timer is linked where it may wait. */
  ghost predicate Placement<Id>(s: State<Id>)
    requires Shape(s)
  {
    forall x | x in s.pend :: Placed(s.now, s.loc[x], s.pend[x].due)
  }

  /** Armed at the same tick, to fire at the same tick. */
  predicate Cohort(a: Arm, b: Arm) {
    a.at == b.at && a.due == b.due
  }

  /** Timers of one cohort share a slot, in the order they were armed. */
  ghost predicate Fifo<Id>(s: State<Id>)
    requires Shape(s)
  {
    && (forall x | x in s.pend ::
          s.pend[x].at <= s.now && (s.pend[x].at == s.now ==> s.loc[x] == InsertSlot(s.now, s.pend[x].due)))
    && (forall x, y | x in s.pend && y in s.pend && Cohort(s.pend[x], s.pend[y]) :: s.loc[x] == s.loc[y])
    && (forall j | 0 <= j < 513 :: InOrder(s.slots[j], s.pend))
  }

  ghost predicate InOrder<Id>(q: seq<Id>, pend: map<Id, Arm>)
    requires forall a | 0 <= a < |q| :: q[a] in pend
  {
    forall a, b | 0 <= a < b < |q| && Cohort(pend[q[a]], pend[q[b]]) :: pend[q[a]].seqno < pend[q[b]].seqno
  }

  ghost predicate Inv<Id>(s: State<Id>) {
    && WordModulus(s.m)
    && Shape(s)
    && Placement(s)
    && Fifo(s)
    && forall x | x in s.pend :: s.pend[x].seqno < |s.log|
  }

  // ----- Linking and unlinking one timer ----------------------------------------------------

  function Place<Id>(s: State<Id>, x: Id, arm: Arm): State<Id>
    requires |s.slots| == 513
  {
    var j := InsertSlot(s.now, arm.due);
    s.(pend := s.pend[x := arm], loc := s.loc[x := j], slots := s.slots[j := s.slots[j] + [x]])
  }

  /** What may be said of an arming before it is linked: it is due, and it is the latest of its
      cohort, the rest of which waits in the slot it will go to. */
  ghost predicate Placeable<Id>(s: State<Id>, arm: Arm)
    requires Shape(s)
  {
    && arm.due >= s.now && arm.at <= s.now && arm.seqno < |s.log|
    && forall y | y in s.pend && Cohort(s.pend[y], arm) ::
         s.loc[y] == InsertSlot(s.now, arm.due) && s.pend[y].seqno < arm.seqno
  }

  lemma PlaceShape<Id>(s: State<Id>, x: Id, arm: Arm)
    requires Shape(s) && x !in s.pend
    ensures Shape(Place(s, x, arm))
  {
    var t := Place(s, x, arm);
    var j := InsertSlot(s.now, arm.due);
    assert x !in s.slots[j];
    assert t.slots[j] == s.slots[j] + [x];
    forall y | y in t.loc ensures t.loc[y] < 513 && y in t.slots[t.loc[y]] {
      if y == x {
        assert t.slots[j][|s.slots[j]|] == x;
      } else {
        var a :| 0 <= a < |s.slots[s.loc[y]]| && s.slots[s.loc[y]][a] == y;
        assert t.slots[s.loc[y]][a] == y;
      }
    }
  }

  lemma PlaceInOrder<Id>(s: State<Id>, x: Id, arm: Arm, k: nat)
    requires Inv(s) && x !in s.pend && Placeable(s, arm) && k < 513
    requires Shape(Place(s, x, arm))
    ensures InOrder(Place(s, x, arm).slots[k], Place(s, x, arm).pend)
  {
    var t := Place(s, x, arm);
    var q := s.slots[k];
    assert InOrder(q, s.pend);
    assert forall a | 0 <= a < |q| :: t.slots[k][a] == q[a] && q[a] != x;
    forall a, b | 0 <= a < b < |t.slots[k]| && Cohort(t.pend[t.slots[k][a]], t.pend[t.slots[k][b]])
      ensures t.pend[t.slots[k][a]].seqno < t.pend[t.slots[k][b]].seqno
    {
      if b == |q| {
        assert t.slots[k][b] == x && q[a] in s.pend;
      }
    }
  }

  /** The rest of a cohort is where the new timer goes. */
  lemma PlaceCohorts<Id>(s: State<Id>, x: Id, arm: Arm)
    requires Inv(s) && x !in s.pend && Placeable(s, arm)
    ensures var t := Place(s, x, arm);
      && (forall y | y in t.pend :: y in t.loc && t.pend[y].at <= t.now
            && (t.pend[y].at == t.now ==> t.loc[y] == InsertSlot(t.now, t.pend[y].due)))
      && (forall y, z | y in t.pend && z in t.pend && Cohort(t.pend[y], t.pend[z]) :: t.loc[y] == t.loc[z])
  {
    hide Placed, InsertSlot, InOrder, Distinct;
  }

  lemma PlaceFifo<Id>(s: State<Id>, x: Id, arm: Arm)
    requires Inv(s) && x !in s.pend && Placeable(s, arm)
    requires Shape(Place(s, x, arm))
    ensures Fifo(Place(s, x, arm))
  {
    hide Placement, Placed, InsertSlot, InOrder, Distinct, Cohort, Placeable;
    PlaceCohorts(s, x, arm);
    forall k | 0 <= k < 513 ensures InOrder(Place(s, x, arm).slots[k], Place(s, x, arm).pend) {
      PlaceInOrder(s, x, arm, k);
    }
  }

  lemma PlaceInv<Id>(s: State<Id>, x: Id, arm: Arm)
    requires Inv(s) && x !in s.pend && Placeable(s, arm)
    ensures Inv(Place(s, x, arm))
  {
    hide Placed, InsertSlot, InOrder, Distinct, Fifo;
    PlaceShape(s, x, arm);
    InsertPlaced(s.now, arm.due);
    PlaceFifo(s, x, arm);
  }

  function IndexOf<T(==)>(q: seq<T>, x: T): (i: nat)
    requires x in q
    ensures i < |q| && q[i] == x
  {
    if q[0] == x then 0 else 1 + IndexOf(q[1..], x)
  }

  function Without<T(==)>(q: seq<T>, x: T): seq<T>
    requires x in q
  {
    q[..IndexOf(q, x)] + q[IndexOf(q, x) + 1..]
  }

  ghost function Drop<Id>(s: State<Id>, x: Id): State<Id>
    requires Shape(s) && x in s.pend
  {
    var j := s.loc[x];
    s.(pend := s.pend - {x}, loc := s.loc - {x}, slots := s.slots[j := Without(s.slots[j], x)])
  }

  lemma WithoutIs<T>(q: seq<T>, x: T)
    requires x in q && Distinct(q)
    ensures x !in Without(q, x) && Distinct(Without(q, x))
    ensures forall y | y in q && y != x :: y in Without(q, x)
    ensures forall y | y in Without(q, x) :: y in q
  {
    var i := IndexOf(q, x);
    assert forall a | 0 <= a < |q| - 1 :: Without(q, x)[a] == q[if a < i then a else a + 1];
    forall y | y in q && y != x ensures y in Without(q, x) {
      var a :| 0 <= a < |q| && q[a] == y;
      assert Without(q, x)[if a > i then a - 1 else a] == y;
    }
  }

  lemma WithoutInOrder<Id>(q: seq<Id>, x: Id, pend: map<Id, Arm>)
    requires x in q && Distinct(q)
    requires forall a | 0 <= a < |q| :: q[a] in pend
    requires InOrder(q, pend)
    ensures forall a | 0 <= a < |Without(q, x)| :: Without(q, x)[a] in pend - {x}
    ensures InOrder(Without(q, x), pend - {x})
  {
    var i := IndexOf(q, x);
    var r := Without(q, x);
    assert forall a | 0 <= a < |q| - 1 :: r[a] == q[if a < i then a else a + 1] && r[a] != x;
  }

  lemma DropShape<Id>(s: State<Id>, x: Id)
    requires Shape(s) && x in s.pend
    ensures Shape(Drop(s, x))
  {
    var j := s.loc[x];
    var t := Drop(s, x);
    WithoutIs(s.slots[j], x);
    forall k, a | 0 <= k < 513 && 0 <= a < |t.slots[k]|
      ensures t.slots[k][a] in t.loc && t.loc[t.slots[k][a]] == k
    {
      assert t.slots[k][a] in s.slots[k];
    }
  }

  lemma DropInv<Id>(s: State<Id>, x: Id)
    requires Inv(s) && x in s.pend
    ensures Inv(Drop(s, x))
  {
    var t := Drop(s, x);
    DropShape(s, x);
    forall k | 0 <= k < 513 ensures InOrder(t.slots[k], t.pend) {
      assert InOrder(s.slots[k], s.pend);
      if k == s.loc[x] {
        WithoutInOrder(s.slots[k], x, s.pend);
      }
    }
  }
}
