/** In which order timers due at one tick fire.

    Lists are appended to ("Timers are FIFO", GameLib/mtimer.c:118-121), yet a timer armed late and
    straight into a low level can overtake one armed earlier that still waits in a higher level. This
    file says exactly when. */
module TimerOrder {
  import opened Common
  import opened WordTime
  import opened TimerSpec
  import opened TimerTick
  import opened TimerRun
  import opened TimerGuarantee

  /** A timer armed at `t1` overtakes one armed at `t0`, both due at `d`, past a level of the given unit:
      only the earlier one is far enough from its tick to wait in that level or above it, and it has
      not yet been cascaded out when the later one is armed. */
  predicate Overtakes(unit: nat, t0: nat, t1: nat, d: nat)
    requires unit > 0
  {
    d - t1 < unit <= d - t0 && t1 <= d / unit * unit
  }

  predicate KeepsOrder(t0: nat, t1: nat, d: nat) {
    && !Overtakes(0x100, t0, t1, d) && !Overtakes(0x4000, t0, t1, d)
    && !Overtakes(0x10_0000, t0, t1, d) && !Overtakes(0x400_0000, t0, t1, d)
  }

  /** Armed for a tick that is not beyond the reach of `tv5`. */
  predicate Near(a: Arm) {
    a.due - a.at <= 0xffff_ffff
  }

  /** May a timer armed as `a` come before one armed as `b`, being due at the same tick? */
  predicate Rule(a: Arm, b: Arm) {
    a.due == b.due && Near(a) && Near(b) ==>
      if a.at == b.at then a.seqno < b.seqno
      else if a.at < b.at then KeepsOrder(a.at, b.at, a.due)
      else !KeepsOrder(b.at, a.at, a.due)
  }

  // ----- Where a timer is -------------------------------------------------------------------

  function UnitOf(j: nat): nat {
    if j < 256 then 1 else if j < 320 then 0x100 else if j < 384 then 0x4000
    else if j < 448 then 0x10_0000 else 0x400_0000
  }

  function SlotAt(unit: nat, due: nat): nat {
    if unit == 1 then due % 256
    else if unit == 0x100 then 256 + due / 0x100 % 64
    else if unit == 0x4000 then 320 + due / 0x4000 % 64
    else if unit == 0x10_0000 then 384 + due / 0x10_0000 % 64
    else 448 + due / 0x400_0000 % 64
  }

  /** A timer below a level it was far enough to wait in has been cascaded out of it: its block there
      has begun. In a level whose cascade of this tick is over (unit below `v`) it may just have. */
  predicate Left(unit: nat, now: nat, v: nat, j: nat, a: Arm)
    requires unit > 0
  {
    UnitOf(j) < unit <= a.due - a.at ==> if unit < v then a.due / unit * unit <= now else a.due / unit * unit < now
  }

  /** What the place of a near timer says about its arming. */
  predicate Settled(now: nat, v: nat, j: nat, a: Arm) {
    || j == WORK
    || (&& j == SlotAt(UnitOf(j), a.due)
        && (j >= 256 ==> UnitOf(j) <= a.due - a.at && a.due - now < 64 * UnitOf(j))
        && Left(0x100, now, v, j, a) && Left(0x4000, now, v, j, a)
        && Left(0x10_0000, now, v, j, a) && Left(0x400_0000, now, v, j, a))
  }

  ghost predicate RuleOrder<Id>(q: seq<Id>, pend: map<Id, Arm>)
    requires forall a | 0 <= a < |q| :: q[a] in pend
  {
    forall a, b | 0 <= a < b < |q| :: Rule(pend[q[a]], pend[q[b]])
  }

  /** Every near timer is where its arming and the time put it, and every list keeps the rule. */
  ghost predicate Ordered<Id>(s: State<Id>, v: nat)
    requires Inv(s)
  {
    && (forall x | x in s.pend && Near(s.pend[x]) :: Settled(s.now, v, s.loc[x], s.pend[x]))
    && (forall j | 0 <= j < 513 :: RuleOrder(s.slots[j], s.pend))
  }

  // ----- Arithmetic -------------------------------------------------------------------------

  predicate IsUnit(unit: nat) {
    unit == 0x100 || unit == 0x4000 || unit == 0x10_0000 || unit == 0x400_0000
  }

  /** A near timer is linked in the slot of its own tick, in the highest level it is far enough for. */
  lemma InsertSettled(now: nat, v: nat, a: Arm)
    requires a.at <= now <= a.due && Near(a)
    requires forall unit: nat | IsUnit(unit) && a.due - now < unit <= a.due - a.at ::
      if unit < v then a.due / unit * unit <= now else a.due / unit * unit < now
    ensures Settled(now, v, InsertSlot(now, a.due), a)
  {
    assert IsUnit(0x100) && IsUnit(0x4000) && IsUnit(0x10_0000) && IsUnit(0x400_0000);
  }

  lemma LeftAt(unit: nat, now: nat, v: nat, j: nat, a: Arm)
    requires IsUnit(unit) && Settled(now, v, j, a) && j != WORK
    ensures Left(unit, now, v, j, a)
  {
  }

  /** The block of a timer in a slot whose block begins now begins now. */
  lemma CurrentBlock(now: nat, v: nat, j: nat, a: Arm)
    requires 256 <= j < WORK && Settled(now, v, j, a) && a.due >= now
    requires now % UnitOf(j) == 0 && j == SlotAt(UnitOf(j), now)
    ensures a.due / UnitOf(j) * UnitOf(j) == now
  {
    var u := UnitOf(j);
    SameBlock(u, now, a.due);
  }

  lemma SameBlock(unit: nat, now: nat, due: nat)
    requires IsUnit(unit) && now % unit == 0 && now <= due < now + 64 * unit
    requires due / unit % 64 == now / unit % 64
    ensures due / unit * unit == now
  {
    var q, r := now / unit, due / unit;
    if unit == 0x100 {
    } else if unit == 0x4000 {
    } else if unit == 0x10_0000 {
    } else {
    }
    assert q <= r < q + 64;
    assert r == q;
  }

  lemma BlockBegun(unit: nat, wide: nat, now: nat, due: nat)
    requires IsUnit(unit) && IsUnit(wide) && unit <= wide && now % wide == 0 && now <= due < now + unit
    ensures due / unit * unit == now
  {
    NarrowerUnit(unit, wide, now);
    var q := now / unit;
    assert now == q * unit;
    if unit == 0x100 {
    } else if unit == 0x4000 {
    } else if unit == 0x10_0000 {
    } else {
    }
    assert due / unit == q;
  }

  lemma {:induction false} NarrowerUnit(unit: nat, wide: nat, now: nat)
    requires IsUnit(unit) && IsUnit(wide) && unit <= wide && now % wide == 0
    ensures now % unit == 0
    decreases wide
  {
    if unit < wide {
      var below := if wide == 0x4000 then 0x100 else if wide == 0x10_0000 then 0x4000 else 0x10_0000;
      var k := now / wide;
      assert now == 64 * k * below;
      MultipleOf(64 * k, below);
      NarrowerUnit(unit, below, now);
    }
  }

  lemma MultipleOf(k: nat, unit: nat)
    requires IsUnit(unit)
    ensures k * unit % unit == 0
  {
    if unit == 0x100 {
    } else if unit == 0x4000 {
    } else if unit == 0x10_0000 {
    } else {
    }
  }

  /** A timer cascaded out of a slot settles again. */
  lemma RequeueSettled(now: nat, j: nat, a: Arm)
    requires 256 <= j < WORK && Near(a) && a.at <= now <= a.due
    requires now % UnitOf(j) == 0 && Settled(now, UnitOf(j), j, a)
    ensures Settled(now, 64 * UnitOf(j), InsertSlot(now, a.due), a)
  {
    hide Settled, InsertSlot;
    var u := UnitOf(j);
    forall unit: nat | IsUnit(unit) && a.due - now < unit <= a.due - a.at
      ensures if unit < 64 * u then a.due / unit * unit <= now else a.due / unit * unit < now
    {
      if unit <= u {
        BlockBegun(unit, u, now, a.due);
      } else {
        LeftAt(unit, now, u, j, a);
      }
    }
    InsertSettled(now, 64 * u, a);
  }

  lemma SettledLater(now: nat, v: nat, w: nat, j: nat, a: Arm)
    requires Settled(now, v, j, a) && v <= w
    ensures Settled(now, w, j, a)
  {
  }

  lemma SettledNextTick(now: nat, j: nat, a: Arm)
    requires Settled(now, 0x1_0000_0000, j, a)
    ensures Settled(now + 1, 0x100, j, a)
  {
  }

  /** A timer armed now may go behind a timer that settled in the slot it goes to. */
  lemma NewRule(now: nat, y: Arm, a: Arm)
    requires a.at == now <= a.due && y.at <= now && y.due == a.due && Near(y) && y.seqno < a.seqno
    requires Settled(now, 0x100, InsertSlot(now, a.due), y)
    ensures Rule(y, a)
  {
    var j := InsertSlot(now, a.due);
    if Near(a) && y.at < now {
      LeftAt(0x100, now, 0x100, j, y);
      LeftAt(0x4000, now, 0x100, j, y);
      LeftAt(0x10_0000, now, 0x100, j, y);
      LeftAt(0x400_0000, now, 0x100, j, y);
      LowUnit(now, a);
    }
  }

  lemma LowUnit(now: nat, a: Arm)
    requires now <= a.due && a.due - now <= 0xffff_ffff
    ensures InsertSlot(now, a.due) >= 256 ==> UnitOf(InsertSlot(now, a.due)) <= a.due - now
  {
  }

  /** A timer cascaded out of slot `j` may go behind a timer that settled lower. */
  lemma RequeueRule(now: nat, j: nat, l: nat, y: Arm, z: Arm)
    requires 256 <= j < WORK && l < WORK && UnitOf(l) < UnitOf(j)
    requires Near(y) && Near(z) && y.due == z.due >= now && y.at <= now && y.at != z.at
    requires Settled(now, UnitOf(j), j, z) && Settled(now, UnitOf(j), l, y)
    requires now % UnitOf(j) == 0 && j == SlotAt(UnitOf(j), now)
    ensures Rule(y, z)
  {
    CurrentBlock(now, UnitOf(j), j, z);
    LeftAt(UnitOf(j), now, UnitOf(j), l, y);
    assert y.at > z.at;
    assert Overtakes(UnitOf(j), z.at, y.at, y.due);
  }

  // ----- Linking and unlinking --------------------------------------------------------------

  /** An arming that can be linked at the end of its slot and keep the rule there. */
  ghost predicate Joins<Id>(s: State<Id>, v: nat, arm: Arm)
    requires Inv(s)
  {
    && (Near(arm) ==> Settled(s.now, v, InsertSlot(s.now, arm.due), arm))
    && forall y | y in s.pend && s.loc[y] == InsertSlot(s.now, arm.due) :: Rule(s.pend[y], arm)
  }

  lemma PlaceRule<Id>(s: State<Id>, v: nat, x: Id, arm: Arm, k: nat)
    requires Inv(s) && Ordered(s, v) && x !in s.pend && Joins(s, v, arm) && k < 513 && Shape(Place(s, x, arm))
    ensures RuleOrder(Place(s, x, arm).slots[k], Place(s, x, arm).pend)
  {
    hide Rule, Settled, InsertSlot, Placement, Fifo;
    var t := Place(s, x, arm);
    var q := s.slots[k];
    assert RuleOrder(q, s.pend);
    assert forall a | 0 <= a < |q| :: t.slots[k][a] == q[a] && q[a] != x;
    forall a, b | 0 <= a < b < |t.slots[k]| ensures Rule(t.pend[t.slots[k][a]], t.pend[t.slots[k][b]]) {
      if b == |q| {
        assert t.slots[k][b] == x && q[a] in s.pend;
      }
    }
  }

  lemma PlaceOrdered<Id>(s: State<Id>, v: nat, x: Id, arm: Arm)
    requires Inv(s) && Ordered(s, v) && x !in s.pend && Placeable(s, arm) && Joins(s, v, arm)
    ensures Inv(Place(s, x, arm)) && Ordered(Place(s, x, arm), v)
  {
    hide Rule, Settled, InsertSlot, Placement, Fifo, RuleOrder;
    PlaceInv(s, x, arm);
    forall k | 0 <= k < 513 ensures RuleOrder(Place(s, x, arm).slots[k], Place(s, x, arm).pend) {
      PlaceRule(s, v, x, arm, k);
    }
  }

  lemma WithoutRule<Id>(q: seq<Id>, x: Id, pend: map<Id, Arm>)
    requires x in q && Distinct(q)
    requires forall a | 0 <= a < |q| :: q[a] in pend
    requires RuleOrder(q, pend)
    ensures forall a | 0 <= a < |Without(q, x)| :: Without(q, x)[a] in pend - {x}
    ensures RuleOrder(Without(q, x), pend - {x})
  {
    hide Rule;
    var i := IndexOf(q, x);
    var r := Without(q, x);
    assert forall a | 0 <= a < |q| - 1 :: r[a] == q[if a < i then a else a + 1] && r[a] != x;
  }

  lemma DropOrdered<Id>(s: State<Id>, v: nat, x: Id)
    requires Inv(s) && Ordered(s, v) && x in s.pend
    ensures Inv(Drop(s, x)) && Ordered(Drop(s, x), v)
  {
    hide Rule, Settled, Placement, Fifo;
    var t := Drop(s, x);
    DropInv(s, x);
    forall k | 0 <= k < 513 ensures RuleOrder(t.slots[k], t.pend) {
      assert RuleOrder(s.slots[k], s.pend) && Distinct(s.slots[k]);
      if k == s.loc[x] {
        WithoutRule(s.slots[k], x, s.pend);
      }
    }
  }

  lemma SameOrdered<Id>(s: State<Id>, t: State<Id>, v: nat)
    requires Inv(s) && Ordered(s, v) && Inv(t)
    requires t.now == s.now && t.pend == s.pend && t.loc == s.loc && t.slots == s.slots
    ensures Ordered(t, v)
  {
    hide Rule, Settled, Placement, Fifo;
    forall k | 0 <= k < 513 ensures RuleOrder(t.slots[k], t.pend) {
      assert RuleOrder(s.slots[k], s.pend);
    }
  }

  // ----- Cascades ---------------------------------------------------------------------------

  lemma UnlinkOrdered<Id>(s: State<Id>, v: nat, w: nat, j: nat)
    requires Inv(s) && Ordered(s, v) && j < WORK && v <= w
    ensures Inv(Unlink(s, j)) && Ordered(Unlink(s, j), w)
  {
    hide Rule, Settled, Placement, Fifo;
    var t := Unlink(s, j);
    UnlinkInv(s, j);
    forall x | x in t.pend && Near(t.pend[x]) ensures Settled(t.now, w, t.loc[x], t.pend[x]) {
      SettledLater(s.now, v, w, s.loc[x], s.pend[x]);
    }
    forall k | 0 <= k < 513 ensures RuleOrder(t.slots[k], t.pend) {
      assert RuleOrder(s.slots[k], s.pend);
    }
  }

  ghost predicate AllJoin<Id>(s: State<Id>, v: nat, q: seq<Id>, arms: map<Id, Arm>)
    requires Inv(s) && forall a | 0 <= a < |q| :: q[a] in arms
  {
    RuleOrder(q, arms) && forall a | 0 <= a < |q| :: Joins(s, v, arms[q[a]])
  }

  lemma JoinStep<Id>(s: State<Id>, v: nat, q: seq<Id>, arms: map<Id, Arm>)
    requires Inv(s) && q != [] && (forall a | 0 <= a < |q| :: q[a] in arms) && AllJoin(s, v, q, arms)
    requires q[0] !in s.pend && Inv(Place(s, q[0], arms[q[0]]))
    ensures AllJoin(Place(s, q[0], arms[q[0]]), v, q[1..], arms)
  {
    hide Rule, Settled, InsertSlot, Placement, Fifo, Distinct;
    var t := Place(s, q[0], arms[q[0]]);
    var r := q[1..];
    assert forall a | 0 <= a < |r| :: r[a] == q[a + 1];
    forall a | 0 <= a < |r| ensures Joins(t, v, arms[r[a]]) {
      assert Joins(s, v, arms[q[a + 1]]);
      assert Rule(arms[q[0]], arms[q[a + 1]]);
    }
  }

  lemma {:induction false} PlaceAllOrdered<Id>(s: State<Id>, v: nat, q: seq<Id>, arms: map<Id, Arm>)
    requires Inv(s) && Ordered(s, v) && |s.slots| == 513 && Requeueable(s, q, arms)
    requires forall x | x in q :: x in arms
    requires AllJoin(s, v, q, arms)
    ensures Inv(PlaceAll(s, q, arms)) && Ordered(PlaceAll(s, q, arms), v)
    decreases |q|
  {
    hide Inv, Ordered, AllJoin, Requeueable, Placeable;
    if q != [] {
      RequeueStep(s, q, arms);
      FirstJoins(s, v, q, arms);
      PlaceOrdered(s, v, q[0], arms[q[0]]);
      JoinStep(s, v, q, arms);
      PlaceAllOrdered(Place(s, q[0], arms[q[0]]), v, q[1..], arms);
    }
  }

  lemma FirstJoins<Id>(s: State<Id>, v: nat, q: seq<Id>, arms: map<Id, Arm>)
    requires Inv(s) && q != [] && Requeueable(s, q, arms)
    requires (forall a | 0 <= a < |q| :: q[a] in arms) && AllJoin(s, v, q, arms)
    ensures q[0] !in s.pend && Placeable(s, arms[q[0]]) && Joins(s, v, arms[q[0]])
  {
    hide Inv, Joins, Placeable, RuleOrder, InOrder;
  }

  lemma LowerSlot(now: nat, j: nat, a: Arm)
    requires 256 <= j < WORK && now <= a.due < now + UnitOf(j)
    ensures UnitOf(InsertSlot(now, a.due)) < UnitOf(j)
  {
  }

  lemma DifferentSlots<Id>(s: State<Id>, y: Id, z: Id)
    requires Inv(s) && y in s.pend && z in s.pend && s.loc[y] != s.loc[z]
    ensures !Cohort(s.pend[y], s.pend[z])
  {
  }

  /** A timer of the slot to be cascaded may go where it will go. */
  lemma CascadeJoins<Id>(s: State<Id>, j: nat, z: Id)
    requires Inv(s) && 256 <= j < WORK && Ordered(s, UnitOf(j)) && z in s.pend && s.loc[z] == j
    requires s.now % UnitOf(j) == 0 && j == SlotAt(UnitOf(j), s.now)
    requires Inv(Unlink(s, j))
    ensures Joins(Unlink(s, j), 64 * UnitOf(j), s.pend[z])
  {
    hide Settled, InsertSlot, Placed, Rule, Distinct, RuleOrder;
    var a, t := s.pend[z], Unlink(s, j);
    var l := InsertSlot(s.now, a.due);
    PendingNotOverdue(s, z);
    if Near(a) {
      RequeueSettled(s.now, j, a);
      CurrentBlock(s.now, UnitOf(j), j, a);
      LowerSlot(s.now, j, a);
    }
    forall y | y in t.pend && t.loc[y] == l ensures Rule(t.pend[y], a) {
      var b := s.pend[y];
      if Near(a) && Near(b) && b.due == a.due {
        DifferentSlots(s, y, z);
        RequeueRule(s.now, j, l, b, a);
      } else {
        RuleVacuous(b, a);
      }
    }
  }

  lemma RuleVacuous(b: Arm, a: Arm)
    requires !(Near(a) && Near(b) && b.due == a.due)
    ensures Rule(b, a)
  {
  }

  lemma CascadeOrdered<Id>(s: State<Id>, j: nat)
    requires Inv(s) && 256 <= j < WORK && Ordered(s, UnitOf(j))
    requires s.now % UnitOf(j) == 0 && j == SlotAt(UnitOf(j), s.now)
    ensures Inv(Cascade(s, j)) && Ordered(Cascade(s, j), 64 * UnitOf(j))
  {
    hide Settled, Rule, Placement, Fifo, Placeable, InsertSlot;
    var t, q := Unlink(s, j), s.slots[j];
    UnlinkOrdered(s, UnitOf(j), 64 * UnitOf(j), j);
    UnlinkRequeueable(s, j);
    assert RuleOrder(q, s.pend);
    forall a | 0 <= a < |q| ensures q[a] in s.pend && Joins(t, 64 * UnitOf(j), s.pend[q[a]]) {
      CascadeJoins(s, j, q[a]);
    }
    PlaceAllOrdered(t, 64 * UnitOf(j), q, s.pend);
  }

  lemma LevelOrdered<Id>(s: State<Id>, unit: nat, base: nat)
    requires Inv(s) && IsUnit(unit) && Ordered(s, unit) && base == SlotAt(unit, 0)
    requires s.now % unit == 0 ==> Current(s.now, base + s.now / unit % 64)
    requires |s.slots| == 513 && base + 64 <= WORK
    ensures var t := CascadeLevel(s, s.now % unit == 0, base + s.now / unit % 64); Inv(t) && Ordered(t, 64 * unit)
  {
    hide Inv, Current, Cascade, Cascaded, Settled, RuleOrder;
    var j := base + s.now / unit % 64;
    if s.now % unit == 0 {
      CascadeOrdered(s, j);
    } else {
      OrderedLater(s, unit, 64 * unit);
    }
  }

  lemma OrderedLater<Id>(s: State<Id>, v: nat, w: nat)
    requires Inv(s) && Ordered(s, v) && v <= w
    ensures Ordered(s, w)
  {
    hide Settled, Rule, Placement, Fifo, RuleOrder;
    forall x | x in s.pend && Near(s.pend[x]) ensures Settled(s.now, w, s.loc[x], s.pend[x]) {
      SettledLater(s.now, v, w, s.loc[x], s.pend[x]);
    }
  }

  lemma CascadeTickOrdered<Id>(s: State<Id>)
    requires Inv(s) && Ordered(s, 0x100)
    ensures Inv(CascadeTick(s)) && Ordered(CascadeTick(s), 0x1_0000_0000)
  {
    hide Inv, Current, Cascaded, CascadeLevel, Ordered;
    CascadedSame(s);
    CurrentOfLevels(s.now);
    var s2 := CascadeLevel(s, s.now % 0x100 == 0, 256 + s.now / 0x100 % 64);
    CascadedIs(s, s2);
    LevelOrdered(s, 0x100, 256);
    var s3 := CascadeLevel(s2, s.now % 0x4000 == 0, 320 + s.now / 0x4000 % 64);
    CascadedIs(s2, s3);
    LevelOrdered(s2, 0x4000, 320);
    var s4 := CascadeLevel(s3, s.now % 0x10_0000 == 0, 384 + s.now / 0x10_0000 % 64);
    CascadedIs(s3, s4);
    LevelOrdered(s3, 0x10_0000, 384);
    LevelOrdered(s4, 0x400_0000, 448);
  }

  lemma AdvanceOrdered<Id>(s: State<Id>)
    requires Inv(s) && Ordered(s, 0x1_0000_0000) && s.slots[WORK] == [] && Inv(Advance(s))
    ensures Ordered(Advance(s), 0x100)
  {
    hide Settled, Rule, Placement, Fifo;
    var t := Advance(s);
    forall x | x in t.pend && Near(t.pend[x]) ensures Settled(t.now, 0x100, t.loc[x], t.pend[x]) {
      if t.loc[x] == WORK {
        SettledAtWork(t.now, t.pend[x]);
      } else {
        SettledNextTick(s.now, s.loc[x], s.pend[x]);
      }
    }
    forall k | 0 <= k < 513 ensures RuleOrder(t.slots[k], t.pend) {
      assert RuleOrder(s.slots[if k == WORK then s.now % 256 else k], s.pend);
    }
  }

  lemma SettledAtWork(now: nat, a: Arm)
    ensures Settled(now, 0x100, WORK, a)
  {
  }

  lemma BeginTickOrdered<Id>(s: State<Id>)
    requires Inv(s) && Ordered(s, 0x100) && |s.slots| == 513 && s.slots[WORK] == []
    ensures Ordered(BeginTick(s), 0x100)
  {
    hide Inv, Ordered, CascadeTick, Current;
    CascadeTickOrdered(s);
    CascadeTickKeeps(s);
    AdvanceInv(CascadeTick(s));
    AdvanceOrdered(CascadeTick(s));
  }

  // ----- Histories --------------------------------------------------------------------------

  /** Every timer that fired was allowed to come before all others then armed for its tick. */
  ghost predicate RuleKept<Id>(log: seq<Event<Id>>) {
    log == [] ||
    (var n := |log| - 1;
     RuleKept(log[..n]) &&
     (log[n].Fired? ==>
       var armed := Replay(log[..n]);
       log[n].x in armed && forall y | y in armed && y != log[n].x && armed[y].due == log[n].tick ::
         Rule(armed[log[n].x], armed[y])))
  }

  lemma AppendOther<Id>(log: seq<Event<Id>>, e: Event<Id>)
    requires RuleKept(log) && !e.Fired?
    ensures RuleKept(log + [e])
  {
    assert (log + [e])[..|log|] == log;
  }

  lemma AppendFired<Id>(log: seq<Event<Id>>, x: Id, tick: nat)
    requires RuleKept(log) && x in Replay(log)
    requires forall y | y in Replay(log) && y != x && Replay(log)[y].due == tick :: Rule(Replay(log)[x], Replay(log)[y])
    ensures RuleKept(log + [Fired(x, tick)])
  {
    assert (log + [Fired(x, tick)])[..|log|] == log;
  }

  /** What holds of a state between any two calls, besides the invariant. */
  ghost predicate Kept<Id>(s: State<Id>) {
    Inv(s) && Explained(s) && Ordered(s, 0x100) && RuleKept(s.log)
  }

  lemma RecordOrdered<Id>(s: State<Id>, e: Event<Id>)
    requires Inv(s) && Ordered(s, 0x100)
    ensures Inv(Record(s, e)) && Ordered(Record(s, e), 0x100)
  {
    hide Ordered;
    RecordInv(s, e);
    SameOrdered(s, Record(s, e), 0x100);
  }

  lemma NewJoins<Id>(s: State<Id>, arm: Arm)
    requires Inv(s) && Ordered(s, 0x100) && arm.at == s.now <= arm.due
    requires forall y | y in s.pend :: s.pend[y].seqno < arm.seqno
    ensures Joins(s, 0x100, arm)
  {
    hide Settled, InsertSlot, Placed, Rule, Distinct, RuleOrder;
    if Near(arm) {
      InsertSettled(s.now, 0x100, arm);
    }
    forall y | y in s.pend && s.loc[y] == InsertSlot(s.now, arm.due) ensures Rule(s.pend[y], arm) {
      var b := s.pend[y];
      if Near(arm) && Near(b) && b.due == arm.due {
        NewRule(s.now, b, arm);
      } else {
        RuleVacuous(b, arm);
      }
    }
  }

  lemma InsertKept<Id>(s: State<Id>, x: Id, expires: int)
    requires Kept(s) && x !in s.pend
    ensures Kept(Insert(s, x, expires))
  {
    hide Ordered, RuleKept, Joins, InsertSlot, Placed, Distinct, InOrder, Legal;
    var arm := ArmFor(s, expires);
    var t := Record(s, Armed(x, arm));
    RecordOrdered(s, Armed(x, arm));
    NewJoins(t, arm);
    PlaceOrdered(t, 0x100, x, arm);
    AppendOther(s.log, Armed(x, arm));
  }

  lemma DeleteKept<Id>(s: State<Id>, x: Id)
    requires Kept(s)
    ensures Kept(Delete(s, x))
  {
    hide Ordered, RuleKept, Placement, Fifo, Distinct, Legal;
    if x in s.pend {
      RecordOrdered(s, Disarmed(x));
      DropOrdered(Record(s, Disarmed(x)), 0x100, x);
      AppendOther(s.log, Disarmed(x));
    }
  }

  lemma ModifyKept<Id>(s: State<Id>, x: Id, expires: int)
    requires Kept(s)
    ensures Kept(Modify(s, x, expires))
  {
    DeleteKept(s, x);
    hide Kept, Inv, Explained, Delete, Insert;
    InsertAfterDelete(s, x, expires);
  }

  lemma InsertAfterDelete<Id>(s: State<Id>, x: Id, expires: int)
    requires Inv(s) && Explained(s) && Kept(Delete(s, x))
    ensures Kept(Insert(Delete(s, x), x, expires))
  {
    hide Inv, Explained, Delete, Insert, Ordered, RuleKept;
    InsertKept(Delete(s, x), x, expires);
  }

  /** All timers due at the tick just begun are in the work list when its first is taken. */
  lemma HeadRule<Id>(s: State<Id>, y: Id)
    requires Inv(s) && Ordered(s, 0x100) && |s.slots| == 513 && s.slots[WORK] != []
    requires y in s.pend && y != s.slots[WORK][0] && s.pend[y].due + 1 == s.now
    ensures s.slots[WORK][0] in s.pend && Rule(s.pend[s.slots[WORK][0]], s.pend[y])
  {
    hide Fifo, Settled, Rule, InsertSlot;
    assert RuleOrder(s.slots[WORK], s.pend);
    assert Placed(s.now, s.loc[y], s.pend[y].due);
    if s.loc[y] < WORK {
      PlacedNotOverdue(s.now, s.loc[y], s.pend[y].due);
    }
    assert y in s.slots[WORK];
  }

  lemma PopKept<Id>(s: State<Id>)
    requires Kept(s) && |s.slots| == 513 && s.slots[WORK] != []
    ensures Kept(Pop(s))
  {
    hide Ordered, RuleKept, Placement, Fifo, Distinct, Legal, LegalEvent, Rule;
    HeadMayFire(s);
    var x := s.slots[WORK][0];
    var e := Fired(x, s.now - 1);
    var t := Drop(Record(s, e), x);
    RecordOrdered(s, e);
    DropOrdered(Record(s, e), 0x100, x);
    forall y | y in s.pend && y != x && s.pend[y].due == s.now - 1 ensures Rule(s.pend[x], s.pend[y]) {
      HeadRule(s, y);
    }
    AppendFired(s.log, x, s.now - 1);
    SameOrdered(t, Pop(s), 0x100);
  }

  // ----- Runs -------------------------------------------------------------------------------

  lemma ApplyKept<Id>(s: State<Id>, op: Op<Id>)
    requires Kept(s)
    ensures Kept(Apply(s, op))
  {
    hide Ordered, RuleKept, Inv, Explained, Insert, Delete, Modify;
    match op
    case Add(x, w) =>
      if x !in s.pend {
        InvWord(s);
        InsertKept(s, x, Decode(s.m, s.now, w));
      }
    case Del(x) => DeleteKept(s, x);
    case Mod(x, w) =>
      InvWord(s);
      ModifyKept(s, x, Decode(s.m, s.now, w));
  }

  lemma InvWord<Id>(s: State<Id>)
    requires Inv(s)
    ensures WordModulus(s.m) && |s.slots| == 513
  {
  }

  lemma {:induction false} ApplyAllKept<Id>(s: State<Id>, ops: seq<Op<Id>>)
    requires Kept(s)
    ensures Kept(ApplyAll(s, ops))
    decreases |ops|
  {
    hide Ordered, RuleKept, Inv, Explained, Apply;
    if ops != [] {
      ApplyKept(s, ops[0]);
      ApplyAllKept(Apply(s, ops[0]), ops[1..]);
    }
  }

  lemma {:induction false} DrainKept<Id>(s: State<Id>, calls: Callbacks<Id>)
    requires Kept(s) && |s.slots| == 513
    ensures Kept(Drain(s, calls))
    decreases |s.slots[WORK]|
  {
    hide Ordered, RuleKept, Inv, Explained, Pop, ApplyAll;
    if s.slots[WORK] != [] {
      PopKept(s);
      ApplyAllKept(Pop(s), calls(s.fired));
      DrainKept(ApplyAll(Pop(s), calls(s.fired)), calls);
    }
  }

  lemma TickKept<Id>(s: State<Id>, calls: Callbacks<Id>)
    requires Idle(s) && Kept(s)
    ensures Kept(Tick(s, calls))
  {
    hide Ordered, RuleKept, Inv, Legal, BeginTick, Drain;
    InvWord(s);
    BeginTickOrdered(s);
    InvWord(BeginTick(s));
    DrainKept(BeginTick(s), calls);
  }

  lemma {:induction false} RunToKept<Id>(s: State<Id>, target: int, calls: Callbacks<Id>)
    requires Idle(s) && Kept(s)
    ensures Kept(RunTo(s, target, calls))
    decreases target + 1 - s.now
  {
    hide Idle, Kept, Tick;
    if target >= s.now {
      TickKept(s, calls);
      RunToKept(Tick(s, calls), target, calls);
    }
  }

  lemma {:induction false} ExecKept<Id>(s: State<Id>, steps: seq<Step<Id>>, calls: Callbacks<Id>)
    requires Idle(s) && Kept(s)
    ensures Kept(Exec(s, steps, calls))
    decreases |steps|
  {
    hide Kept, Inv, Explained, Apply, RunTo;
    if steps != [] {
      InvWord(s);
      match steps[0] {
        case Call(op) => ApplyKept(s, op);
        case Collect(w) => RunToKept(s, Decode(s.m, s.now, w), calls);
      }
      ExecKept(DoStep(s, steps[0], calls), steps[1..], calls);
    }
  }

  lemma InitKept<Id>(m: nat, start: nat)
    requires WordModulus(m)
    ensures Idle(Init<Id>(m, start)) && Kept(Init<Id>(m, start))
  {
    InitIdle<Id>(m, start);
  }

  // ----- The order of two firings -----------------------------------------------------------

  lemma {:induction false} RulePrefix<Id>(log: seq<Event<Id>>, n: nat)
    requires RuleKept(log) && n <= |log|
    ensures RuleKept(log[..n])
    decreases |log|
  {
    if n < |log| {
      RulePrefix(log[..|log| - 1], n);
      assert log[..|log| - 1][..n] == log[..n];
    } else {
      assert log[..n] == log;
    }
  }

  /** The timer that fires first of two that were both armed then was allowed to. */
  lemma FirstMayPrecede<Id>(log: seq<Event<Id>>, p: nat, q: nat, a: nat, b: nat)
    requires Legal(log) && RuleKept(log) && FiresAt(log, p, a) && FiresAt(log, q, b)
    requires log[p].x != log[q].x && log[p].arm.due == log[q].arm.due && a < b && q < a
    ensures Rule(log[p].arm, log[q].arm)
  {
    hide Legal, RuleKept, Rule, Cohort;
    StaysArmed(log, p, a);
    StaysArmed(log, q, a);
    RuleAt(log, a, log[q].x);
  }

  lemma RuleAt<Id>(log: seq<Event<Id>>, n: nat, y: Id)
    requires RuleKept(log) && n < |log| && log[n].Fired?
    requires y in Replay(log[..n]) && y != log[n].x && Replay(log[..n])[y].due == log[n].tick
    ensures log[n].x in Replay(log[..n]) && Rule(Replay(log[..n])[log[n].x], Replay(log[..n])[y])
  {
    RulePrefix(log, n + 1);
    assert log[..n + 1][..n] == log[..n];
  }

  lemma ArmedInTime<Id>(log: seq<Event<Id>>, p: nat, q: nat)
    requires Legal(log) && p < q < |log| && log[p].Armed? && log[q].Armed?
    ensures log[p].arm.at <= log[q].arm.at && log[p].arm.seqno == p && log[q].arm.seqno == q
  {
    hide Legal;
    LegalAt(log, p);
    LegalAt(log, q);
    LegalPrefix(log, q);
    ClockGrows(log[..q], p + 1);
    assert log[..q][..p + 1] == log[..p + 1];
    assert log[..p + 1][..p] == log[..p];
  }

  /** A firing of the earlier timer before the later one is armed is in the past when that happens. */
  lemma FiredBeforeArmed<Id>(log: seq<Event<Id>>, p: nat, q: nat, a: nat)
    requires Legal(log) && p < q < |log| && log[q].Armed? && FiresAt(log, p, a) && log[p].arm.due == log[q].arm.due
    ensures q < a && log[p].x != log[q].x
  {
    hide Legal;
    if a < q {
      assert log[..q][a] == log[a];
      LegalAt(log, q);
      LegalPrefix(log, q);
      FiredInThePast(log[..q], a);
    }
  }

  /** Of two armings for one tick, both within the reach of `tv5`, that both lead to a firing, the one
      armed first fires first exactly when the other does not overtake it past any level. */
  lemma SameTickOrder<Id>(m: nat, start: nat, steps: seq<Step<Id>>, calls: Callbacks<Id>, s: State<Id>,
                          p: nat, q: nat, a: nat, b: nat)
    requires Ends(m, start, steps, calls, s) && p < q && FiresAt(s.log, p, a) && FiresAt(s.log, q, b)
    requires s.log[p].arm.due == s.log[q].arm.due && Near(s.log[p].arm) && Near(s.log[q].arm)
    ensures a < b <==> KeepsOrder(s.log[p].arm.at, s.log[q].arm.at, s.log[p].arm.due)
  {
    hide Inv, Ordered, Legal, RuleKept, KeepsOrder;
    InitKept<Id>(m, start);
    ExecKept(Init<Id>(m, start), steps, calls);
    var log := s.log;
    ArmedInTime(log, p, q);
    FiredBeforeArmed(log, p, q, a);
    SameTimeKeeps(log[p].arm.at, log[p].arm.due);
    if a < b {
      FirstMayPrecede(log, p, q, a, b);
    } else {
      assert a != b;
      FirstMayPrecede(log, q, p, b, a);
    }
  }

  lemma SameTimeKeeps(t: nat, d: nat)
    ensures KeepsOrder(t, t, d)
  {
  }

  /** With 32-bit words every timer is near. */
  lemma NearOn32Bits<Id>(s: State<Id>, w: int)
    requires s.m == 0x1_0000_0000
    ensures Near(ArmFor(s, Decode(s.m, s.now, w)))
  {
  }

  // ----- A run in which the later timer fires first -----------------------------------------

  /** Callbacks that call nothing. */
  function Silent<Id>(): Callbacks<Id> {
    n => []
  }

  ghost predicate OnlyFirings<Id>(before: seq<Event<Id>>, after: seq<Event<Id>>) {
    before <= after && forall i | |before| <= i < |after| :: after[i].Fired?
  }

  lemma {:induction false} SilentDrain<Id>(s: State<Id>)
    requires Inv(s) && Explained(s) && |s.slots| == 513
    ensures OnlyFirings(s.log, Drain(s, Silent()).log)
    decreases |s.slots[WORK]|
  {
    hide Inv, Explained, LegalEvent;
    if s.slots[WORK] != [] {
      var t := Pop(s);
      assert ApplyAll(t, Silent<Id>()(s.fired)) == t;
      PopLogs(s);
      SilentDrain(t);
    }
  }

  lemma PopLogs<Id>(s: State<Id>)
    requires Inv(s) && Explained(s) && |s.slots| == 513 && s.slots[WORK] != []
    ensures OnlyFirings(s.log, Pop(s).log)
  {
    hide Inv, Explained;
    HeadMayFire(s);
  }

  lemma {:induction false} SilentRun<Id>(s: State<Id>, target: int)
    requires Idle(s)
    ensures OnlyFirings(s.log, RunTo(s, target, Silent()).log)
    decreases target + 1 - s.now
  {
    hide Inv, Explained, BeginTick, Drain;
    if target >= s.now {
      SilentTick(s);
      SilentRun(Tick(s, Silent()), target);
    }
  }

  lemma SilentTick<Id>(s: State<Id>)
    requires Idle(s)
    ensures OnlyFirings(s.log, Tick(s, Silent()).log)
  {
    hide Inv, Legal, BeginTick, Drain;
    InvWord(BeginTick(s));
    SilentDrain(BeginTick(s));
  }

  /** A tick at which no timer is due fires none. */
  lemma QuietTick<Id>(s: State<Id>, calls: Callbacks<Id>)
    requires Idle(s) && forall x | x in s.pend :: s.pend[x].due != s.now
    ensures Tick(s, calls).log == s.log && Tick(s, calls).pend == s.pend
  {
    hide Fifo, BeginTick, Explained, Distinct;
    var t := BeginTick(s);
    InvWord(t);
    if t.slots[WORK] != [] {
      HeadIsDue(t);
    }
  }

  lemma HeadIsDue<Id>(t: State<Id>)
    requires Inv(t) && |t.slots| == 513 && t.slots[WORK] != []
    ensures t.slots[WORK][0] in t.pend && t.pend[t.slots[WORK][0]].due + 1 == t.now
  {
    hide Fifo, Distinct;
    var x := t.slots[WORK][0];
    assert Placed(t.now, t.loc[x], t.pend[x].due);
  }

  lemma OneTick<Id>(s: State<Id>, calls: Callbacks<Id>)
    requires Idle(s)
    ensures RunTo(s, s.now, calls) == Tick(s, calls)
  {
    hide Idle, Tick;
    var t := Tick(s, calls);
    assert RunTo(t, s.now, calls) == t;
  }

  function FifoSteps(): seq<Step<nat>> {
    [Call(Add(0, 256)), Collect(0), Call(Add(1, 256)), Collect(256)]
  }

  /** What a log has to show: two timers armed for tick 256, at ticks 0 and 1, and firings after that. */
  ghost predicate TwoArmed(log: seq<Event<nat>>) {
    && |log| >= 2
    && log[0] == Armed(0, Arm(0, 256, 0)) && log[1] == Armed(1, Arm(1, 256, 1))
    && forall i | 2 <= i < |log| :: log[i].Fired?
  }

  lemma FifoRun(m: nat, s: State<nat>)
    requires Ends(m, 0, FifoSteps(), Silent(), s)
    ensures s.now == 257 && TwoArmed(s.log)
  {
    hide Inv, Explained, Tick, Insert, Decode, RunTo, Exec, Apply, Delete, Modify;
    InitIdle<nat>(m, 0);
    var s0 := Init<nat>(m, 0);
    FourSteps(s0, FifoSteps(), Silent());
    var s1 := DoStep(s0, Call(Add(0, 256)), Silent());
    FirstAdded(s0, 0, 256);
    DecodeExact(m, 0, 0);
    QuietTick(s1, Silent());
    OneTick(s1, Silent());
    var s2 := DoStep(s1, Collect(0), Silent());
    FirstAdded(s2, 1, 256);
    DecodeExact(m, 1, 256);
    var s3 := DoStep(s2, Call(Add(1, 256)), Silent());
    SilentRun(s3, 256);
  }

  /** The lists are not FIFO in general: a timer added at tick 0 and one added at tick 1, both for tick
      256, fire in the opposite order. */
  lemma FifoFails(m: nat, s: State<nat>)
    requires Ends(m, 0, FifoSteps(), Silent(), s)
    ensures TwoArmed(s.log)
    ensures exists a, b :: b < a && FiresAt(s.log, 0, a) && FiresAt(s.log, 1, b)
  {
    hide Ends, FiresAt;
    FifoRun(m, s);
    var log := s.log;
    FiresExactlyOnce(m, 0, FifoSteps(), Silent(), s, 0);
    FiresExactlyOnce(m, 0, FifoSteps(), Silent(), s, 1);
    var a :| FiresAt(log, 0, a);
    var b :| FiresAt(log, 1, b);
    assert Overtakes(0x100, 0, 1, 256);
    SameTickOrder(m, 0, FifoSteps(), Silent(), s, 0, 1, a, b);
    NotSameEvent(log, a, b);
  }

  lemma FourSteps<Id>(s: State<Id>, steps: seq<Step<Id>>, calls: Callbacks<Id>)
    requires Idle(s) && |steps| == 4
    ensures Exec(s, steps, calls) ==
      DoStep(DoStep(DoStep(DoStep(s, steps[0], calls), steps[1], calls), steps[2], calls), steps[3], calls)
  {
    hide Idle, DoStep;
    var s1 := DoStep(s, steps[0], calls);
    var s2 := DoStep(s1, steps[1], calls);
    var s3 := DoStep(s2, steps[2], calls);
    var s4 := DoStep(s3, steps[3], calls);
    OneStep(s, steps, calls);
    OneStep(s1, steps[1..], calls);
    assert steps[1..][1..] == steps[2..];
    OneStep(s2, steps[2..], calls);
    assert steps[2..][1..] == steps[3..];
    OneStep(s3, steps[3..], calls);
    assert steps[3..][1..] == [];
    assert Exec(s4, [], calls) == s4;
  }

  lemma OneStep<Id>(s: State<Id>, steps: seq<Step<Id>>, calls: Callbacks<Id>)
    requires Idle(s) && steps != []
    ensures Exec(s, steps, calls) == Exec(DoStep(s, steps[0], calls), steps[1..], calls)
  {
    hide Idle, DoStep;
  }

  lemma FirstAdded(s: State<nat>, x: nat, w: nat)
    requires Idle(s) && x !in s.pend && s.now <= w < s.now + s.m / 2
    ensures var arm := Arm(s.now, w, |s.log|);
      var t := DoStep(s, Call(Add(x, w)), Silent());
      && t.now == s.now && t.m == s.m && t.log == s.log + [Armed(x, arm)] && t.pend == s.pend[x := arm]
  {
    hide Legal, Distinct, Placed, Fifo;
    DecodeExact(s.m, s.now, w);
  }

  lemma NotSameEvent(log: seq<Event<nat>>, a: nat, b: nat)
    requires |log| >= 2 && log[0].Armed? && log[1].Armed? && log[0].x != log[1].x
    requires FiresAt(log, 0, a) && FiresAt(log, 1, b)
    ensures a != b
  {
  }
}
