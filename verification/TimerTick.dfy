/** Cascades of the timer wheel and the beginning of a tick (`cascade` and `run_stimer_list` of
    GameLib/mtimer.c). */
module TimerTick {
  import opened Common
  import opened TimerSpec

  // ----- Cascading --------------------------------------------------------------------------

  /** `list_replace_init`: slot `j` is emptied and its timers are linked nowhere for the moment. */
  ghost function Unlink<Id>(s: State<Id>, j: nat): State<Id>
    requires Inv(s) && j < 513
  {
    s.(pend := map x | x in s.pend && s.loc[x] != j :: s.pend[x],
       loc := map x | x in s.loc && s.loc[x] != j :: s.loc[x],
       slots := s.slots[j := []])
  }

  /** `internal_add_timer` on each of a list of timers, first to last. */
  function PlaceAll<Id>(s: State<Id>, q: seq<Id>, arms: map<Id, Arm>): (t: State<Id>)
    requires |s.slots| == 513 && forall x | x in q :: x in arms
    ensures |t.slots| == 513
    ensures t == s.(pend := t.pend, loc := t.loc, slots := t.slots)
    decreases |q|
  {
    if q == [] then s else PlaceAll(Place(s, q[0], arms[q[0]]), q[1..], arms)
  }

  /** `cascade` of slot `j`. */
  ghost function Cascade<Id>(s: State<Id>, j: nat): (t: State<Id>)
    requires Inv(s) && j < WORK
    ensures |t.slots| == 513
  {
    PlaceAll(Unlink(s, j), s.slots[j], s.pend)
  }

  lemma UnlinkInv<Id>(s: State<Id>, j: nat)
    requires Inv(s) && j < 513
    ensures Inv(Unlink(s, j))
  {
    var t := Unlink(s, j);
    assert forall k | 0 <= k < 513 && k != j :: t.slots[k] == s.slots[k] && InOrder(s.slots[k], s.pend);
    assert Shape(t);
    forall k | 0 <= k < 513 ensures InOrder(t.slots[k], t.pend) {
    }
  }

  /** A list of unlinked timers that can be linked again one after the other. */
  ghost predicate Requeueable<Id>(s: State<Id>, q: seq<Id>, arms: map<Id, Arm>)
    requires Shape(s)
  {
    && Distinct(q)
    && (forall a | 0 <= a < |q| :: q[a] in arms && q[a] !in s.pend && Placeable(s, arms[q[a]]))
    && InOrder(q, arms)
  }

  lemma UnlinkRequeueable<Id>(s: State<Id>, j: nat)
    requires Inv(s) && j < WORK
    ensures Shape(Unlink(s, j)) && Requeueable(Unlink(s, j), s.slots[j], s.pend)
  {
    var t := Unlink(s, j);
    var q := s.slots[j];
    UnlinkInv(s, j);
    assert Distinct(q) && InOrder(q, s.pend);
    forall a | 0 <= a < |q| ensures q[a] !in t.pend && Placeable(t, s.pend[q[a]]) {
      PlacedNotOverdue(s.now, j, s.pend[q[a]].due);
      assert s.loc[q[a]] == j;
    }
  }

  lemma RequeueStep<Id>(s: State<Id>, q: seq<Id>, arms: map<Id, Arm>)
    requires Inv(s) && q != [] && Requeueable(s, q, arms)
    ensures Inv(Place(s, q[0], arms[q[0]]))
    ensures Requeueable(Place(s, q[0], arms[q[0]]), q[1..], arms)
  {
    var t := Place(s, q[0], arms[q[0]]);
    PlaceInv(s, q[0], arms[q[0]]);
    var r := q[1..];
    assert InOrder(r, arms) by {
      assert forall a | 0 <= a < |r| :: r[a] == q[a + 1];
    }
    forall a | 0 <= a < |r| ensures r[a] in arms && r[a] !in t.pend && Placeable(t, arms[r[a]]) {
      assert r[a] == q[a + 1] && Placeable(s, arms[q[a + 1]]);
    }
  }

  /** The timers of a list that land in slot `k`, in order. */
  function Landing<Id>(now: nat, q: seq<Id>, arms: map<Id, Arm>, k: nat): seq<Id>
    requires forall x | x in q :: x in arms
  {
    if q == [] then []
    else (if InsertSlot(now, arms[q[0]].due) == k then [q[0]] else []) + Landing(now, q[1..], arms, k)
  }

  lemma {:induction false} LandingNone<Id>(now: nat, q: seq<Id>, arms: map<Id, Arm>, k: nat)
    requires forall x | x in q :: x in arms && InsertSlot(now, arms[x].due) != k
    ensures Landing(now, q, arms, k) == []
  {
    if q != [] {
      LandingNone(now, q[1..], arms, k);
    }
  }

  lemma {:induction false} PlaceAllInv<Id>(s: State<Id>, q: seq<Id>, arms: map<Id, Arm>)
    requires Inv(s) && Requeueable(s, q, arms)
    requires |s.slots| == 513 && forall x | x in q :: x in arms
    ensures Inv(PlaceAll(s, q, arms))
    ensures var t := PlaceAll(s, q, arms);
      && t == s.(pend := t.pend, loc := t.loc, slots := t.slots)
      && t.pend.Keys == s.pend.Keys + (set x | x in q)
      && (forall x | x in t.pend :: t.pend[x] == if x in q then arms[x] else s.pend[x])
    decreases |q|
  {
    hide Inv, Requeueable;
    if q != [] {
      RequeueStep(s, q, arms);
      PlaceAllInv(Place(s, q[0], arms[q[0]]), q[1..], arms);
      NotInTail(s, q, arms);
    }
  }

  lemma NotInTail<Id>(s: State<Id>, q: seq<Id>, arms: map<Id, Arm>)
    requires Inv(s) && q != [] && Requeueable(s, q, arms)
    ensures q[0] !in q[1..]
  {
  }

  lemma {:induction false} PlaceAllSlots<Id>(s: State<Id>, q: seq<Id>, arms: map<Id, Arm>, k: nat)
    requires |s.slots| == 513 && k < 513 && forall x | x in q :: x in arms
    ensures PlaceAll(s, q, arms).slots[k] == s.slots[k] + Landing(s.now, q, arms, k)
    decreases |q|
  {
    if q != [] {
      PlaceAllSlots(Place(s, q[0], arms[q[0]]), q[1..], arms, k);
    }
  }

  lemma CascadePend<Id>(s: State<Id>, j: nat)
    requires Inv(s) && j < WORK && |s.slots| == 513
    requires forall x | x in s.pend :: x in Unlink(s, j).pend || x in s.slots[j]
    ensures Inv(Cascade(s, j))
    ensures Cascade(s, j) == s.(loc := Cascade(s, j).loc, slots := Cascade(s, j).slots)
  {
    hide Inv, Requeueable;
    var t := Unlink(s, j);
    UnlinkInv(s, j);
    UnlinkRequeueable(s, j);
    PlaceAllInv(t, s.slots[j], s.pend);
    assert Cascade(s, j).pend == s.pend;
  }

  /** A cascade keeps every pending timer and its arming, touches nothing but the lists, and appends
      to each slot the timers landing there in the order they had. */
  lemma CascadeKeeps<Id>(s: State<Id>, j: nat)
    requires Inv(s) && j < WORK
    ensures Inv(Cascade(s, j))
    ensures Cascade(s, j) == s.(loc := Cascade(s, j).loc, slots := Cascade(s, j).slots)
    ensures forall k | 0 <= k < 513 ::
      Cascade(s, j).slots[k] == (if k == j then [] else s.slots[k]) + Landing(s.now, s.slots[j], s.pend, k)
  {
    var t := Unlink(s, j);
    UnlinkRequeueable(s, j);
    assert forall x | x in s.slots[j] :: x in s.pend;
    assert forall x | x in s.pend :: x in t.pend || x in s.slots[j];
    hide Inv, Landing;
    CascadePend(s, j);
    forall k | 0 <= k < 513
      ensures Cascade(s, j).slots[k] == (if k == j then [] else s.slots[k]) + Landing(s.now, s.slots[j], s.pend, k)
    {
      PlaceAllSlots(t, s.slots[j], s.pend, k);
    }
  }

  lemma PendingNotOverdue<Id>(s: State<Id>, x: Id)
    requires Inv(s) && x in s.pend && s.loc[x] < WORK
    ensures s.pend[x].due >= s.now
  {
    hide Placed, Fifo;
    PlacedNotOverdue(s.now, s.loc[x], s.pend[x].due);
  }

  lemma NoneLandsNow<Id>(s: State<Id>, j: nat, k: nat)
    requires Inv(s) && j < WORK && (k == WORK || Current(s.now, k))
    ensures Landing(s.now, s.slots[j], s.pend, k) == []
  {
    hide Current, InsertSlot, Placement, Fifo, Distinct;
    forall x | x in s.slots[j] ensures InsertSlot(s.now, s.pend[x].due) != k {
      PendingNotOverdue(s, x);
      if k != WORK {
        InsertAvoidsCurrent(s.now, s.pend[x].due);
      }
    }
    LandingNone(s.now, s.slots[j], s.pend, k);
  }

  /** The slots whose block begins now, and the work list, receive nothing from a cascade. */
  lemma CascadeAvoids<Id>(s: State<Id>, j: nat, k: nat)
    requires Inv(s) && j < WORK && (k == WORK || Current(s.now, k))
    ensures k < 513 && Cascade(s, j).slots[k] == if k == j then [] else s.slots[k]
  {
    hide Placement, Fifo, Distinct, Cascade;
    CascadeKeeps(s, j);
    NoneLandsNow(s, j, k);
  }

  // ----- One tick ---------------------------------------------------------------------------

  /** What cascading changes, and that it keeps the invariant. */
  ghost predicate Cascaded<Id>(s: State<Id>, t: State<Id>) {
    && Inv(t) && |t.slots| == |s.slots| == 513
    && t == s.(loc := t.loc, slots := t.slots)
    && t.slots[WORK] == s.slots[WORK]
    && forall k | 0 <= k < WORK && Current(s.now, k) && s.slots[k] == [] :: t.slots[k] == []
  }

  lemma CascadedThen<Id>(s: State<Id>, t: State<Id>, u: State<Id>)
    requires Cascaded(s, t) && Cascaded(t, u)
    ensures Cascaded(s, u)
  {
    hide Inv, Current;
  }

  lemma EmptyStays<Id>(s: State<Id>, t: State<Id>, k: nat)
    requires Cascaded(s, t) && k < WORK && Current(s.now, k) && |s.slots| == 513 && s.slots[k] == []
    ensures |t.slots| == 513 && t.slots[k] == []
  {
    hide Inv, Current;
  }

  lemma CascadedIs<Id>(s: State<Id>, t: State<Id>)
    requires Cascaded(s, t)
    ensures Inv(t) && |t.slots| == 513 && t.now == s.now
  {
    hide Inv, Current;
  }

  lemma CascadeCurrent<Id>(s: State<Id>, j: nat)
    requires Inv(s) && |s.slots| == 513 && j < WORK && Current(s.now, j)
    ensures Cascaded(s, Cascade(s, j)) && Cascade(s, j).slots[j] == []
  {
    hide Inv, Current, Cascade;
    CascadeKeeps(s, j);
    CascadeAvoids(s, j, WORK);
    CascadeAvoids(s, j, j);
    forall k | 0 <= k < WORK && Current(s.now, k) && s.slots[k] == []
      ensures Cascade(s, j).slots[k] == []
    {
      CascadeAvoids(s, j, k);
    }
  }

  lemma CascadedSame<Id>(s: State<Id>)
    requires Inv(s)
    ensures |s.slots| == 513 && Cascaded(s, s)
  {
    hide Current;
  }

  /** The cascade of one level: its current slot, if a block of the level begins now. */
  ghost function CascadeLevel<Id>(s: State<Id>, begins: bool, j: nat): (t: State<Id>)
    requires Inv(s) && |s.slots| == 513 && j < WORK && (begins ==> Current(s.now, j))
    ensures Cascaded(s, t) && |t.slots| == 513
    ensures begins ==> t.slots[j] == []
  {
    hide Inv, Current, Cascade, Cascaded;
    CascadedSame(s);
    if begins then
      CascadeCurrent(s, j);
      Cascade(s, j)
    else s
  }

  lemma CurrentOfLevels(now: nat)
    ensures now % 0x100 == 0 ==> Current(now, 256 + now / 0x100 % 64)
    ensures now % 0x4000 == 0 ==> Current(now, 320 + now / 0x4000 % 64)
    ensures now % 0x10_0000 == 0 ==> Current(now, 384 + now / 0x10_0000 % 64)
    ensures now % 0x400_0000 == 0 ==> Current(now, 448 + now / 0x400_0000 % 64)
    ensures forall k | Current(now, k) ::
      || (now % 0x100 == 0 && k == 256 + now / 0x100 % 64)
      || (now % 0x4000 == 0 && k == 320 + now / 0x4000 % 64)
      || (now % 0x10_0000 == 0 && k == 384 + now / 0x10_0000 % 64)
      || (now % 0x400_0000 == 0 && k == 448 + now / 0x400_0000 % 64)
  {
  }

  /** All cascades of a tick, lowest level first. */
  ghost function CascadeTick<Id>(s: State<Id>): (t: State<Id>)
    requires Inv(s)
    ensures Inv(t) && |t.slots| == 513
  {
    hide Inv, Current, Cascaded, CascadeLevel;
    CascadedSame(s);
    CurrentOfLevels(s.now);
    var s2 := CascadeLevel(s, s.now % 0x100 == 0, 256 + s.now / 0x100 % 64);
    CascadedIs(s, s2);
    var s3 := CascadeLevel(s2, s.now % 0x4000 == 0, 320 + s.now / 0x4000 % 64);
    CascadedIs(s2, s3);
    var s4 := CascadeLevel(s3, s.now % 0x10_0000 == 0, 384 + s.now / 0x10_0000 % 64);
    CascadedIs(s3, s4);
    var s5 := CascadeLevel(s4, s.now % 0x400_0000 == 0, 448 + s.now / 0x400_0000 % 64);
    CascadedIs(s4, s5);
    s5
  }

  /** After the cascades of a tick every slot whose block begins now is empty. */
  lemma CascadeTickKeeps<Id>(s: State<Id>)
    requires Inv(s)
    ensures Cascaded(s, CascadeTick(s))
    ensures forall k | 0 <= k < WORK && Current(s.now, k) :: CascadeTick(s).slots[k] == []
  {
    hide Inv, Current, Cascaded, CascadeLevel;
    CascadedSame(s);
    CurrentOfLevels(s.now);
    var s2 := CascadeLevel(s, s.now % 0x100 == 0, 256 + s.now / 0x100 % 64);
    CascadedIs(s, s2);
    var s3 := CascadeLevel(s2, s.now % 0x4000 == 0, 320 + s.now / 0x4000 % 64);
    CascadedIs(s2, s3);
    var s4 := CascadeLevel(s3, s.now % 0x10_0000 == 0, 384 + s.now / 0x10_0000 % 64);
    CascadedIs(s3, s4);
    var s5 := CascadeLevel(s4, s.now % 0x400_0000 == 0, 448 + s.now / 0x400_0000 % 64);
    CascadedThen(s3, s4, s5);
    CascadedThen(s2, s3, s5);
    CascadedThen(s, s2, s5);
    forall k | 0 <= k < WORK && Current(s.now, k) ensures s5.slots[k] == [] {
      if s.now % 0x100 == 0 && k == 256 + s.now / 0x100 % 64 {
        EmptyStays(s2, s5, k);
      } else if s.now % 0x4000 == 0 && k == 320 + s.now / 0x4000 % 64 {
        EmptyStays(s3, s5, k);
      } else if s.now % 0x10_0000 == 0 && k == 384 + s.now / 0x10_0000 % 64 {
        EmptyStays(s4, s5, k);
      }
    }
  }

  /** `++timer_jiffies`, and the slot of the tick just begun becomes the work list. */
  function Advance<Id>(s: State<Id>): (t: State<Id>)
    requires |s.slots| == 513
    ensures |t.slots| == 513
  {
    var j := s.now % 256;
    s.(now := s.now + 1,
       loc := map x | x in s.loc :: if s.loc[x] == j then WORK else s.loc[x],
       slots := s.slots[j := []][WORK := s.slots[j]])
  }

  lemma AdvanceShape<Id>(s: State<Id>)
    requires Shape(s) && s.slots[WORK] == []
    ensures Shape(Advance(s))
  {
    assert forall x | x in s.loc :: s.loc[x] != WORK;
  }

  lemma DueAtWork(due: nat)
    ensures Placed(due + 1, WORK, due)
  {
  }

  /** In `tv1` the slot of the tick holds what is due now. */
  lemma PlacedNow(now: nat, due: nat)
    requires Placed(now, now % 256, due)
    ensures due == now
  {
  }

  lemma AdvancePlaced<Id>(s: State<Id>, x: Id)
    requires Inv(s) && s.slots[WORK] == [] && x in s.pend
    requires forall k | 0 <= k < WORK && Current(s.now, k) :: s.slots[k] == []
    ensures Placed(s.now + 1, Advance(s).loc[x], s.pend[x].due)
  {
    hide Fifo, Current, Placed, Distinct;
    var j := s.loc[x];
    assert x in s.slots[j];
    if j == s.now % 256 {
      PlacedNow(s.now, s.pend[x].due);
      DueAtWork(s.now);
    } else {
      PlacedAdvance(s.now, j, s.pend[x].due);
    }
  }

  lemma AdvanceFifo<Id>(s: State<Id>)
    requires Inv(s) && s.slots[WORK] == [] && Shape(Advance(s))
    ensures Fifo(Advance(s))
  {
    hide Placement, Distinct, InsertSlot;
    var t := Advance(s);
    assert forall x | x in t.pend :: s.pend[x].at <= s.now;
    forall k | 0 <= k < 513 ensures InOrder(t.slots[k], t.pend) {
      assert InOrder(s.slots[if k == WORK then s.now % 256 else k], s.pend);
    }
  }

  lemma AdvanceInv<Id>(s: State<Id>)
    requires Inv(s) && s.slots[WORK] == []
    requires forall k | 0 <= k < WORK && Current(s.now, k) :: s.slots[k] == []
    ensures Inv(Advance(s))
  {
    hide Current, Placed, Fifo, Distinct;
    AdvanceShape(s);
    AdvanceFifo(s);
    var t := Advance(s);
    forall x | x in t.pend ensures Placed(t.now, t.loc[x], t.pend[x].due) {
      AdvancePlaced(s, x);
    }
  }

  /** The start of one turn of the loop in `run_stimer_list`, up to the work list being filled. */
  ghost function BeginTick<Id>(s: State<Id>): (t: State<Id>)
    requires Inv(s) && s.slots[WORK] == []
    ensures Inv(t) && t.now == s.now + 1
    ensures t == s.(now := t.now, loc := t.loc, slots := t.slots)
  {
    hide Inv, Current, CascadeTick;
    CascadeTickKeeps(s);
    AdvanceInv(CascadeTick(s));
    Advance(CascadeTick(s))
  }
}
