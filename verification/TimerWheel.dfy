/** The timer wheel of GameLib/mtimer.c as the program keeps it: words, linked lists, and fields that
    are updated in place. Each method is proved to do to the ghost state `s` exactly what the
    transition system of TimerSpec, TimerTick and TimerRun does. */
module TimerWheel {
  import opened Common
  import opened Division
  import opened WordTime
  import opened CList
  import opened TimerSpec
  import opened TimerTick
  import opened TimerRun
  import opened TimerGuarantee

  /** `internal_add_timer`: the slot for an expiry, in words. */
  function WordSlot(m: int, jiffies: int, expires: int): nat
    requires WordModulus(m) && 0 <= jiffies < m && 0 <= expires < m
  {
    var idx := Wrap(m, expires - jiffies);
    if idx < 0x100 then expires % 256
    else if idx < 0x4000 then 256 + expires / 0x100 % 64
    else if idx < 0x10_0000 then 320 + expires / 0x4000 % 64
    else if idx < 0x400_0000 then 384 + expires / 0x10_0000 % 64
    else if Signed(m, idx) < 0 then jiffies % 256
    else
      var capped := if idx > 0xffff_ffff then Wrap(m, 0xffff_ffff + jiffies) else expires;
      448 + capped / 0x400_0000 % 64
  }

  lemma DigitShift(w: nat, k: nat, unit: nat)
    requires unit in {0x100, 0x4000, 0x10_0000, 0x400_0000}
    ensures (w + unit * (64 * k)) / unit % 64 == w / unit % 64
    ensures (w + unit * (64 * k)) % unit == w % unit
  {
    Shift(w, unit, 64 * k);
    Shift(w / unit, 64, k);
  }

  /** Wrapping does not change the digits a slot number is made of. */
  lemma WrapKeepsDigits(m: int, x: nat)
    requires WordModulus(m)
    ensures Wrap(m, x) / 0x100 % 64 == x / 0x100 % 64 && Wrap(m, x) % 0x100 == x % 0x100
    ensures Wrap(m, x) / 0x4000 % 64 == x / 0x4000 % 64 && Wrap(m, x) % 0x4000 == x % 0x4000
    ensures Wrap(m, x) / 0x10_0000 % 64 == x / 0x10_0000 % 64 && Wrap(m, x) % 0x10_0000 == x % 0x10_0000
    ensures Wrap(m, x) / 0x400_0000 % 64 == x / 0x400_0000 % 64 && Wrap(m, x) % 0x400_0000 == x % 0x400_0000
  {
    hide Wrap;
    WrapKeepsDigit(m, x, 0x100);
    WrapKeepsDigit(m, x, 0x4000);
    WrapKeepsDigit(m, x, 0x10_0000);
    WrapKeepsDigit(m, x, 0x400_0000);
  }

  lemma WrapKeepsDigit(m: int, x: nat, unit: nat)
    requires WordModulus(m) && unit in {0x100, 0x4000, 0x10_0000, 0x400_0000}
    ensures Wrap(m, x) / unit % 64 == x / unit % 64 && Wrap(m, x) % unit == x % unit
  {
    var q := if m == 0x1_0000_0000 then x / m else x / m * 0x1_0000_0000;
    assert x == Wrap(m, x) + 0x1_0000_0000 * q by { WrapRest(m, x); }
    DigitsAbove(Wrap(m, x), q, unit);
  }

  lemma DigitsAbove(w: nat, q: nat, unit: nat)
    requires unit in {0x100, 0x4000, 0x10_0000, 0x400_0000}
    ensures (w + 0x1_0000_0000 * q) / unit % 64 == w / unit % 64
    ensures (w + 0x1_0000_0000 * q) % unit == w % unit
  {
    var k := (if unit == 0x100 then 0x4_0000 else if unit == 0x4000 then 0x1000 else
              if unit == 0x10_0000 then 0x40 else 1) * q;
    assert unit * (64 * k) == 0x1_0000_0000 * q;
    DigitShift(w, k, unit);
  }

  /** The words choose the slot the integers choose, whatever the words are. */
  lemma WordSlotExact(m: int, now: nat, expires: int)
    requires WordModulus(m) && 0 <= expires < m
    ensures WordSlot(m, Wrap(m, now), expires) == InsertSlot(now, Decode(m, now, expires))
  {
    hide Wrap;
    WrapDifference(m, expires, now);
    WordIsWrapped(m, expires);
    var e := Decode(m, now, expires);
    DecodeWraps(m, now, expires);
    WrapKeepsDigits(m, now);
    if e >= now {
      WrapKeepsDigits(m, e);
      WrapKeepsDigits(m, now + 0xffff_ffff);
      CapWraps(m, now);
    }
  }

  lemma WordIsWrapped(m: int, w: int)
    requires WordModulus(m) && 0 <= w < m
    ensures Wrap(m, w) == w
  {
  }

  lemma CapWraps(m: int, now: nat)
    requires WordModulus(m)
    ensures Wrap(m, 0xffff_ffff + Wrap(m, now)) == Wrap(m, now + 0xffff_ffff)
  {
    hide Wrap;
    WrapRest(m, now);
    WrapShift(m, Wrap(m, now) + 0xffff_ffff, now / m);
  }

  /** Overdue expiries are linked where an expiry right now is. */
  lemma SlotOfArm(m: int, now: nat, w: int, due: int)
    requires WordModulus(m) && 0 <= w < m
    requires due == if Decode(m, now, w) < now then now else Decode(m, now, w)
    ensures WordSlot(m, Wrap(m, now), w) == InsertSlot(now, due)
  {
    hide WordSlot, Decode;
    WordSlotExact(m, now, w);
  }

  /** Above `tv1` the word of a waiting timer still tells its tick. */
  lemma WordOfArm(m: int, now: nat, w: int, due: int)
    requires WordModulus(m) && 0 <= w < m
    requires due == if Decode(m, now, w) < now then now else Decode(m, now, w)
    ensures InsertSlot(now, due) >= 256 ==> w == Wrap(m, due) && due < now + m / 2
  {
    hide Decode;
    DecodeWraps(m, now, w);
  }

  lemma SlotCount<Id>(s: State<Id>)
    requires Inv(s)
    ensures |s.slots| == 513
  {
  }

  // What the methods below do, as relations between states.

  ghost predicate Inserted<Id>(s: State<Id>, x: Id, w: int, t: State<Id>) {
    Inv(s) && Explained(s) && x !in s.pend && t == Insert(s, x, Decode(s.m, s.now, w))
  }

  ghost predicate Deleted<Id>(s: State<Id>, x: Id, t: State<Id>) {
    Inv(s) && Explained(s) && t == Delete(s, x)
  }

  ghost predicate Modified<Id>(s: State<Id>, x: Id, w: int, t: State<Id>) {
    Inv(s) && Explained(s) && t == Modify(s, x, Decode(s.m, s.now, w))
  }

  ghost predicate Begun<Id>(s: State<Id>, t: State<Id>) {
    Inv(s) && |s.slots| == 513 && s.slots[WORK] == [] && t == BeginTick(s)
  }

  ghost predicate Applied<Id>(s: State<Id>, op: Op<Id>, t: State<Id>) {
    Inv(s) && Explained(s) && t == Apply(s, op)
  }

  ghost predicate AppliedAll<Id>(s: State<Id>, ops: seq<Op<Id>>, t: State<Id>) {
    Inv(s) && Explained(s) && t == ApplyAll(s, ops)
  }

  ghost predicate Popped<Id>(s: State<Id>, t: State<Id>) {
    Inv(s) && Explained(s) && |s.slots| == 513 && s.slots[WORK] != [] && t == Pop(s)
  }

  ghost predicate Drained<Id>(s: State<Id>, calls: Callbacks<Id>, t: State<Id>) {
    Inv(s) && Explained(s) && |s.slots| == 513 && t == Drain(s, calls)
  }

  ghost predicate Ticked<Id>(s: State<Id>, calls: Callbacks<Id>, t: State<Id>) {
    Idle(s) && t == Tick(s, calls)
  }

  ghost predicate Collected<Id>(s: State<Id>, w: int, calls: Callbacks<Id>, t: State<Id>) {
    Idle(s) && t == RunTo(s, Decode(s.m, s.now, w), calls)
  }

  ghost predicate Executed<Id>(s: State<Id>, steps: seq<Step<Id>>, calls: Callbacks<Id>, t: State<Id>) {
    Idle(s) && t == Exec(s, steps, calls)
  }

  lemma ExecMore<Id>(s: State<Id>, steps: seq<Step<Id>>, calls: Callbacks<Id>, t: State<Id>)
    requires Idle(s) && steps != []
    requires steps[0].Call? ==> Applied(s, steps[0].op, t)
    requires steps[0].Collect? ==> Collected(s, steps[0].jiffies, calls, t)
    ensures Idle(t) && t.m == s.m && Exec(s, steps, calls) == Exec(t, steps[1..], calls)
  {
    hide Inv, Explained, Apply, RunTo, Decode;
    assert t == DoStep(s, steps[0], calls);
  }

  lemma NextJiffies(m: int, now: nat)
    requires WordModulus(m)
    ensures Wrap(m, Wrap(m, now) + 1) == Wrap(m, now + 1)
  {
    WrapShift(m, Wrap(m, now) + 1, now / m);
    assert now == m * (now / m) + Wrap(m, now);
  }

  lemma AdvanceIs<Id>(t: State<Id>)
    requires Inv(t)
    ensures |t.slots| == 513 && t.loc.Keys == t.pend.Keys
    ensures forall x | x in t.pend && Advance(t).loc[x] != WORK :: Advance(t).loc[x] == t.loc[x]
  {
    hide Placement, Fifo;
  }

  /** `struct tvec_base`. The heads of all slot lists are numbered as in TimerSpec, the last being the
      `work_list` of `run_stimer_list`. */
  class TimerBase {
    const m: int                  // modulus of `unsigned long`
    const heads: seq<Node>
    var timerJiffies: int
    var fired: nat                // how many callbacks have been called
    ghost var s: State<Node>
    ghost var timers: set<Node>   // every timer set up for this wheel

    ghost function Links(): set<Node>
      reads `timers
    {
      (set x | x in heads) + timers
    }

    /** The heads are nodes of their own, and the timers a state knows are timers of this wheel. */
    ghost predicate Separate(t: State<Node>)
      reads `timers
    {
      && |heads| == 513 && Distinct(heads)
      && (forall x | x in heads :: x !in timers)
      && t.pend.Keys <= timers
    }

    /** Each list holds in memory what the state says it holds. */
    ghost predicate Listed(t: State<Node>)
      requires Inv(t) && Separate(t)
      reads `timers, Links()
    {
      forall j | 0 <= j < 513 :: Ring(heads[j], t.slots[j])
    }

    /** A timer waiting above `tv1` will be read as due when it is. */
    ghost predicate Readable(t: State<Node>, x: Node)
      requires Inv(t) && x in t.pend
      reads x
    {
      t.loc[x] < 256 || t.loc[x] == WORK ||
      (x.expires == Wrap(t.m, t.pend[x].due) && t.pend[x].due < t.now + t.m / 2)
    }

    /** The timers that are in no list have null links, except those of `limbo`, which a cascade has
        taken out of their list without detaching them. */
    ghost predicate Detached(t: State<Node>, limbo: set<Node>)
      reads `timers, Links()
    {
      && limbo <= timers && limbo !! t.pend.Keys
      && (forall x | x in timers :: 0 <= x.expires < m)
      && (forall x | x in timers && x !in t.pend && x !in limbo :: x.next == null)
    }

    /** Memory is as the state says, but for the timers in `stale`, whose expiry has been changed. */
    ghost predicate Holds(t: State<Node>, limbo: set<Node>, stale: set<Node>)
      reads `timers, `timerJiffies, Links()
    {
      && Inv(t) && WordModulus(m) && t.m == m && timerJiffies == Wrap(t.m, t.now)
      && Separate(t) && Listed(t) && Detached(t, limbo)
      && (forall x | x in t.pend && x !in stale :: Readable(t, x))
    }

    ghost predicate Valid()
      reads this, Links()
    {
      Holds(s, {}, {}) && Explained(s) && fired == s.fired
    }

    /** What linking or unlinking on list `j` leaves alone. */
    lemma OtherLists(t: State<Node>, j: nat, k: nat)
      requires Inv(t) && Separate(t) && j < 513 && k < 513 && j != k
      ensures |t.slots| == 513
      ensures Nodes(heads[j], t.slots[j]) !! Nodes(heads[k], t.slots[k])
    {
      hide Placement, Fifo;
    }

    lemma ListNodes(t: State<Node>, j: nat)
      requires Inv(t) && Separate(t) && j < 513
      ensures |t.slots| == 513 && Distinct(t.slots[j]) && heads[j] !in t.slots[j]
      ensures Nodes(heads[j], t.slots[j]) <= Links()
      ensures forall x | x in t.slots[j] :: x in t.pend
    {
      hide Placement, Fifo;
      assert Distinct(t.slots[j]);
    }

    /** `list_add_tail` on list `j`; the other lists are not touched. */
    method LinkTail(x: Node, j: nat, ghost t: State<Node>)
      requires Inv(t) && Separate(t) && Listed(t) && x in timers && x !in t.pend && j < WORK
      modifies Links()`next, Links()`prev
      ensures |t.slots| == 513 && Ring(heads[j], t.slots[j] + [x])
      ensures forall k | 0 <= k < 513 && k != j :: Ring(heads[k], t.slots[k])
      ensures forall y | y in timers && y !in t.pend && y != x :: y.next == old(y.next)
    {
      hide Ring, Inv;
      ListNodes(t, j);
      forall k | 0 <= k < 513 && k != j
        ensures Nodes(heads[j], t.slots[j] + [x]) !! Nodes(heads[k], t.slots[k])
      {
        OtherLists(t, j, k);
        ListNodes(t, k);
      }
      ListAddTail(x, heads[j], t.slots[j]);
    }

    /** `list_del` of a timer that is linked; the other lists are not touched. */
    method Unlinked(x: Node, ghost t: State<Node>)
      requires Inv(t) && Shape(t) && Separate(t) && Listed(t) && x in t.pend
      modifies Links()`next, Links()`prev
      ensures x.next == null && Ring(heads[t.loc[x]], Without(t.slots[t.loc[x]], x))
      ensures forall k | 0 <= k < 513 && k != t.loc[x] :: Ring(heads[k], t.slots[k])
      ensures forall y | y in timers && y !in t.pend :: y.next == old(y.next)
    {
      hide Ring, Inv;
      ghost var j := t.loc[x];
      ListNodes(t, j);
      forall k | 0 <= k < 513 && k != j
        ensures Nodes(heads[j], t.slots[j]) !! Nodes(heads[k], t.slots[k])
      {
        OtherLists(t, j, k);
      }
      ListDel(x, heads[j], t.slots[j], IndexOf(t.slots[j], x));
    }

    // Each of the following has one side in memory and one in the state; that the two agree again
    // is said by `Holds` of the new state.

    /** `internal_add_timer`, of an arming that is now or was earlier asked for. */
    method InternalAdd(x: Node, ghost arm: Arm, ghost t: State<Node>, ghost limbo: set<Node>)
      requires Holds(t, limbo, {}) && Shape(t) && x in timers && x !in t.pend && Placeable(t, arm)
      requires var e := Decode(t.m, t.now, x.expires); arm.due == if e < t.now then t.now else e
      modifies Links()`next, Links()`prev
      ensures |t.slots| == 513 && Holds(Place(t, x, arm), limbo - {x}, {})
      ensures forall y | y in timers && y !in t.pend && y != x :: y.next == old(y.next)
    {
      hide Ring, InsertSlot, Placeable, WordSlot, Inv, Decode;
      var j := WordSlot(m, timerJiffies, x.expires);
      SlotOfArm(m, t.now, x.expires, arm.due);
      WordOfArm(m, t.now, x.expires, arm.due);
      PlaceInv(t, x, arm);
      LinkTail(x, j, t);
    }

    /** `detach_slowtimer` of a timer that is linked. */
    method Detach(x: Node, ghost t: State<Node>, ghost stale: set<Node>)
      requires Holds(t, {}, stale) && stale <= {x} && Shape(t) && x in t.pend
      modifies Links()`next, Links()`prev
      ensures Holds(Drop(t, x), {}, {})
    {
      hide Ring, Inv;
      DropInv(t, x);
      Unlinked(x, t);
    }

    lemma HoldsIs(t: State<Node>, limbo: set<Node>, stale: set<Node>)
      requires Holds(t, limbo, stale)
      ensures Inv(t) && Shape(t) && |t.slots| == 513 && t.m == m && WordModulus(m)
      ensures t.pend.Keys <= timers && forall x | x in timers :: 0 <= x.expires < m
    {
      hide Ring, Placement, Fifo, Distinct;
    }

    lemma HoldsRecord(t: State<Node>, e: Event<Node>, limbo: set<Node>, stale: set<Node>)
      requires Holds(t, limbo, stale)
      ensures Holds(Record(t, e), limbo, stale)
    {
      hide Ring, Inv;
      SlotCount(t);
      RecordInv(t, e);
    }

    /** `stimer_pending`: the links of a timer are null exactly when it is not pending. */
    lemma LinkedIffPending(x: Node, t: State<Node>, stale: set<Node>)
      requires Holds(t, {}, stale) && x in timers
      ensures x.next != null <==> x in t.pend
    {
      hide Placement, Fifo;
      if x in t.pend {
        var q := t.slots[t.loc[x]];
        assert Ring(heads[t.loc[x]], q);
        var i :| 0 <= i < |q| && q[i] == x;
        Neighbours(heads[t.loc[x]], q, i);
      }
    }

    lemma Settled(x: Node, t: State<Node>, stale: set<Node>)
      requires Holds(t, {}, stale) && stale <= {x} && x !in t.pend
      ensures Holds(t, {}, {})
    {
      hide Inv, Ring;
    }

    lemma ValidIs()
      requires Valid()
      ensures Holds(s, {}, {}) && Explained(s) && fired == s.fired
    {
      hide Holds, Explained;
    }

    lemma IsValid()
      requires Holds(s, {}, {}) && Explained(s) && fired == s.fired
      ensures Valid()
    {
      hide Holds, Explained;
    }

    method StimerPending(x: Node) returns (pending: bool)
      requires Valid() && x in timers
      ensures pending <==> x in s.pend
    {
      LinkedIffPending(x, s, {});
      pending := x.next != null;
    }

    /** `stimer_add`, of a timer that is not pending. */
    method StimerAdd(x: Node)
      requires Valid() && x in timers && x !in s.pend
      modifies `s, Links()`next, Links()`prev
      ensures Valid() && Inserted(old(s), x, x.expires, s)
    {
      hide Inv, Explained, Placeable, InsertSlot, Decode, Holds, Valid, Links, Shape;
      ValidIs();
      HoldsIs(s, {}, {});
      ghost var arm := ArmFor(s, Decode(m, s.now, x.expires));
      ghost var t := Record(s, Armed(x, arm));
      InsertReady(s, x, arm);
      InsertKeeps(s, x, Decode(m, s.now, x.expires));
      HoldsRecord(s, Armed(x, arm), {}, {});
      HoldsIs(t, {}, {});
      InternalAdd(x, arm, t, {});
      assert {} - {x} == {};
      s := Place(t, x, arm);
      IsValid();
    }

    /** `stimer_del`: returns whether the timer was pending. */
    method StimerDel(x: Node, ghost stale: set<Node>) returns (ret: bool)
      requires Holds(s, {}, stale) && Explained(s) && x in timers && stale <= {x}
      modifies `s, Links()`next, Links()`prev
      ensures Holds(s, {}, {}) && Explained(s) && Deleted(old(s), x, s) && ret == (x in old(s.pend))
    {
      hide Inv, Legal, Holds, Links, Shape;
      HoldsIs(s, {}, stale);
      LinkedIffPending(x, s, stale);
      ret := x.next != null;
      if ret {
        ghost var t := Record(s, Disarmed(x));
        DisarmingClock(s.log, x);
        DropKeeps(s, x, Disarmed(x));
        HoldsRecord(s, Disarmed(x), {}, stale);
        HoldsIs(t, {}, stale);
        Detach(x, t, stale);
        s := Drop(t, x);
      } else {
        Settled(x, s, stale);
      }
    }

    /** `stimer_mod`: the expiry is overwritten first, while the timer may still be linked. */
    method StimerMod(x: Node, expires: int)
      requires Valid() && x in timers && 0 <= expires < m
      modifies `s, Links()`next, Links()`prev, x`expires
      ensures Valid() && Modified(old(s), x, expires, s)
    {
      hide Inv, Explained, Placeable, InsertSlot, Decode, Holds, Valid, Links, Shape;
      ValidIs();
      SetExpires(x, expires);
      var ret := StimerDel(x, {x});
      HoldsIs(s, {}, {});
      ghost var arm := ArmFor(s, Decode(m, s.now, expires));
      ghost var t := Record(s, Armed(x, arm));
      InsertReady(s, x, arm);
      InsertKeeps(s, x, Decode(m, s.now, expires));
      HoldsRecord(s, Armed(x, arm), {}, {});
      HoldsIs(t, {}, {});
      InternalAdd(x, arm, t, {});
      assert {} - {x} == {};
      s := Place(t, x, arm);
      IsValid();
    }

    method SetExpires(x: Node, expires: int)
      requires Holds(s, {}, {}) && x in timers && 0 <= expires < m
      modifies x`expires
      ensures Holds(s, {}, {x}) && x.expires == expires
    {
      hide Inv;
      SlotCount(s);
      x.expires := expires;
    }

    /** `list_replace_init` of slot `j`, for a cascade: its timers are on a list of their own. */
    method TakeSlot(j: nat, list: Node, ghost t: State<Node>)
      requires Holds(t, {}, {}) && j < WORK && |t.slots| == 513
      requires list !in Links()
      modifies Links()`next, Links()`prev, list`next, list`prev
      ensures Inv(t) && Ring(list, t.slots[j])
      ensures Holds(Unlink(t, j), set x | x in t.slots[j], {})
    {
      hide Ring, Inv;
      ListNodes(t, j);
      forall k | 0 <= k < 513 && k != j
        ensures Nodes(heads[j], t.slots[j] + [list]) !! Nodes(heads[k], t.slots[k])
      {
        OtherLists(t, j, k);
        ListNodes(t, k);
      }
      UnlinkInv(t, j);
      UnlinkIs(t, j);
      ListReplaceInit(heads[j], list, t.slots[j]);
    }

    lemma ListReadable(t: State<Node>, j: nat)
      requires Holds(t, {}, {}) && 256 <= j < WORK
      ensures |t.slots| == 513
      ensures forall x | x in t.slots[j] :: x in t.pend && x in timers
      ensures forall x | x in t.slots[j] :: Decode(t.m, t.now, x.expires) == t.pend[x].due >= t.now
    {
      hide Ring, Fifo, Decode, Distinct;
      forall x | x in t.slots[j] ensures Decode(t.m, t.now, x.expires) == t.pend[x].due >= t.now {
        PlacedNotOverdue(t.now, t.loc[x], t.pend[x].due);
        assert Readable(t, x);
        DecodeExact(t.m, t.now, t.pend[x].due);
      }
    }

    /** The walk over a list taken off its slot, reading the next timer before the current one is
        linked elsewhere. */
    method Requeue(list: Node, ghost q: seq<Node>, ghost t: State<Node>, ghost arms: map<Node, Arm>)
      requires Ring(list, q) && list !in Links()
      requires Holds(t, set x | x in q, {}) && Shape(t) && Requeueable(t, q, arms)
      requires forall x | x in q :: x in arms && x in timers
      requires forall x | x in q :: Decode(t.m, t.now, x.expires) == arms[x].due >= t.now
      modifies Links()`next, Links()`prev
      ensures |t.slots| == 513 && Holds(PlaceAll(t, q, arms), {}, {})
    {
      hide Ring, Inv, Holds, Requeueable, Placeable, InsertSlot, Decode, Shape, Place, PlaceAll, Distinct;
      HoldsIs(t, set x | x in q, {});
      RingWalk(list, q);
      PlaceAllIs(t, q, arms);
      var timer: Node := list.next;
      var tmp: Node? := timer.next;
      ghost var rem, u := q, t;
      while timer != list
        invariant list !in rem && (forall x | x in rem :: x in q) && list.next != null
        invariant timer == Follow(rem, 0, list) && (rem != [] ==> tmp == Follow(rem, 1, list))
        invariant Chain(rem, list)
        invariant Holds(u, set x | x in rem, {}) && Shape(u) && Requeueable(u, rem, arms)
        invariant |u.slots| == 513 && u.now == t.now && u.m == t.m
        invariant PlaceAll(u, rem, arms) == PlaceAll(t, q, arms)
        decreases |rem|
      {
        HoldsIs(u, set x | x in rem, {});
        RequeueFacts(u, rem, arms);
        RequeueStep(u, rem, arms);
        ChainRest(rem, list);
        InternalAdd(timer, arms[timer], u, set x | x in rem);
        RestIs(rem);
        assert forall x | x in rem[1..] :: x in rem;
        ChainHead(rem[1..], list);
        PlaceAllIs(u, rem, arms);
        u := Place(u, timer, arms[timer]);
        HoldsIs(u, set x | x in rem[1..], {});
        timer := tmp;
        tmp := tmp.next;
        rem := rem[1..];
      }
      PlaceAllIs(u, rem, arms);
      assert (set x | x in rem) == {};
    }

    /** `cascade`. */
    method CascadeSlot(base: nat, index: nat, ghost t: State<Node>) returns (r: nat)
      requires Holds(t, {}, {}) && 256 <= base && base + 64 <= WORK && index < 64
      modifies Links()`next, Links()`prev
      ensures r == index && Inv(t) && Holds(Cascade(t, base + index), {}, {})
    {
      hide Ring, Inv, Holds, Requeueable, Decode, Shape;
      HoldsIs(t, {}, {});
      ghost var j, q := base + index, t.slots[base + index];
      ListReadable(t, j);
      UnlinkRequeueable(t, j);
      var tvList := new Node();
      assert Holds(t, {}, {}) && tvList !in Links();
      TakeSlot(base + index, tvList, t);
      Requeue(tvList, q, Unlink(t, j), t.pend);
      r := index;
    }

    /** `INDEX(n)` and the chain of cascades: a level is cascaded when the one below it has come
        round to its slot 0. */
    method CascadeChain(index: nat)
      requires Holds(s, {}, {}) && Inv(s) && index == timerJiffies % 256
      modifies Links()`next, Links()`prev
      ensures Holds(CascadeTick(s), {}, {})
    {
      hide Ring, Inv, Holds, Cascade, Shape, Current;
      HoldsIs(s, {}, {});
      ghost var now := s.now;
      JiffiesIs(s);
      WrapKeepsDigits(m, now);
      RoundOfLevels(now);
      if index == 0 {
        var i := CascadeSlot(256, timerJiffies / 0x100 % 64, s);
        ghost var t := Cascade(s, 256 + i);
        HoldsIs(t, {}, {});
        if i == 0 {
          i := CascadeSlot(320, timerJiffies / 0x4000 % 64, t);
          t := Cascade(t, 320 + i);
          HoldsIs(t, {}, {});
          if i == 0 {
            i := CascadeSlot(384, timerJiffies / 0x10_0000 % 64, t);
            t := Cascade(t, 384 + i);
            HoldsIs(t, {}, {});
            if i == 0 {
              i := CascadeSlot(448, timerJiffies / 0x400_0000 % 64, t);
            }
          }
        }
      }
    }

    lemma JiffiesIs(t: State<Node>)
      requires Holds(t, {}, {})
      ensures WordModulus(m) && timerJiffies == Wrap(m, t.now)
    {
      hide Ring, Inv;
    }

    /** `list_replace_init` of a slot into the work list; the other lists are not touched. */
    method MoveToWork(index: nat, ghost t: State<Node>)
      requires Inv(t) && Separate(t) && Listed(t) && index < WORK && |t.slots| == 513 && t.slots[WORK] == []
      modifies Links()`next, Links()`prev
      ensures Ring(heads[WORK], t.slots[index]) && Ring(heads[index], [])
      ensures forall k | 0 <= k < WORK && k != index :: Ring(heads[k], t.slots[k])
      ensures forall x | x in timers && x !in t.pend :: x.next == old(x.next)
    {
      hide Ring, Inv;
      ListNodes(t, index);
      ListNodes(t, WORK);
      OtherLists(t, index, WORK);
      forall k | 0 <= k < WORK && k != index
        ensures Nodes(heads[index], t.slots[index] + [heads[WORK]]) !! Nodes(heads[k], t.slots[k])
      {
        OtherLists(t, index, k);
        OtherLists(t, WORK, k);
      }
      ListReplaceInit(heads[index], heads[WORK], t.slots[index]);
    }

    /** `++timer_jiffies`, and the slot of the tick becomes the work list. */
    method TakeTick(index: nat, ghost t: State<Node>)
      requires Holds(t, {}, {}) && index == t.now % 256 && |t.slots| == 513 && t.slots[WORK] == []
      requires Inv(Advance(t))
      modifies `timerJiffies, Links()`next, Links()`prev
      ensures Holds(Advance(t), {}, {})
    {
      hide Ring, Inv;
      AdvanceIs(t);
      NextJiffies(m, t.now);
      timerJiffies := Wrap(m, timerJiffies + 1);
      MoveToWork(index, t);
    }

    /** One turn of the loop of `run_stimer_list`, up to the work list. */
    method StartTick()
      requires Holds(s, {}, {}) && Explained(s) && |s.slots| == 513 && s.slots[WORK] == []
      modifies `s, `timerJiffies, Links()`next, Links()`prev
      ensures Holds(s, {}, {}) && Begun(old(s), s)
    {
      hide Ring, Inv, Holds, Current, CascadeTick, Links, Shape, Explained;
      HoldsIs(s, {}, {});
      JiffiesIs(s);
      WrapKeepsDigits(m, s.now);
      var index := timerJiffies % 256;
      ghost var t := CascadeTick(s);
      CascadeChain(index);
      CascadeTickKeeps(s);
      AdvanceInv(t);
      TakeTick(index, t);
      s := Advance(t);
    }

    /** A call that may be made: on a timer of this wheel, with a word. */
    ghost predicate Callable(op: Op<Node>)
      reads `timers
    {
      op.x in timers && (op.Del? || 0 <= op.expires < m)
    }

    /** One call made by a callback or by the program. A timer to be added has its expiry set first. */
    method Do(op: Op<Node>)
      requires Valid() && Callable(op)
      modifies `s, Links()`next, Links()`prev, timers`expires
      ensures Valid() && Applied(old(s), op, s)
    {
      hide Inv, Explained, Holds, Valid, Links;
      ValidIs();
      HoldsIs(s, {}, {});
      match op {
        case Add(x, w) =>
          LinkedIffPending(x, s, {});
          if x.next == null {
            SetExpires(x, w);
            Settled(x, s, {x});
            IsValid();
            StimerAdd(x);
          }
        case Del(x) =>
          var ret := StimerDel(x, {});
          IsValid();
        case Mod(x, w) =>
          StimerMod(x, w);
      }
    }

    method Callback(ops: seq<Op<Node>>)
      requires Valid() && forall op | op in ops :: Callable(op)
      modifies `s, Links()`next, Links()`prev, timers`expires
      ensures Valid() && AppliedAll(old(s), ops, s)
    {
      hide Inv, Explained, Holds, Valid, Links;
      ValidIs();
      HoldsIs(s, {}, {});
      var i := 0;
      assert ops[0..] == ops;
      while i < |ops|
        invariant i <= |ops| && Valid() && Inv(s) && Explained(s)
        invariant ApplyAll(s, ops[i..]) == ApplyAll(old(s), ops)
      {
        Do(ops[i]);
        ValidIs();
        HoldsIs(s, {}, {});
        assert ops[i..][0] == ops[i] && ops[i..][1..] == ops[i + 1..];
        i := i + 1;
      }
      assert ops[i..] == [];
    }

    /** `list_empty` and `list_first_entry` of the work list. */
    lemma WorkHead(t: State<Node>)
      requires Holds(t, {}, {}) && |t.slots| == 513
      ensures |heads| == 513
      ensures heads[WORK].next == heads[WORK] <==> t.slots[WORK] == []
      ensures t.slots[WORK] != [] ==> heads[WORK].next == t.slots[WORK][0]
    {
      hide Placement, Fifo;
      assert Ring(heads[WORK], t.slots[WORK]);
    }

    /** The first timer of the work list is detached, about to be called. */
    method FireHead()
      requires Valid() && Inv(s) && |s.slots| == 513 && s.slots[WORK] != []
      modifies `s, `fired, Links()`next, Links()`prev
      ensures Valid() && Popped(old(s), s)
    {
      hide Inv, Explained, Holds, Valid, Links, Shape, LegalEvent;
      ValidIs();
      HoldsIs(s, {}, {});
      WorkHead(s);
      HeadMayFire(s);
      var timer: Node := heads[WORK].next;
      ghost var e := Fired(timer, s.now - 1);
      ghost var t := Record(s, e);
      DropKeeps(s, timer, e);
      HoldsRecord(s, e, {}, {});
      HoldsIs(t, {}, {});
      Detach(timer, t, {});
      CountKeeps(Drop(t, timer), s.fired + 1);
      HoldsCount(Drop(t, timer), s.fired + 1);
      fired := fired + 1;
      s := Drop(t, timer).(fired := s.fired + 1);
      IsValid();
    }

    lemma HoldsCount(t: State<Node>, n: nat)
      requires Holds(t, {}, {})
      ensures Holds(t.(fired := n), {}, {})
    {
      hide Ring, Placed, Distinct, InsertSlot;
      forall k | 0 <= k < 513 ensures InOrder(t.slots[k], t.pend) {
      }
    }

    /** The calls that callbacks make are calls that may be made. */
    ghost predicate CallbacksCallable(calls: Callbacks<Node>)
      reads `timers
    {
      forall n: nat :: forall i | 0 <= i < |calls(n)| :: Callable(calls(n)[i])
    }

    /** The inner loop of `run_stimer_list`. */
    method DrainWork(calls: Callbacks<Node>)
      requires Valid() && CallbacksCallable(calls)
      modifies `s, `fired, Links()`next, Links()`prev, timers`expires
      ensures Valid() && Drained(old(s), calls, s)
    {
      hide Inv, Explained, Holds, Valid, Links, Callable, Drain, Pop, ApplyAll;
      ValidIs();
      HoldsIs(s, {}, {});
      WorkHead(s);
      while heads[WORK].next != heads[WORK]
        invariant Valid() && Inv(s) && Explained(s) && |s.slots| == 513 && |heads| == 513
        invariant heads[WORK].next == heads[WORK] <==> s.slots[WORK] == []
        invariant Drain(s, calls) == Drain(old(s), calls)
        decreases |s.slots[WORK]|
      {
        var n := fired;
        FiredIs();
        DrainIs(s, calls);
        FireHead();
        Callback(calls(n));
        ValidIs();
        HoldsIs(s, {}, {});
        WorkHead(s);
      }
      DrainIs(s, calls);
    }

    lemma DrainIs(t: State<Node>, calls: Callbacks<Node>)
      requires Inv(t) && Explained(t) && |t.slots| == 513
      ensures t.slots[WORK] == [] ==> Drain(t, calls) == t
      ensures t.slots[WORK] != [] ==> Drain(t, calls) == Drain(ApplyAll(Pop(t), calls(t.fired)), calls)
    {
      hide Inv, Explained;
    }

    lemma FiredIs()
      requires Valid()
      ensures fired == s.fired
    {
      hide Holds, Explained;
    }

    /** `run_stimer_list`. */
    method RunTimerList(jiffies: int, calls: Callbacks<Node>)
      requires Valid() && Idle(s) && 0 <= jiffies < m && CallbacksCallable(calls)
      modifies `s, `timerJiffies, `fired, Links()`next, Links()`prev, timers`expires
      ensures Valid() && Collected(old(s), jiffies, calls, s)
    {
      hide Inv, Explained, Holds, Valid, Links, Callable, CallbacksCallable, TimeAfterEq, Tick;
      ValidIs();
      HoldsIs(s, {}, {});
      ghost var target := Decode(m, s.now, jiffies);
      JiffiesIs(s);
      TimeReached(m, s.now, s.now, jiffies);
      while TimeAfterEq(m, jiffies, timerJiffies)
        invariant Valid() && Idle(s) && WordModulus(m) && s.m == m
        invariant old(s.now) <= s.now && (target < old(s.now) ==> s.now == old(s.now))
        invariant target >= old(s.now) ==> s.now <= target + 1
        invariant TimeAfterEq(m, jiffies, timerJiffies) <==> s.now <= target
        invariant RunTo(s, target, calls) == RunTo(old(s), target, calls)
        decreases target + 1 - s.now
      {
        TickOnce(calls);
        ValidIs();
        HoldsIs(s, {}, {});
        JiffiesIs(s);
        TimeReached(m, old(s.now), s.now, jiffies);
      }
    }

    method TickOnce(calls: Callbacks<Node>)
      requires Valid() && Idle(s) && CallbacksCallable(calls)
      modifies `s, `timerJiffies, `fired, Links()`next, Links()`prev, timers`expires
      ensures Valid() && Ticked(old(s), calls, s)
    {
      hide Inv, Legal, Holds, Valid, Links, Callable, CallbacksCallable, CascadeTick, Advance;
      ValidIs();
      StartTick();
      IsValid();
      DrainWork(calls);
    }

    /** `stimer_init`: all lists empty at the given time. */
    constructor (m: int, jiffies: int)
      requires WordModulus(m) && 0 <= jiffies < m
      ensures Valid() && s == Init(m, jiffies) && this.m == m
      ensures fresh(Links()) && timers == {}
    {
      var hs: seq<Node> := MakeHeads(513);
      this.m := m;
      heads := hs;
      timerJiffies := jiffies;
      fired := 0;
      s := Init(m, jiffies);
      timers := {};
      new;
      InitIdle<Node>(m, jiffies);
      assert Wrap(m, jiffies) == jiffies;
    }

    /** `stimer_set`: a timer becomes one of this wheel, not pending. */
    method StimerSet(x: Node, expires: int)
      requires Valid() && x !in Links() && 0 <= expires < m
      modifies `timers, x
      ensures Valid() && timers == old(timers) + {x} && x !in s.pend && x.expires == expires
    {
      hide Inv, Ring, Explained;
      forall j | 0 <= j < 513 ensures |s.slots| == 513 && x !in Nodes(heads[j], s.slots[j]) {
        ListNodes(s, j);
      }
      x.next, x.prev, x.expires := null, null, expires;
      timers := timers + {x};
    }

    ghost predicate StepCallable(step: Step<Node>)
      reads `timers
    {
      match step
      case Call(op) => Callable(op)
      case Collect(w) => 0 <= w < m
    }

    /** A program that uses the wheel: any calls and collections, one after the other. */
    method Execute(steps: seq<Step<Node>>, calls: Callbacks<Node>)
      requires Valid() && Idle(s) && CallbacksCallable(calls) && forall step | step in steps :: StepCallable(step)
      modifies `s, `timerJiffies, `fired, Links()`next, Links()`prev, timers`expires
      ensures Valid() && Executed(old(s), steps, calls, s)
    {
      hide Idle, Exec, Holds, Valid, Links, Callable, CallbacksCallable, Applied, Collected;
      var i := 0;
      assert steps[0..] == steps;
      while i < |steps|
        invariant i <= |steps| && Valid() && Idle(s)
        invariant Exec(s, steps[i..], calls) == Exec(old(s), steps, calls)
      {
        ghost var before := s;
        assert steps[i] in steps;
        match steps[i] {
          case Call(op) => Do(op);
          case Collect(w) => RunTimerList(w, calls);
        }
        ExecMore(before, steps[i..], calls, s);
        assert steps[i..][1..] == steps[i + 1..];
        i := i + 1;
      }
      assert steps[i..] == [];
      ExecNone(s, calls);
    }

    lemma ExecNone(t: State<Node>, calls: Callbacks<Node>)
      requires Idle(t)
      ensures Exec(t, [], calls) == t
    {
      hide Idle;
    }
  }

  /** What an operation of a program may be, given the timers that have been set up. */
  predicate OfTimers(op: Op<Node>, timers: seq<Node>, m: int) {
    op.x in timers && (op.Del? || 0 <= op.expires < m)
  }

  predicate StepOfTimers(step: Step<Node>, timers: seq<Node>, m: int) {
    match step
    case Call(op) => OfTimers(op, timers, m)
    case Collect(w) => 0 <= w < m
  }

  lemma SameCallable(base: TimerBase, timers: seq<Node>, steps: seq<Step<Node>>, calls: Callbacks<Node>)
    requires base.timers == set x | x in timers
    requires forall step | step in steps :: StepOfTimers(step, timers, base.m)
    requires forall n: nat :: forall i | 0 <= i < |calls(n)| :: OfTimers(calls(n)[i], timers, base.m)
    ensures base.CallbacksCallable(calls) && forall step | step in steps :: base.StepCallable(step)
  {
  }

  lemma OneMore(before: seq<Node>, x: Node)
    ensures (set y | y in before + [x]) == (set y | y in before) + {x}
  {
  }

  lemma NotYet(timers: seq<Node>, i: nat)
    requires i < |timers| && Distinct(timers)
    ensures timers[i] !in timers[..i]
  {
  }

  /** `stimer_init`, and `stimer_set` of some timers. */
  method SetUp(m: int, jiffies: int, timers: seq<Node>) returns (base: TimerBase)
    requires WordModulus(m) && 0 <= jiffies < m && Distinct(timers)
    modifies timers
    ensures fresh(base) && fresh(set x | x in base.heads)
    ensures base.Valid() && base.s == Init(m, jiffies) && base.m == m && base.timers == set x | x in timers
  {
    base := new TimerBase(m, jiffies);
    assert timers[..|timers|] == timers;
    var i := 0;
    hide Init, TimerBase.Valid, Distinct;
    while i < |timers|
      invariant i <= |timers| && base.Valid() && base.s == Init(m, jiffies) && base.m == m
      invariant base.timers == set x | x in timers[..i]
      invariant fresh(base) && fresh(set x | x in base.heads)
    {
      NotYet(timers, i);
      OneMore(timers[..i], timers[i]);
      assert timers[..i + 1] == timers[..i] + [timers[i]];
      base.StimerSet(timers[i], 0);
      i := i + 1;
    }
  }

  /** From `stimer_init` and `stimer_set` through a whole program: the linked wheel ends as the abstract run
      does, so every timer left to fire has fired at its tick, or is still pending. */
  method WholeRun(m: int, jiffies: int, timers: seq<Node>, steps: seq<Step<Node>>, calls: Callbacks<Node>)
      returns (base: TimerBase)
    requires WordModulus(m) && 0 <= jiffies < m && Distinct(timers)
    requires forall step | step in steps :: StepOfTimers(step, timers, m)
    requires forall n: nat :: forall i | 0 <= i < |calls(n)| :: OfTimers(calls(n)[i], timers, m)
    modifies timers
    ensures base.Valid() && Ends(m, jiffies, steps, calls, base.s) && AllFire(base.s)
  {
    hide Idle, Inv, Exec, LeftToFire, FiresAt, Quiet, Init, StepOfTimers, OfTimers;
    hide TimerBase.Valid, TimerBase.CallbacksCallable;
    base := SetUp(m, jiffies, timers);
    InitIdle<Node>(m, jiffies);
    SameCallable(base, timers, steps, calls);
    base.Execute(steps, calls);
    EndsAllFire(m, jiffies, steps, calls, base.s);
  }

  /** `init_stimer_vecs`: a number of list heads, each an empty list. */
  method MakeHeads(n: nat) returns (hs: seq<Node>)
    ensures |hs| == n && fresh(set x | x in hs) && Distinct(hs)
    ensures forall i | 0 <= i < n :: Ring(hs[i], [])
  {
    hs := [];
    while |hs| < n
      invariant |hs| <= n && fresh(set x | x in hs) && Distinct(hs)
      invariant forall i | 0 <= i < |hs| :: Ring(hs[i], [])
    {
      var h := new Node();
      assert h !in hs;
      InitListHead(h);
      hs := hs + [h];
    }
  }

  lemma WordWraps(m: int, w: int)
    requires WordModulus(m) && 0 <= w < m
    ensures Wrap(m, w) == w
  {
  }

  /** While the target is not passed, the loop condition on words is the one on integers. */
  lemma TimeReached(m: int, start: int, now: int, jiffies: int)
    requires WordModulus(m) && start <= now && 0 <= jiffies < m
    requires now <= Decode(m, start, jiffies) + 1 || now == start
    ensures TimeAfterEq(m, jiffies, Wrap(m, now)) <==> now <= Decode(m, start, jiffies)
  {
    var target := Decode(m, start, jiffies);
    DecodeWraps(m, start, jiffies);
    WordWraps(m, jiffies);
    hide Wrap, Decode, TimeAfterEq;
    TimeAfterEqExact(m, target, now);
  }

  /** Each level comes round to its slot 0 exactly when a block of the next one begins. */
  lemma RoundOfLevels(now: nat)
    ensures now % 0x4000 == 0 <==> now % 0x100 == 0 && now / 0x100 % 64 == 0
    ensures now % 0x10_0000 == 0 <==> now % 0x4000 == 0 && now / 0x4000 % 64 == 0
    ensures now % 0x400_0000 == 0 <==> now % 0x10_0000 == 0 && now / 0x10_0000 % 64 == 0
  {
    NextLevel(now, 0x100);
    NextLevel(now, 0x4000);
    NextLevel(now, 0x10_0000);
  }

  lemma NextLevel(now: nat, unit: nat)
    requires unit in {0x100, 0x4000, 0x10_0000}
    ensures now % (64 * unit) == unit * (now / unit % 64) + now % unit
  {
    var q, z := now / unit / 64, now / unit % 64;
    assert now / unit == 64 * q + z;
    assert now == unit * (64 * q + z) + now % unit;
    LevelParts(unit, q, z);
    Quotient(now, 64 * unit, q, unit * z + now % unit);
  }

  lemma LevelParts(unit: nat, q: nat, z: nat)
    requires unit in {0x100, 0x4000, 0x10_0000}
    ensures unit * (64 * q + z) == 64 * unit * q + unit * z
    ensures z < 64 ==> unit * z + unit <= 64 * unit
  {
  }

  lemma RequeueFacts<Id>(s: State<Id>, q: seq<Id>, arms: map<Id, Arm>)
    requires Inv(s) && q != [] && Shape(s) && Requeueable(s, q, arms)
    ensures q[0] in arms && q[0] !in s.pend && Placeable(s, arms[q[0]])
    ensures q[0] !in q[1..] && forall x | x in q :: x !in s.pend
  {
    hide Placed, Fifo, Placeable;
  }

  function Follow(q: seq<Node>, i: nat, end: Node): Node {
    if i < |q| then q[i] else end
  }

  /** Going forwards from the first of `q` meets all of `q` and then `end`. */
  ghost predicate Chain(q: seq<Node>, end: Node)
    reads q
  {
    forall a, b | 0 <= a < |q| && b == a + 1 :: q[a].next == Follow(q, b, end)
  }

  lemma RingWalk(h: Node, q: seq<Node>)
    requires Ring(h, q)
    ensures h !in q && h.next == Follow(q, 0, h) && Chain(q, h)
    ensures q != [] ==> q[0].next == Follow(q, 1, h)
    ensures h.next != null
  {
    forall a, b | 0 <= a < |q| && b == a + 1 ensures q[a].next == Follow(q, b, h) {
      Neighbours(h, q, a);
    }
  }

  lemma ChainRest(q: seq<Node>, end: Node)
    requires q != [] && Chain(q, end)
    ensures Chain(q[1..], end)
  {
    var r := q[1..];
    forall a, b | 0 <= a < |r| && b == a + 1 ensures r[a].next == Follow(r, b, end) {
      assert q[a + 1].next == Follow(q, b + 1, end);
    }
  }

  lemma ChainHead(q: seq<Node>, end: Node)
    requires Chain(q, end)
    ensures q != [] ==> q[0].next == Follow(q, 1, end)
  {
  }

  lemma PlaceAllIs<Id>(s: State<Id>, q: seq<Id>, arms: map<Id, Arm>)
    requires |s.slots| == 513 && forall x | x in q :: x in arms
    ensures q == [] ==> PlaceAll(s, q, arms) == s
    ensures q != [] ==>
      var t := Place(s, q[0], arms[q[0]]);
      |t.slots| == 513 && t.now == s.now && t.m == s.m && PlaceAll(s, q, arms) == PlaceAll(t, q[1..], arms)
  {
    hide InsertSlot;
  }

  lemma RestIs(q: seq<Node>)
    requires q != [] && q[0] !in q[1..]
    ensures (set x | x in q) - {q[0]} == set x | x in q[1..]
  {
    assert q == [q[0]] + q[1..];
  }

  lemma UnlinkIs<Id>(t: State<Id>, j: nat)
    requires Inv(t) && j < WORK
    ensures var u := Unlink(t, j);
      && |t.slots| == 513 && u.slots == t.slots[j := []]
      && u.pend.Keys == t.pend.Keys - (set x | x in t.slots[j])
      && (forall x | x in u.pend :: x in t.pend && u.pend[x] == t.pend[x])
      && u.loc.Keys == u.pend.Keys && t.loc.Keys == t.pend.Keys
      && (forall x | x in u.pend :: u.loc[x] == t.loc[x])
      && forall x | x in t.slots[j] :: x in t.pend
  {
    hide Placement, Fifo;
  }

  lemma InsertReady<Id>(s: State<Id>, x: Id, arm: Arm)
    requires Inv(s) && x !in s.pend && arm.at == s.now <= arm.due && arm.seqno == |s.log|
    ensures Inv(Record(s, Armed(x, arm))) && Shape(Record(s, Armed(x, arm)))
    ensures Placeable(Record(s, Armed(x, arm)), arm)
  {
    hide Distinct, Placed, InsertSlot;
    RecordInv(s, Armed(x, arm));
  }
}
