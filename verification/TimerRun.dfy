/** Whole runs of the timer wheel: adding, deleting and modifying timers, ticks whose callbacks
    re-enter the wheel, and what the history of any run looks like. */
module TimerRun {
  import opened Common
  import opened WordTime
  import opened TimerSpec
  import opened TimerTick

  // ----- History ----------------------------------------------------------------------------

  /** The timers left armed by a history. */
  function Replay<Id>(log: seq<Event<Id>>): map<Id, Arm> {
    if log == [] then map[]
    else
      var before := Replay(log[..|log| - 1]);
      match log[|log| - 1]
      case Armed(x, arm) => before[x := arm]
      case Disarmed(x) => before - {x}
      case Fired(x, _) => before - {x}
  }

  /** The latest tick a history speaks of. */
  function Clock<Id>(log: seq<Event<Id>>): nat {
    if log == [] then 0
    else
      match log[|log| - 1]
      case Armed(_, arm) => arm.at
      case Disarmed(_) => Clock(log[..|log| - 1])
      case Fired(_, tick) => tick + 1
  }

  /** What an event may be, given the timers armed before it, the time and the event's number. A
      timer is armed only while it is not, never to fire in the past; it is disarmed or fired only
      while it is armed; it fires at the very tick it is due, and before the rest of its cohort. */
  ghost predicate LegalEvent<Id>(armed: map<Id, Arm>, clock: nat, n: nat, e: Event<Id>) {
    match e
    case Armed(x, arm) => x !in armed && clock <= arm.at <= arm.due && arm.seqno == n
    case Disarmed(x) => x in armed
    case Fired(x, tick) =>
      && x in armed
      && armed[x].due == tick
      && clock <= tick + 1
      && forall y | y in armed && y != x && Cohort(armed[y], armed[x]) :: armed[x].seqno < armed[y].seqno
  }

  ghost predicate Legal<Id>(log: seq<Event<Id>>) {
    log == [] ||
    (var n := |log| - 1;
     Legal(log[..n]) && LegalEvent(Replay(log[..n]), Clock(log[..n]), n, log[n]))
  }

  /** The history of a state explains it: replaying it leaves exactly the pending timers armed. */
  ghost predicate Explained<Id>(s: State<Id>) {
    Replay(s.log) == s.pend && Legal(s.log) && Clock(s.log) <= s.now
  }

  lemma Append<Id>(log: seq<Event<Id>>, e: Event<Id>)
    requires Legal(log) && LegalEvent(Replay(log), Clock(log), |log|, e)
    ensures Legal(log + [e])
    ensures (log + [e])[..|log|] == log
  {
    assert (log + [e])[..|log|] == log;
  }

  // ----- Operations -------------------------------------------------------------------------

  /** Between two states of one tick: time stands still and the work list does not grow. */
  ghost predicate SameClock<Id>(s: State<Id>, t: State<Id>) {
    t.now == s.now && t.m == s.m && |s.slots| == |t.slots| == 513 && |t.slots[WORK]| <= |s.slots[WORK]|
  }

  function Record<Id>(s: State<Id>, e: Event<Id>): State<Id> {
    s.(log := s.log + [e])
  }

  lemma RecordInv<Id>(s: State<Id>, e: Event<Id>)
    requires Inv(s)
    ensures Inv(Record(s, e))
  {
    hide Distinct, Placed, InsertSlot;
    forall k | 0 <= k < 513 ensures InOrder(s.slots[k], s.pend) {
    }
  }

  function ArmFor<Id>(s: State<Id>, expires: int): Arm {
    Arm(s.now, if expires < s.now then s.now else expires, |s.log|)
  }

  /** `stimer_add` of a timer that is not pending. */
  ghost function Insert<Id>(s: State<Id>, x: Id, expires: int): (t: State<Id>)
    requires Inv(s) && Explained(s) && x !in s.pend
    ensures Inv(t) && Explained(t) && SameClock(s, t)
  {
    InsertKeeps(s, x, expires);
    Place(Record(s, Armed(x, ArmFor(s, expires))), x, ArmFor(s, expires))
  }

  lemma InsertKeeps<Id>(s: State<Id>, x: Id, expires: int)
    requires Inv(s) && Explained(s) && x !in s.pend
    ensures |s.slots| == 513
    ensures var t := Place(Record(s, Armed(x, ArmFor(s, expires))), x, ArmFor(s, expires));
      Inv(t) && Explained(t) && t.slots[WORK] == s.slots[WORK]
  {
    hide Distinct, Placed, InsertSlot;
    var arm := ArmFor(s, expires);
    RecordInv(s, Armed(x, arm));
    PlaceInv(Record(s, Armed(x, arm)), x, arm);
    Append(s.log, Armed(x, arm));
  }

  lemma DropKeeps<Id>(s: State<Id>, x: Id, e: Event<Id>)
    requires Inv(s) && Explained(s) && x in s.pend
    requires e == Disarmed(x) || (e.Fired? && e.x == x)
    requires LegalEvent(s.pend, Clock(s.log), |s.log|, e) && Clock(s.log + [e]) <= s.now
    ensures Inv(Record(s, e))
    ensures Inv(Drop(Record(s, e), x)) && Explained(Drop(Record(s, e), x)) && SameClock(s, Drop(Record(s, e), x))
    ensures s.loc[x] == WORK ==> |Drop(Record(s, e), x).slots[WORK]| < |s.slots[WORK]|
  {
    hide Distinct, Placed, InsertSlot, Fifo;
    RecordInv(s, e);
    DropInv(Record(s, e), x);
    Append(s.log, e);
  }

  lemma DisarmingClock<Id>(log: seq<Event<Id>>, x: Id)
    ensures Clock(log + [Disarmed(x)]) == Clock(log)
  {
    assert (log + [Disarmed(x)])[..|log|] == log;
  }

  /** `stimer_del`: nothing at all for a timer that is not pending. */
  ghost function Delete<Id>(s: State<Id>, x: Id): (t: State<Id>)
    requires Inv(s) && Explained(s)
    ensures Inv(t) && Explained(t) && SameClock(s, t) && x !in t.pend
  {
    hide Fifo, Placed, Distinct;
    if x in s.pend then
      DisarmingClock(s.log, x);
      DropKeeps(s, x, Disarmed(x));
      Drop(Record(s, Disarmed(x)), x)
    else s
  }

  /** `stimer_mod`: pending or not, the timer is armed for the new expiry. */
  ghost function Modify<Id>(s: State<Id>, x: Id, expires: int): (t: State<Id>)
    requires Inv(s) && Explained(s)
    ensures Inv(t) && Explained(t) && SameClock(s, t)
  {
    hide Inv, Explained;
    Insert(Delete(s, x), x, expires)
  }

  /** A timer at the head of the work list may fire: it is due at the tick just begun, and first of
      its cohort. */
  lemma HeadMayFire<Id>(s: State<Id>)
    requires Inv(s) && Explained(s) && |s.slots| == 513 && s.slots[WORK] != []
    ensures s.now > 0 && s.slots[WORK][0] in s.pend && s.loc[s.slots[WORK][0]] == WORK
    ensures LegalEvent(s.pend, Clock(s.log), |s.log|, Fired(s.slots[WORK][0], s.now - 1))
  {
    hide InsertSlot, Block;
    var x := s.slots[WORK][0];
    assert Placed(s.now, WORK, s.pend[x].due);
    forall y | y in s.pend && y != x && Cohort(s.pend[y], s.pend[x])
      ensures s.pend[x].seqno < s.pend[y].seqno
    {
      assert s.loc[y] == WORK && y in s.slots[WORK];
      assert InOrder(s.slots[WORK], s.pend);
    }
  }

  lemma CountKeeps<Id>(s: State<Id>, n: nat)
    requires Inv(s) && Explained(s)
    ensures Inv(s.(fired := n)) && Explained(s.(fired := n))
  {
    hide Distinct, Placed, InsertSlot, Legal;
    forall k | 0 <= k < 513 ensures InOrder(s.slots[k], s.pend) {
    }
  }

  /** The head of the work list is detached, about to be called. */
  ghost function Pop<Id>(s: State<Id>): (t: State<Id>)
    requires Inv(s) && Explained(s) && |s.slots| == 513 && s.slots[WORK] != []
    ensures Inv(t) && Explained(t) && SameClock(s, t) && |t.slots[WORK]| < |s.slots[WORK]|
  {
    hide Inv, LegalEvent;
    HeadMayFire(s);
    var x := s.slots[WORK][0];
    DropKeeps(s, x, Fired(x, s.now - 1));
    CountKeeps(Drop(Record(s, Fired(x, s.now - 1)), x), s.fired + 1);
    Drop(Record(s, Fired(x, s.now - 1)), x).(fired := s.fired + 1)
  }

  // ----- Callbacks and runs -----------------------------------------------------------------

  /** A call made on the wheel, with the expiry as the word the caller passes. */
  datatype Op<Id> =
    | Add(x: Id, expires: int)
    | Del(x: Id)
    | Mod(x: Id, expires: int)

  /** What the n-th callback called does to the wheel. Whatever the callbacks of any one run do is
      some such function. */
  type Callbacks<Id> = nat -> seq<Op<Id>>

  /** One call. Adding a timer that is pending is not a call `stimer_add` allows, and is not made. */
  ghost function Apply<Id>(s: State<Id>, op: Op<Id>): (t: State<Id>)
    requires Inv(s) && Explained(s)
    ensures Inv(t) && Explained(t) && SameClock(s, t)
  {
    hide Distinct, Fifo, Placed, Explained;
    match op
    case Add(x, w) => if x in s.pend then s else Insert(s, x, Decode(s.m, s.now, w))
    case Del(x) => Delete(s, x)
    case Mod(x, w) => Modify(s, x, Decode(s.m, s.now, w))
  }

  ghost function ApplyAll<Id>(s: State<Id>, ops: seq<Op<Id>>): (t: State<Id>)
    requires Inv(s) && Explained(s)
    ensures Inv(t) && Explained(t) && SameClock(s, t)
    decreases |ops|
  {
    if ops == [] then Same(s); s else ApplyAll(Apply(s, ops[0]), ops[1..])
  }

  lemma Same<Id>(s: State<Id>)
    requires Inv(s)
    ensures SameClock(s, s)
  {
  }

  /** The inner loop of `run_stimer_list`: fire the work list, calling each callback. It ends however
      the callbacks behave, because nothing is ever linked into the work list again. */
  ghost function Drain<Id>(s: State<Id>, calls: Callbacks<Id>): (t: State<Id>)
    requires Inv(s) && Explained(s) && |s.slots| == 513
    ensures Inv(t) && Explained(t) && t.now == s.now && t.m == s.m && |t.slots| == 513 && t.slots[WORK] == []
    decreases |s.slots[WORK]|
  {
    hide Inv, Explained;
    if s.slots[WORK] == [] then s else Drain(ApplyAll(Pop(s), calls(s.fired)), calls)
  }

  /** Outside `run_stimer_list` the work list does not exist. */
  ghost predicate Idle<Id>(s: State<Id>) {
    Inv(s) && Explained(s) && |s.slots| == 513 && s.slots[WORK] == []
  }

  ghost function Tick<Id>(s: State<Id>, calls: Callbacks<Id>): (t: State<Id>)
    requires Idle(s)
    ensures Idle(t) && t.now == s.now + 1 && t.m == s.m
  {
    hide Inv;
    Drain(BeginTick(s), calls)
  }

  /** `run_stimer_list`: every tick up to and including the target. */
  ghost function RunTo<Id>(s: State<Id>, target: int, calls: Callbacks<Id>): (t: State<Id>)
    requires Idle(s)
    ensures Idle(t) && t.m == s.m
    ensures t.now == if target < s.now then s.now else target + 1
    decreases target + 1 - s.now
  {
    hide Inv, Explained;
    if target < s.now then s else RunTo(Tick(s, calls), target, calls)
  }

  /** Collecting to one time and then to a later one is collecting to the later one: the wheel and
      all that fired are the same. */
  lemma {:induction false} RunToComposes<Id>(s: State<Id>, first: int, second: int, calls: Callbacks<Id>)
    requires Idle(s) && first <= second
    ensures RunTo(RunTo(s, first, calls), second, calls) == RunTo(s, second, calls)
    decreases first + 1 - s.now
  {
    hide Idle, Tick;
    if first >= s.now {
      RunToComposes(Tick(s, calls), first, second, calls);
    }
  }

  datatype Step<Id> =
    | Call(op: Op<Id>)
    | Collect(jiffies: int)

  ghost function DoStep<Id>(s: State<Id>, step: Step<Id>, calls: Callbacks<Id>): (t: State<Id>)
    requires Idle(s)
    ensures Idle(t) && t.m == s.m
  {
    hide Distinct, Placed, Fifo, Explained;
    match step
    case Call(op) => Apply(s, op)
    case Collect(w) => RunTo(s, Decode(s.m, s.now, w), calls)
  }

  ghost function Exec<Id>(s: State<Id>, steps: seq<Step<Id>>, calls: Callbacks<Id>): (t: State<Id>)
    requires Idle(s)
    ensures Idle(t) && t.m == s.m
    decreases |steps|
  {
    hide Idle;
    if steps == [] then s else Exec(DoStep(s, steps[0], calls), steps[1..], calls)
  }

  /** `init_stimer_vecs` at any starting time. */
  function Init<Id(==)>(m: nat, start: nat): State<Id> {
    State(m, start, map[], map[], seq(513, _ => []), 0, [])
  }

  lemma InitIdle<Id>(m: nat, start: nat)
    requires WordModulus(m)
    ensures Idle(Init<Id>(m, start))
  {
  }

  /** Where any run from a fresh wheel ends. */
  ghost function RunOf<Id>(m: nat, start: nat, steps: seq<Step<Id>>, calls: Callbacks<Id>): State<Id>
    requires WordModulus(m)
  {
    hide Idle;
    InitIdle<Id>(m, start);
    Exec(Init(m, start), steps, calls)
  }

  /** A run from a fresh wheel ends in state `s`. */
  ghost predicate Ends<Id>(m: nat, start: nat, steps: seq<Step<Id>>, calls: Callbacks<Id>, s: State<Id>) {
    WordModulus(m) && s == RunOf(m, start, steps, calls)
  }

  lemma EndsIdle<Id>(m: nat, start: nat, steps: seq<Step<Id>>, calls: Callbacks<Id>, s: State<Id>)
    requires Ends(m, start, steps, calls, s)
    ensures Idle(s) && s.m == m
  {
    hide Inv, Explained;
    InitIdle<Id>(m, start);
  }
}
