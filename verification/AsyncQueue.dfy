/** The queue of SQL statements of Server/AsyncDBOperator.cpp under every interleaving.

    Any number of threads call `execSQL` while one thread is in `run`. A step is one statement of one
    of them; taking the lock blocks while another thread has it. The emptiness test of `run` is made
    without the lock. */
module AsyncQueue {
  import opened Common

  /** A `CAsyncDBOperator`, known by its place in the order of allocation. */
  datatype Operator = Operator(id: nat, thread: nat, sql: string)

  /** Where a thread is in `push`. */
  datatype Producer =
    | Idle
    | Created(op: Operator)   // `new`, not yet at the lock
    | Inside(op: Operator)    // has the lock
    | Pushed                  // has pushed, has the lock

  /** Where the consumer is in `run`. */
  datatype Consumer =
    | Looping                 // before the test of m_bRun
    | Testing                 // before the unlocked queue_.empty()
    | Waiting                 // saw a queue that was not empty; before lock_.Lock()
    | Locked                  // has the lock; before front()
    | Fronted(op: Operator)   // before pop()
    | Popped(op: Operator)    // before Unlock()
    | Taken(op: Operator)     // before call()
    | Called(op: Operator)    // before delete
    | Sleeping
    | Over

  datatype Owner = Free | OwnedBy(thread: nat) | OwnedByConsumer

  datatype State = State(
    running: bool,
    lock: Owner,
    queue: seq<Operator>,
    producers: map<nat, Producer>,  // threads not listed are idle
    consumer: Consumer,
    created: seq<Operator>,       // every operator ever created
    pushed: seq<Operator>,          // in the order the lock was held
    executed: seq<Operator>,
    deleted: seq<Operator>)

  datatype Action =
    | Exec(thread: nat, sql: string)  // an idle thread calls execSQL
    | Produce(thread: nat)            // the next statement of a thread that is in push
    | Consume                         // the next statement of run
    | Stop

  function At(s: State, t: nat): Producer {
    if t in s.producers then s.producers[t] else Idle
  }

  /** One step. An action that cannot be taken now leaves everything as it is. */
  function Next(s: State, a: Action): State {
    match a
    case Exec(t, sql) =>
      if At(s, t) != Idle then s
      else
        var op := Operator(|s.created|, t, sql);
        s.(created := s.created + [op], producers := s.producers[t := Created(op)])
    case Produce(t) => (
      match At(s, t)
      case Idle => s
      case Created(op) =>
        if s.lock == Free then s.(lock := OwnedBy(t), producers := s.producers[t := Inside(op)]) else s
      case Inside(op) =>
        s.(queue := s.queue + [op], pushed := s.pushed + [op], producers := s.producers[t := Pushed])
      case Pushed => s.(lock := Free, producers := s.producers[t := Idle]))
    case Consume => (
      match s.consumer
      case Looping => s.(consumer := if s.running then Testing else Over)
      case Testing => s.(consumer := if s.queue != [] then Waiting else Sleeping)
      case Waiting => if s.lock == Free then s.(lock := OwnedByConsumer, consumer := Locked) else s
      case Locked => if s.queue == [] then s else s.(consumer := Fronted(s.queue[0]))
      case Fronted(op) => if s.queue == [] then s else s.(queue := s.queue[1..], consumer := Popped(op))
      case Popped(op) => s.(lock := Free, consumer := Taken(op))
      case Taken(op) => s.(executed := s.executed + [op], consumer := Called(op))
      case Called(op) => s.(deleted := s.deleted + [op], consumer := Looping)
      case Sleeping => s.(consumer := Looping)
      case Over => s)
    case Stop => s.(running := false)
  }

  function Run(s: State, actions: seq<Action>): State
    decreases |actions|
  {
    if actions == [] then s else Run(Next(s, actions[0]), actions[1..])
  }

  /** `run` has just set m_bRun and reaches its loop. */
  function Start(): State {
    State(true, Free, [], map[], Looping, [], [], [], [])
  }

  // ----- Invariant --------------------------------------------------------------------------

  /** What the consumer has taken off the queue and not yet executed. */
  function InFlight(c: Consumer): seq<Operator> {
    if c.Popped? || c.Taken? then [c.op] else []
  }

  predicate ConsumerOwns(c: Consumer) {
    c.Locked? || c.Fronted? || c.Popped?
  }

  predicate ProducerOwns(p: Producer) {
    p.Inside? || p.Pushed?
  }

  function Underway(p: Producer): seq<Operator> {
    if p.Created? || p.Inside? then [p.op] else []
  }

  /** The operators a thread has created, in the order it did. */
  function Of(t: nat, ops: seq<Operator>): (r: seq<Operator>)
  {
    if ops == [] then []
    else Of(t, ops[..|ops| - 1]) + (if ops[|ops| - 1].thread == t then [ops[|ops| - 1]] else [])
  }

  /** Whoever is between `Lock` and `Unlock` has the lock. */
  ghost predicate Locking(s: State) {
    && (ConsumerOwns(s.consumer) <==> s.lock == OwnedByConsumer)
    && (forall t: nat :: ProducerOwns(At(s, t)) <==> s.lock == OwnedBy(t))
  }

  /** What has become of what was pushed. */
  ghost predicate Taking(s: State) {
    && (s.consumer.Waiting? || s.consumer.Locked? || s.consumer.Fronted? ==> s.queue != [])
    && (s.consumer.Fronted? ==> s.queue[0] == s.consumer.op)
    && s.executed + InFlight(s.consumer) + s.queue == s.pushed
    && s.deleted + (if s.consumer.Called? then [s.consumer.op] else []) == s.executed
  }

  /** Every thread has pushed what it created, in that order, but for the one it is about to push. */
  ghost predicate Ordering(s: State) {
    && (forall i | 0 <= i < |s.created| :: s.created[i].id == i)
    && (forall t: nat :: Of(t, s.pushed) + Underway(At(s, t)) == Of(t, s.created))
  }

  ghost predicate Inv(s: State) {
    Locking(s) && Taking(s) && Ordering(s)
  }

  lemma OfAppend(t: nat, ops: seq<Operator>, op: Operator)
    ensures Of(t, ops + [op]) == Of(t, ops) + (if op.thread == t then [op] else [])
  {
    assert (ops + [op])[..|ops|] == ops;
  }

  lemma {:induction false} OfBy(t: nat, ops: seq<Operator>)
    ensures forall i | 0 <= i < |Of(t, ops)| :: Of(t, ops)[i].thread == t && Of(t, ops)[i] in ops
    decreases |ops|
  {
    if ops != [] {
      OfBy(t, ops[..|ops| - 1]);
    }
  }

  lemma StartInv()
    ensures Inv(Start())
  {
  }

  lemma PushOf(s: State, t: nat, r: nat)
    requires Ordering(s) && At(s, t).Inside?
    ensures Of(r, s.pushed + [At(s, t).op]) + (if r == t then [] else Underway(At(s, r))) == Of(r, s.created)
  {
    hide Of;
    OfBy(t, s.created);
    assert Of(t, s.pushed) + Underway(At(s, t)) == Of(t, s.created);
    assert Of(t, s.created)[|Of(t, s.pushed)|] == At(s, t).op;
    OfAppend(r, s.pushed, At(s, t).op);
    assert Of(r, s.pushed) + Underway(At(s, r)) == Of(r, s.created);
  }

  lemma PushOrdering(s: State, t: nat)
    requires Ordering(s) && At(s, t).Inside?
    ensures Ordering(Next(s, Produce(t)))
  {
    hide Of;
    var u := Next(s, Produce(t));
    forall r: nat ensures Of(r, u.pushed) + Underway(At(u, r)) == Of(r, u.created) {
      PushOf(s, t, r);
    }
  }

  lemma PushTaking(s: State, t: nat)
    requires Taking(s) && At(s, t).Inside?
    ensures Taking(Next(s, Produce(t)))
  {
    var op := At(s, t).op;
    assert s.executed + InFlight(s.consumer) + (s.queue + [op]) == s.pushed + [op];
  }

  lemma ProduceInv(s: State, t: nat)
    requires Inv(s)
    ensures Inv(Next(s, Produce(t)))
  {
    hide Of;
    if At(s, t).Inside? {
      hide Ordering, Taking;
      PushOrdering(s, t);
      PushTaking(s, t);
    } else {
      assert forall r: nat :: Underway(At(Next(s, Produce(t)), r)) == Underway(At(s, r));
    }
  }

  lemma ExecInv(s: State, t: nat, sql: string)
    requires Inv(s)
    ensures Inv(Next(s, Exec(t, sql)))
  {
    var u := Next(s, Exec(t, sql));
    if At(s, t) == Idle {
      forall r: nat ensures Of(r, u.pushed) + Underway(At(u, r)) == Of(r, u.created) {
        OfAppend(r, s.created, Operator(|s.created|, t, sql));
        assert Of(r, s.pushed) + Underway(At(s, r)) == Of(r, s.created);
      }
    }
  }

  lemma ConsumeTaking(s: State)
    requires Taking(s)
    ensures Taking(Next(s, Consume))
  {
    if s.consumer.Fronted? {
      assert s.executed + [] + s.queue == s.executed + [s.queue[0]] + s.queue[1..];
    } else if s.consumer.Taken? {
      assert s.executed + [s.consumer.op] + s.queue == s.executed + [s.consumer.op] + [] + s.queue;
    }
  }

  lemma ConsumeLocking(s: State)
    requires Locking(s) && Taking(s)
    ensures Locking(Next(s, Consume))
  {
    hide InFlight;
    assert forall t: nat :: At(Next(s, Consume), t) == At(s, t);
  }

  lemma ConsumeOrdering(s: State)
    requires Ordering(s)
    ensures Ordering(Next(s, Consume))
  {
    hide Of;
    assert forall t: nat :: At(Next(s, Consume), t) == At(s, t);
  }

  lemma ConsumeInv(s: State)
    requires Inv(s)
    ensures Inv(Next(s, Consume))
  {
    hide Locking, Taking, Ordering, Next;
    ConsumeTaking(s);
    ConsumeLocking(s);
    ConsumeOrdering(s);
  }

  lemma {:induction false} RunInv(s: State, actions: seq<Action>)
    requires Inv(s)
    ensures Inv(Run(s, actions))
    decreases |actions|
  {
    hide Inv, Next;
    if actions != [] {
      StepInv(s, actions[0]);
      RunInv(Next(s, actions[0]), actions[1..]);
    }
  }

  lemma StepInv(s: State, a: Action)
    requires Inv(s)
    ensures Inv(Next(s, a))
  {
    hide Of;
    match a
    case Exec(t, sql) => ExecInv(s, t, sql);
    case Produce(t) => ProduceInv(s, t);
    case Consume => ConsumeInv(s);
    case Stop => assert forall t: nat :: At(Next(s, Stop), t) == At(s, t);
  }

  // ----- Main results -----------------------------------------------------------------------

  /** Whatever the interleaving: what was executed, what the consumer holds and what is queued are
      together what was pushed, in the order the lock was held. */
  lemma NothingLostOrReordered(actions: seq<Action>)
    ensures var s := Run(Start(), actions);
      s.executed + InFlight(s.consumer) + s.queue == s.pushed
  {
    hide Next;
    StartInv();
    RunInv(Start(), actions);
  }

  /** The consumer never takes from an empty queue, though it tests for emptiness without the lock. */
  lemma NeverPopsEmpty(actions: seq<Action>)
    ensures var s := Run(Start(), actions);
      s.consumer.Locked? || s.consumer.Fronted? ==>
        s.queue != [] && s.lock == OwnedByConsumer && (s.consumer.Fronted? ==> s.queue[0] == s.consumer.op)
  {
    hide Next;
    StartInv();
    RunInv(Start(), actions);
  }

  /** At most one thread is between `Lock` and `Unlock`. */
  lemma MutualExclusion(actions: seq<Action>, t: nat, r: nat)
    ensures var s := Run(Start(), actions);
      && (ProducerOwns(At(s, t)) && ProducerOwns(At(s, r)) ==> t == r)
      && !(ProducerOwns(At(s, t)) && ConsumerOwns(s.consumer))
  {
    hide Next, Of;
    StartInv();
    RunInv(Start(), actions);
  }

  lemma {:induction false} OfPrefix(t: nat, a: seq<Operator>, b: seq<Operator>)
    ensures Of(t, a) <= Of(t, a + b)
    decreases |b|
  {
    if b == [] {
      assert a + b == a;
    } else {
      OfPrefix(t, a, b[..|b| - 1]);
      OfAppend(t, a + b[..|b| - 1], b[|b| - 1]);
      assert a + b[..|b| - 1] + [b[|b| - 1]] == a + b;
    }
  }

  /** The statements of each thread are executed in the order the thread submitted them, without gaps:
      what has been executed of them is always a prefix of what was submitted. */
  lemma EachThreadInOrder(actions: seq<Action>, t: nat)
    ensures var s := Run(Start(), actions);
      Of(t, s.executed) <= Of(t, s.pushed) <= Of(t, s.created)
  {
    hide Next, Inv, Run;
    StartInv();
    RunInv(Start(), actions);
    var s := Run(Start(), actions);
    ExecutedFirst(s, t);
    PushedFirst(s, t);
  }

  lemma ExecutedFirst(s: State, t: nat)
    requires Inv(s)
    ensures Of(t, s.executed) <= Of(t, s.pushed)
  {
    hide Of, InFlight, Locking, Ordering;
    var rest := InFlight(s.consumer) + s.queue;
    OfPrefix(t, s.executed, rest);
    assert s.executed + rest == s.executed + InFlight(s.consumer) + s.queue;
  }

  lemma PushedFirst(s: State, t: nat)
    requires Inv(s)
    ensures Of(t, s.pushed) <= Of(t, s.created)
  {
    hide Of, Locking, Taking;
    assert Of(t, s.pushed) + Underway(At(s, t)) == Of(t, s.created);
  }

  /** Of one thread's operators, an earlier one was created earlier. */
  lemma {:induction false} OfIncreasing(t: nat, ops: seq<Operator>, i: nat, j: nat)
    requires forall k | 0 <= k < |ops| :: ops[k].id == k
    requires i < j < |Of(t, ops)|
    ensures Of(t, ops)[i].id < Of(t, ops)[j].id < |ops|
    decreases |ops|
  {
    var front := ops[..|ops| - 1];
    OfBy(t, front);
    if j < |Of(t, front)| {
      OfIncreasing(t, front, i, j);
    } else {
      assert Of(t, front)[i] in front;
    }
  }

  lemma {:induction false} OfOccurs(ops: seq<Operator>, i: nat, j: nat) returns (a: nat, b: nat)
    requires i < j < |ops| && ops[i] == ops[j]
    ensures a < b < |Of(ops[i].thread, ops)|
    ensures Of(ops[i].thread, ops)[a] == ops[i] && Of(ops[i].thread, ops)[b] == ops[i]
    decreases |ops|
  {
    var t, front := ops[i].thread, ops[..|ops| - 1];
    if j < |front| {
      a, b := OfOccurs(front, i, j);
    } else {
      a := OfHas(front, i);
      b := |Of(t, front)|;
    }
  }

  lemma {:induction false} OfHas(ops: seq<Operator>, i: nat) returns (a: nat)
    requires i < |ops|
    ensures a < |Of(ops[i].thread, ops)| && Of(ops[i].thread, ops)[a] == ops[i]
    decreases |ops|
  {
    var front := ops[..|ops| - 1];
    if i < |front| {
      a := OfHas(front, i);
    } else {
      a := |Of(ops[i].thread, front)|;
    }
  }

  /** No operator is pushed twice, executed twice or deleted twice. */
  lemma AtMostOnce(actions: seq<Action>)
    ensures var s := Run(Start(), actions);
      Distinct(s.pushed) && Distinct(s.executed) && Distinct(s.deleted)
  {
    hide Next, Run, Inv;
    StartInv();
    RunInv(Start(), actions);
    var s := Run(Start(), actions);
    forall i, j | 0 <= i < j < |s.pushed| ensures s.pushed[i] != s.pushed[j] {
      DistinctPushed(s, i, j);
    }
    Becomes(s);
  }

  /** What was executed and what was deleted come first in what was pushed. */
  lemma Becomes(s: State)
    requires Inv(s)
    ensures |s.executed| <= |s.pushed| && s.executed == s.pushed[..|s.executed|]
    ensures |s.deleted| <= |s.executed| && s.deleted == s.executed[..|s.deleted|]
    ensures s.consumer.Taken? || s.consumer.Called? ==>
      |s.deleted| < |s.pushed| && s.pushed[|s.deleted|] == s.consumer.op
  {
    hide Locking, Ordering;
  }

  /** The consumer never executes or deletes an operator that it has deleted before. */
  lemma NeverAfterDeletion(actions: seq<Action>)
    ensures var s := Run(Start(), actions);
      s.consumer.Taken? || s.consumer.Called? ==> s.consumer.op !in s.deleted
  {
    hide Next, Run, Inv;
    StartInv();
    RunInv(Start(), actions);
    var s := Run(Start(), actions);
    Becomes(s);
    if s.consumer.Taken? || s.consumer.Called? {
      var n := |s.deleted|;
      forall k | 0 <= k < n ensures s.deleted[k] != s.consumer.op {
        assert s.pushed[k] == s.deleted[k];
        DistinctPushed(s, k, n);
      }
    }
  }

  lemma DistinctPushed(s: State, i: nat, j: nat)
    requires Inv(s) && i < j < |s.pushed|
    ensures s.pushed[i] != s.pushed[j]
  {
    hide Of;
    if s.pushed[i] == s.pushed[j] {
      var t := s.pushed[i].thread;
      var a, b := OfOccurs(s.pushed, i, j);
      assert Of(t, s.pushed) + Underway(At(s, t)) == Of(t, s.created);
      assert Of(t, s.created)[a] == Of(t, s.pushed)[a] && Of(t, s.created)[b] == Of(t, s.pushed)[b];
      OfIncreasing(t, s.created, a, b);
      assert false;
    }
  }

  // ----- Progress ---------------------------------------------------------------------------

  /** Steps of the consumer alone that execute what it holds and what is queued. */
  function Alone(n: nat): seq<Action> {
    seq(n, _ => Consume)
  }

  lemma {:induction false} AloneRuns(s: State, n: nat)
    ensures n > 0 ==> Run(s, Alone(n)) == Run(Next(s, Consume), Alone(n - 1))
    ensures Run(s, Alone(0)) == s
  {
    hide Next;
    if n > 0 {
      assert Alone(n)[1..] == Alone(n - 1);
    }
  }

  /** How many steps the consumer needs, from a state in which something is left to execute. */
  function Work(s: State): int {
    8 * |s.queue| +
    match s.consumer
    case Looping => 0
    case Testing => -1
    case Waiting => -2
    case Locked => -3
    case Fronted(_) => -4
    case Popped(_) => 3
    case Taken(_) => 2
    case Called(_) => 1
    case Sleeping => 1
    case Over => 0
  }

  /** While m_bRun is set and no other thread holds the lock, the consumer executes everything that
      has been pushed: from no reachable state is a statement stuck. */
  lemma {:induction false} Drains(s: State) returns (n: nat)
    requires Inv(s) && s.running && s.consumer != Over && (s.lock == Free || s.lock == OwnedByConsumer)
    ensures Run(s, Alone(n)).executed == s.pushed
    decreases Work(s) + 1
  {
    hide Of, Run;
    if InFlight(s.consumer) == [] && s.queue == [] {
      n := 0;
    } else {
      ConsumeInv(s);
      n := Drains(Next(s, Consume));
      n := n + 1;
    }
    AloneRuns(s, n);
  }
}
