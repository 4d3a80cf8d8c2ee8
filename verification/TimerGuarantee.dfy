/** What the timer wheel guarantees over every run: any sequence of add, delete, modify and collect
    calls, with callbacks that make any calls of their own (except collect). */
module TimerGuarantee {
  import opened Common
  import opened WordTime
  import opened TimerSpec
  import opened TimerRun

  /** After event `p`, which arms a timer, nothing happens to that timer before event `n`. */
  ghost predicate Quiet<Id>(log: seq<Event<Id>>, p: nat, n: nat) {
    && p < n <= |log| && log[p].Armed?
    && forall r | p < r < n :: log[r].x != log[p].x
  }

  /** The timer armed by event `p` is left to fire: the first thing that happens to it after that, if
      anything does, is a firing. It may be armed again afterwards, as periodic timers are. */
  ghost predicate LeftToFire<Id>(log: seq<Event<Id>>, p: nat) {
    && p < |log| && log[p].Armed?
    && forall q | p < q < |log| && Quiet(log, p, q) && log[q].x == log[p].x :: log[q].Fired?
  }

  /** The first thing that happens to the timer armed by event `p` is event `q`, its firing in the pass
      of the tick it is due. */
  ghost predicate FiresAt<Id>(log: seq<Event<Id>>, p: nat, q: nat) {
    p < q < |log| && Quiet(log, p, q) && log[q] == Fired(log[p].x, log[p].arm.due)
  }

  lemma {:induction false} LegalPrefix<Id>(log: seq<Event<Id>>, n: nat)
    requires Legal(log) && n <= |log|
    ensures Legal(log[..n])
    decreases |log|
  {
    if n < |log| {
      LegalPrefix(log[..|log| - 1], n);
      assert log[..|log| - 1][..n] == log[..n];
    } else {
      assert log[..n] == log;
    }
  }

  /** Any event of a legal history was legal when it happened. */
  lemma LegalAt<Id>(log: seq<Event<Id>>, n: nat)
    requires Legal(log) && n < |log|
    ensures LegalEvent(Replay(log[..n]), Clock(log[..n]), n, log[n])
    ensures Replay(log[..n + 1]) ==
      match log[n]
      case Armed(x, arm) => Replay(log[..n])[x := arm]
      case Disarmed(x) => Replay(log[..n]) - {x}
      case Fired(x, _) => Replay(log[..n]) - {x}
  {
    LegalPrefix(log, n + 1);
    assert log[..n + 1][..n] == log[..n];
  }

  /** A timer stays armed while nothing happens to it. */
  lemma {:induction false} StaysArmed<Id>(log: seq<Event<Id>>, p: nat, n: nat)
    requires Legal(log) && Quiet(log, p, n)
    ensures log[p].x in Replay(log[..n]) && Replay(log[..n])[log[p].x] == log[p].arm
    decreases n
  {
    hide Legal;
    LegalAt(log, n - 1);
    if n - 1 > p {
      StaysArmed(log, p, n - 1);
    }
  }

  /** Either nothing happens to the timer armed by event `p` up to event `n`, or something happens first. */
  lemma {:induction false} FirstTouch<Id>(log: seq<Event<Id>>, p: nat, n: nat)
    requires p < n <= |log| && log[p].Armed?
    ensures Quiet(log, p, n) || exists q :: p < q < n && Quiet(log, p, q) && log[q].x == log[p].x
    decreases n
  {
    if n - 1 > p {
      FirstTouch(log, p, n - 1);
      if Quiet(log, p, n - 1) && log[n - 1].x != log[p].x {
        assert Quiet(log, p, n);
      }
    }
  }

  /** The guarantee of a timer: once its tick has been processed it has fired, at that very tick and
      before anything else happened to it; until then it is still pending. */
  lemma FiresExactlyOnce<Id>(m: nat, start: nat, steps: seq<Step<Id>>, calls: Callbacks<Id>, s: State<Id>, p: nat)
    requires Ends(m, start, steps, calls, s) && LeftToFire(s.log, p)
    ensures
      if s.log[p].arm.due < s.now then exists q :: FiresAt(s.log, p, q)
      else Quiet(s.log, p, |s.log|) && s.log[p].x in s.pend && s.pend[s.log[p].x] == s.log[p].arm
  {
    hide Legal, Distinct, Block, RunOf;
    EndsIdle(m, start, steps, calls, s);
    FirstTouch(s.log, p, |s.log|);
    if Quiet(s.log, p, |s.log|) {
      StaysArmed(s.log, p, |s.log|);
      assert s.log[..|s.log|] == s.log;
      NothingOverdue(s, s.log[p].x);
    } else {
      var q :| p < q < |s.log| && Quiet(s.log, p, q) && s.log[q].x == s.log[p].x;
      FiresWhenDue(s.log, p, q);
      FiredInThePast(s.log, q);
    }
  }

  /** Every timer left to fire has fired at its tick, or is still pending. */
  ghost predicate AllFire<Id>(s: State<Id>) {
    forall p: nat | LeftToFire(s.log, p) ::
      if s.log[p].arm.due < s.now then exists q :: FiresAt(s.log, p, q)
      else Quiet(s.log, p, |s.log|) && s.log[p].x in s.pend
  }

  lemma EndsAllFire<Id>(m: nat, start: nat, steps: seq<Step<Id>>, calls: Callbacks<Id>, s: State<Id>)
    requires Ends(m, start, steps, calls, s)
    ensures AllFire(s)
  {
    hide Ends, LeftToFire, FiresAt, Quiet;
    forall p: nat | LeftToFire(s.log, p)
      ensures p < |s.log| && s.log[p].Armed?
      ensures if s.log[p].arm.due < s.now then exists q :: FiresAt(s.log, p, q)
        else Quiet(s.log, p, |s.log|) && s.log[p].x in s.pend
    {
      IsArming(s.log, p);
      FiresExactlyOnce(m, start, steps, calls, s, p);
    }
  }

  lemma IsArming<Id>(log: seq<Event<Id>>, p: nat)
    requires LeftToFire(log, p)
    ensures p < |log| && log[p].Armed?
  {
  }

  /** A firing that comes first is at the tick the timer was armed for. */
  lemma FiresWhenDue<Id>(log: seq<Event<Id>>, p: nat, q: nat)
    requires Legal(log) && Quiet(log, p, q) && q < |log| && log[q].Fired? && log[q].x == log[p].x
    ensures FiresAt(log, p, q)
  {
    hide Legal;
    StaysArmed(log, p, q);
    LegalAt(log, q);
  }

  /** Conversely every firing of a run is that of exactly one arming: nothing fires twice for one arming,
      and nothing fires that was not armed. */
  lemma EveryFiringIsArmed<Id>(m: nat, start: nat, steps: seq<Step<Id>>, calls: Callbacks<Id>, s: State<Id>, q: nat)
    requires Ends(m, start, steps, calls, s) && q < |s.log| && s.log[q].Fired?
    ensures exists p :: FiresAt(s.log, p, q)
    ensures forall p, r | FiresAt(s.log, p, q) && FiresAt(s.log, r, q) :: p == r
  {
    hide Legal, RunOf;
    EndsIdle(m, start, steps, calls, s);
    LegalAt(s.log, q);
    var p := LastArming(s.log, q, s.log[q].x);
    FiresWhenDue(s.log, p, q);
  }

  lemma {:induction false} LastArming<Id>(log: seq<Event<Id>>, n: nat, x: Id) returns (p: nat)
    requires Legal(log) && n <= |log| && x in Replay(log[..n])
    ensures Quiet(log, p, n) && log[p].x == x
    decreases n
  {
    hide Legal;
    LegalAt(log, n - 1);
    if log[n - 1].x == x {
      p := n - 1;
    } else {
      p := LastArming(log, n - 1, x);
    }
  }

  lemma NothingOverdue<Id>(s: State<Id>, x: Id)
    requires Idle(s) && x in s.pend
    ensures s.pend[x].due >= s.now
  {
    hide Fifo, Explained, Distinct;
    PlacedNotOverdue(s.now, s.loc[x], s.pend[x].due);
  }

  lemma {:induction false} ClockGrows<Id>(log: seq<Event<Id>>, n: nat)
    requires Legal(log) && n <= |log|
    ensures Clock(log[..n]) <= Clock(log)
    decreases |log|
  {
    if n < |log| {
      ClockGrows(log[..|log| - 1], n);
      assert log[..|log| - 1][..n] == log[..n];
    } else {
      assert log[..n] == log;
    }
  }

  lemma FiredInThePast<Id>(log: seq<Event<Id>>, q: nat)
    requires Legal(log) && q < |log| && log[q].Fired?
    ensures log[q].tick < Clock(log)
  {
    ClockGrows(log, q + 1);
  }

  /** Timers fire in the order of their ticks. */
  lemma FiringsInOrder<Id>(m: nat, start: nat, steps: seq<Step<Id>>, calls: Callbacks<Id>, s: State<Id>,
                           p: nat, q: nat)
    requires Ends(m, start, steps, calls, s) && p < q < |s.log| && s.log[p].Fired? && s.log[q].Fired?
    ensures s.log[p].tick <= s.log[q].tick
  {
    hide Inv, RunOf;
    EndsIdle(m, start, steps, calls, s);
    var log := s.log;
    LegalPrefix(log, q);
    FiredInThePast(log[..q], p);
    LegalAt(log, q);
  }

  /** Of two armings at one tick for one tick that both lead to a firing, the earlier one fires earlier,
      however often the timers are cascaded in between. */
  lemma CohortIsFifo<Id>(m: nat, start: nat, steps: seq<Step<Id>>, calls: Callbacks<Id>, s: State<Id>,
                         p: nat, q: nat, a: nat, b: nat)
    requires Ends(m, start, steps, calls, s) && p < q && FiresAt(s.log, p, a) && FiresAt(s.log, q, b)
    requires Cohort(s.log[p].arm, s.log[q].arm)
    ensures a < b
  {
    hide Inv, RunOf;
    EndsIdle(m, start, steps, calls, s);
    LaterMateWaits(s.log, p, q, a, b);
  }

  lemma LaterMateWaits<Id>(log: seq<Event<Id>>, p: nat, q: nat, a: nat, b: nat)
    requires Legal(log) && p < q && FiresAt(log, p, a) && FiresAt(log, q, b) && Cohort(log[p].arm, log[q].arm)
    ensures a < b
  {
    hide Legal;
    if b <= a {
      StaysArmed(log, p, b);
      StaysArmed(log, q, b);
      LegalAt(log, b);
      LegalAt(log, p);
      LegalAt(log, q);
      assert false;
    }
  }

  /** What a caller asks for is what is armed: an expiry within half a modulus of the present, passed
      as a word, becomes due at that integer tick, or at once when it is already behind. */
  lemma ArmedForItsExpiry<Id>(s: State<Id>, x: Id, expires: int)
    requires Idle(s) && x !in s.pend
    requires s.now - s.m / 2 <= expires < s.now + s.m / 2
    ensures Apply(s, Add(x, Wrap(s.m, expires))).log == s.log + [Armed(x,
      Arm(s.now, if expires < s.now then s.now else expires, |s.log|))]
  {
    DecodeExact(s.m, s.now, expires);
  }

  /** The same of a modification, after the timer has been disarmed if it was pending. */
  lemma ModifiedForItsExpiry<Id>(s: State<Id>, x: Id, expires: int)
    requires Idle(s) && s.now - s.m / 2 <= expires < s.now + s.m / 2
    ensures var before := s.log + if x in s.pend then [Disarmed(x)] else [];
      Apply(s, Mod(x, Wrap(s.m, expires))).log == before + [Armed(x,
        Arm(s.now, if expires < s.now then s.now else expires, |before|))]
  {
    DecodeExact(s.m, s.now, expires);
    assert s.log + [] == s.log;
  }

  /** Between collections every pending timer is linked once and in one slot only, in a block of its
      level's window that begins no later than its tick. */
  lemma EveryTimerInItsWindow<Id>(m: nat, start: nat, steps: seq<Step<Id>>, calls: Callbacks<Id>, s: State<Id>)
    requires Ends(m, start, steps, calls, s)
    ensures |s.slots| == 513
    ensures forall x | x in s.pend :: exists j :: 0 <= j < WORK && x in s.slots[j] && Placed(s.now, j, s.pend[x].due)
    ensures forall j, a | 0 <= j < 513 && 0 <= a < |s.slots[j]| :: s.slots[j][a] in s.pend
    ensures forall j, k, a, b | 0 <= j < 513 && 0 <= k < 513 && 0 <= a < |s.slots[j]| && 0 <= b < |s.slots[k]| ::
      s.slots[j][a] == s.slots[k][b] ==> j == k && a == b
  {
    hide Placed, Fifo, Explained, RunOf;
    EndsIdle(m, start, steps, calls, s);
    forall x | x in s.pend
      ensures exists j :: 0 <= j < WORK && x in s.slots[j] && Placed(s.now, j, s.pend[x].due)
    {
      assert x in s.slots[s.loc[x]];
    }
  }
}
