/** Machine words and the unbounded time they stand for (the comparison macros of GameLib/mtimer.h).

    `unsigned long` is 32 bits wide on one build and 64 on another, so everything is stated for a
    modulus `m` that is either. Time itself is an unbounded `nat`; a word stands for the one integer
    within half a modulus of the present. */
module WordTime {
  import opened Common
  import opened Division

  predicate WordModulus(m: int) {
    m == 0x1_0000_0000 || m == 0x1_0000_0000_0000_0000
  }

  /** The word that `unsigned long` arithmetic keeps of an integer. */
  function Wrap(m: int, x: int): (w: int)
    requires WordModulus(m)
    ensures 0 <= w < m
  {
    x % m
  }

  /** `time_after_eq(a, b)`: the sign of the wrapped difference. */
  predicate TimeAfterEq(m: int, a: int, b: int)
    requires WordModulus(m)
  {
    Signed(m, Wrap(m, a - b)) >= 0
  }

  /** The integer a word stands for when the time is `now`. */
  function Decode(m: int, now: int, w: int): (x: int)
    requires WordModulus(m)
    ensures now - m / 2 <= x < now + m / 2
  {
    now + Signed(m, Wrap(m, w - now))
  }

  lemma WrapShift(m: int, x: int, k: int)
    requires WordModulus(m)
    ensures Wrap(m, x + m * k) == Wrap(m, x)
  {
    Shift(x, m, k);
  }

  lemma WrapRest(m: int, x: int)
    requires WordModulus(m)
    ensures x == m * (x / m) + Wrap(m, x)
  {
  }

  /** Subtracting words wraps to the same word as subtracting the integers they came from. */
  lemma WrapDifference(m: int, x: int, y: int)
    requires WordModulus(m)
    ensures Wrap(m, Wrap(m, x) - Wrap(m, y)) == Wrap(m, x - y)
    ensures Wrap(m, Wrap(m, x) - y) == Wrap(m, x - y)
  {
    hide Wrap;
    var q, t := x / m, y / m;
    WrapRest(m, x);
    WrapRest(m, y);
    Distribute(m, q, t);
    WrapShift(m, Wrap(m, x) - Wrap(m, y), q - t);
    WrapShift(m, Wrap(m, x) - y, q);
  }

  /** A word decodes to exactly those integers near the present that wrap to it: every number of
      wraparounds later, the wheel still reads a nearby expiry correctly. */
  lemma DecodeExact(m: int, now: int, x: int)
    requires WordModulus(m)
    requires now - m / 2 <= x < now + m / 2
    ensures Decode(m, now, Wrap(m, x)) == x
    ensures Decode(m, now, x) == x
  {
    WrapDifference(m, x, now);
    if x < now {
      WrapShift(m, x - now, 1);
    }
  }

  /** Conversely the decoded integer wraps back to the word it was read from. */
  lemma DecodeWraps(m: int, now: int, w: int)
    requires WordModulus(m)
    ensures Wrap(m, Decode(m, now, w)) == Wrap(m, w)
  {
    var d := w - now;
    assert d == m * (d / m) + Wrap(m, d);
    WrapShift(m, now + Wrap(m, d), d / m);
    WrapShift(m, now + Wrap(m, d), -1);
  }

  /** On words read within half a modulus of each other, `time_after_eq` is the order of integers. */
  lemma TimeAfterEqExact(m: int, x: int, y: int)
    requires WordModulus(m)
    requires y - m / 2 <= x < y + m / 2
    ensures TimeAfterEq(m, Wrap(m, x), Wrap(m, y)) <==> x >= y
  {
    WrapDifference(m, x, y);
    if x < y {
      WrapShift(m, x - y, 1);
    }
  }
}
