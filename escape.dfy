/** The escape-iteration function: how many steps of the iteration rule it
    takes, from z = 0, before the orbit is seen outside the radius-2 disc. */
module Escape {
  import opened ComplexPlane

  /** The value z holds when the loop tests it for the i-th time:
      z_0 = 0 and z_(i+1) = Step(z_i, c). */
  function Orbit(c: Complex, i: nat): Complex
  {
    if i == 0 then Zero else Step(Orbit(c, i - 1), c)
  }

  /** The same orbit under the textbook rule, started from w0. */
  function ClassicalOrbit(c: Complex, w0: Complex, i: nat): Complex
  {
    if i == 0 then w0 else ClassicalStep(ClassicalOrbit(c, w0, i - 1), c)
  }

  /** No orbit value among z_0 .. z_(n-1) lies outside the disc of radius 2. */
  predicate StaysInside(c: Complex, n: int)
  {
    forall k :: 0 <= k < n ==> !Escaped(Orbit(c, k))
  }

  /** The count the loop returns when it has already tested z_0 .. z_(i-1). */
  function EscapeFrom(c: Complex, i: nat, threshold: int): int
    decreases threshold - i
  {
    if i >= threshold then threshold
    else if Escaped(Orbit(c, i)) then i
    else EscapeFrom(c, i + 1, threshold)
  }

  /** The escape count of c under an iteration cap of threshold. */
  function EscapeTime(c: Complex, threshold: int): int
  {
    EscapeFrom(c, 0, threshold)
  }

  /** The loop of `mandelbrot`: test, return early on escape, otherwise step. */
  method Mandelbrot(c: Complex, threshold: int) returns (n: int)
    ensures n == EscapeTime(c, threshold)
    ensures threshold >= 0 ==> 0 <= n <= threshold
    ensures threshold < 0 ==> n == threshold
  {
    EscapeTimeRange(c, threshold);
    var z := Zero;
    var i := 0;
    while i < threshold
      invariant 0 <= i && (threshold >= 0 ==> i <= threshold)
      invariant z == Orbit(c, i)
      invariant EscapeFrom(c, i, threshold) == EscapeTime(c, threshold)
    {
      if NormSq(z) > 4.0 {
        return i;
      }
      z := Step(z, c);
      i := i + 1;
    }
    return threshold;
  }

  /** What EscapeFrom promises: a count in [i, threshold], every value tested
      before it stays inside the disc, and a count below threshold is an escape. */
  lemma {:induction false} EscapeFromFacts(c: Complex, i: nat, threshold: int)
    requires i <= threshold
    ensures i <= EscapeFrom(c, i, threshold) <= threshold
    ensures EscapeFrom(c, i, threshold) < threshold ==> Escaped(Orbit(c, EscapeFrom(c, i, threshold)))
    ensures forall k :: i <= k < EscapeFrom(c, i, threshold) ==> !Escaped(Orbit(c, k))
    decreases threshold - i
  {
    if i < threshold && !Escaped(Orbit(c, i)) {
      EscapeFromFacts(c, i + 1, threshold);
    }
  }

  /** The count lies in [0, threshold] for a non-negative cap; a cap of zero
      or below runs no iteration and is returned as it is. */
  lemma EscapeTimeRange(c: Complex, threshold: int)
    ensures threshold >= 0 ==> 0 <= EscapeTime(c, threshold) <= threshold
    ensures threshold <= 0 ==> EscapeTime(c, threshold) == threshold
  {
    if threshold >= 0 {
      EscapeFromFacts(c, 0, threshold);
    }
  }

  /** A count n below the cap is exactly the first index whose orbit value escapes. */
  lemma EscapeTimeIsFirstEscape(c: Complex, threshold: int, n: nat)
    requires n < threshold
    ensures EscapeTime(c, threshold) == n <==> Escaped(Orbit(c, n)) && StaysInside(c, n)
  {
    EscapeFromFacts(c, 0, threshold);
    var r := EscapeTime(c, threshold);
    if r == n {
      assert Escaped(Orbit(c, n));
    } else if r < n {
      assert r < threshold && Escaped(Orbit(c, r));
    } else {
      assert 0 <= n < r && !Escaped(Orbit(c, n));
    }
  }

  /** The count equals the cap exactly when none of z_0 .. z_(threshold-1)
      escapes; the value produced by the last step is never tested. */
  lemma EscapeTimeIsThreshold(c: Complex, threshold: int)
    ensures EscapeTime(c, threshold) == threshold <==> StaysInside(c, threshold)
  {
    if threshold >= 0 {
      EscapeFromFacts(c, 0, threshold);
      var r := EscapeTime(c, threshold);
      if r < threshold {
        assert 0 <= r < threshold && Escaped(Orbit(c, r));
      }
    }
  }

  /** The first value tested, z_0 = 0, lies inside the disc. */
  lemma OriginInside(c: Complex)
    ensures !Escaped(Orbit(c, 0))
  {
  }

  /** With at least one iteration the count is never 0, because z_0 = 0 is
      tested first and lies inside the disc. */
  lemma EscapeTimeNeverZero(c: Complex, threshold: int)
    requires threshold >= 1
    ensures EscapeTime(c, threshold) >= 1
  {
    OriginInside(c);
    EscapeFromFacts(c, 1, threshold);
  }

  /** Raising the cap does not change a count that already escaped below it. */
  lemma EscapeTimeStable(c: Complex, t1: nat, t2: int)
    requires t1 <= t2
    requires EscapeTime(c, t1) < t1
    ensures EscapeTime(c, t2) == EscapeTime(c, t1)
  {
    var n := EscapeTime(c, t1);
    EscapeTimeRange(c, t1);
    EscapeTimeIsFirstEscape(c, t1, n);
    EscapeTimeIsFirstEscape(c, t2, n);
  }

  /** When |c + 1| > 2 the orbit escapes at the first value tested after z_0,
      so the count is 1 (for instance c = 10 + 10i). */
  lemma EscapeTimeFarPoint(c: Complex, threshold: int)
    requires threshold >= 1
    requires Escaped(Add(c, One))
    ensures EscapeTime(c, threshold) == 1
  {
    OriginInside(c);
    assert Orbit(c, 1) == Step(Zero, c);
    assert Step(Zero, c) == Add(c, One);
    assert EscapeTime(c, threshold) == EscapeFrom(c, 1, threshold);
  }

  /** The kernel's orbit, shifted by one, is the textbook orbit of c + 1
      started from 1. */
  lemma {:induction false} OrbitIsShiftedClassical(c: Complex, i: nat)
    ensures Add(Orbit(c, i), One) == ClassicalOrbit(Add(c, One), One, i)
  {
    if i > 0 {
      OrbitIsShiftedClassical(c, i - 1);
      StepIsShiftedClassical(Orbit(c, i - 1), c);
    }
  }
}
