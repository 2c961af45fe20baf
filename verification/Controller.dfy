/**
  The adaptive controller behind updateBatchSize: how many messages to ask for next, from the rate at
  which messages were handed out.  Floats are modelled as reals.
 */
module Controller {
  const DESIRED_QUEUE_SECONDS := 2.0
  const MIN_ELAPSED := 0.1
  const PREFETCH_RATIO := 0.5
  const INITIAL_BATCH_SIZE := 1.0
  const DECAY := 0.5
  const MAX_GROWTH := 2.0
  const MAX_SHRINK := 0.75
  const MAX_BATCH := 3000.0

  /** The number of messages that would last for the desired duration at the measured rate. */
  function Ideal(count: nat, elapsed: real): real {
    var e := if elapsed < MIN_ELAPSED then MIN_ELAPSED else elapsed;
    DESIRED_QUEUE_SECONDS * (count as real / e)
  }

  /** One update: halfway to the ideal, but at most doubling and at most shrinking to 75%. */
  function Adjust(running: real, ideal: real): real {
    var next := running * (1.0 - DECAY) + ideal * DECAY;
    if next > running * MAX_GROWTH then running * MAX_GROWTH
    else if next < running * MAX_SHRINK then running * MAX_SHRINK
    else next
  }

  function Ceil(r: real): (n: int)
    ensures n as real - 1.0 < r <= n as real
  {
    if r.Floor as real == r then r.Floor else r.Floor + 1
  }

  /** How many messages to request: at least one, at most 3000. */
  function Request(running: real): (n: int)
    ensures n <= 3000 && (running > 0.0 ==> n >= 1)
    ensures 0.0 < running <= 1.0 ==> n == 1
  {
    Ceil(if running < MAX_BATCH then running else MAX_BATCH)
  }

  /** The request is the size, at most 3000, rounded up. */
  lemma RequestIsCeiling(running: real)
    ensures var size := if running < 3000.0 then running else 3000.0;
            Request(running) as real - 1.0 < size <= Request(running) as real
  {
  }

  /** The ideal is what two seconds take at the rate measured over at least a tenth of a second. */
  lemma IdealIsTwoSeconds(count: nat, elapsed: real, rate: real)
    requires rate * (if elapsed < 0.1 then 0.1 else elapsed) == count as real
    ensures Ideal(count, elapsed) == 2.0 * rate
  {
    var e := if elapsed < 0.1 then 0.1 else elapsed;
    SameQuotient(rate, count as real / e, e);
  }

  lemma SameQuotient(x: real, y: real, e: real)
    requires e > 0.0 && x * e == y * e
    ensures x == y
  {
    assert x * e / e == x && y * e / e == y;
  }

  /** The 100 ms floor bounds the ideal size by twenty messages per message handed out. */
  lemma IdealBound(count: nat, elapsed: real)
    ensures 0.0 <= Ideal(count, elapsed) <= 20.0 * count as real
  {
    var c, e := count as real, if elapsed < MIN_ELAPSED then MIN_ELAPSED else elapsed;
    var rate := c / e;
    assert rate * e == c && rate >= 0.0;
    Scale(rate, 1.0, 10.0 * e);
    assert rate * (10.0 * e) == 10.0 * (rate * e);
  }

  lemma Scale(x: real, a: real, b: real)
    requires x >= 0.0 && a <= b
    ensures x * a <= x * b
  {
  }

  // ---- convergence -----------------------------------------------------------------------------

  function Iterate(running: real, ideal: real, k: nat): real {
    if k == 0 then running else Adjust(Iterate(running, ideal, k - 1), ideal)
  }

  predicate InBand(running: real, ideal: real) {
    ideal / 3.0 <= running <= 2.0 * ideal
  }

  /** An update strictly approaches the ideal size and never passes it. */
  lemma NoOvershoot(running: real, ideal: real)
    requires running > 0.0 && ideal > 0.0
    ensures running < ideal ==> running < Adjust(running, ideal) < ideal
    ensures running > ideal ==> running > Adjust(running, ideal) > ideal
    ensures running == ideal ==> Adjust(running, ideal) == ideal
  {
  }

  /** The clamps leave an update alone, so that it exactly halves the distance, just when the size is
      between a third of the ideal and twice the ideal. */
  lemma HalvesInBand(running: real, ideal: real)
    requires running > 0.0 && ideal > 0.0
    ensures Adjust(running, ideal) - ideal == (running - ideal) / 2.0 <==> InBand(running, ideal)
    ensures InBand(running, ideal) ==> InBand(Adjust(running, ideal), ideal)
  {
  }

  lemma IterateNone(running: real, ideal: real)
    ensures Iterate(running, ideal, 0) == running
  {
  }

  lemma {:induction false} IterateFrom(running: real, ideal: real, k: nat)
    ensures Iterate(Adjust(running, ideal), ideal, k) == Iterate(running, ideal, k + 1)
  {
    if k > 0 {
      IterateFrom(running, ideal, k - 1);
    }
  }

  /** From below a third of the ideal the size doubles until it is in the band. */
  lemma {:induction false} Climb(running: real, ideal: real, n: nat) returns (k: nat)
    requires 0.0 < running < ideal / 3.0 && ideal <= n as real * running
    ensures InBand(Iterate(running, ideal, k), ideal)
    decreases n
  {
    var next := Adjust(running, ideal);
    assert next == 2.0 * running;
    if next >= ideal / 3.0 {
      return 1;
    }
    if n <= 3 {
      Scale(running, n as real, 3.0);
      assert false;
    }
    assert (n - 1) as real * next == n as real * running + (n - 2) as real * running;
    assert (n - 2) as real * running >= 0.0;
    k := Climb(next, ideal, n - 1);
    IterateFrom(running, ideal, k);
    k := k + 1;
  }

  /** From above twice the ideal the size shrinks by a quarter until it is in the band. */
  lemma {:induction false} Descend(running: real, ideal: real, n: nat) returns (k: nat)
    requires ideal > 0.0 && running > 2.0 * ideal && running <= n as real * (ideal / 2.0)
    ensures InBand(Iterate(running, ideal, k), ideal)
    decreases n
  {
    var next := Adjust(running, ideal);
    assert next == 0.75 * running;
    if next <= 2.0 * ideal {
      return 1;
    }
    assert n > 0;
    assert (n - 1) as real * (ideal / 2.0) == n as real * (ideal / 2.0) - ideal / 2.0;
    k := Descend(next, ideal, n - 1);
    IterateFrom(running, ideal, k);
    k := k + 1;
  }

  lemma Archimedes(x: real, step: real) returns (n: nat)
    requires x > 0.0 && step > 0.0
    ensures x <= n as real * step
  {
    var q := x / step;
    n := q.Floor + 1;
    assert q * step == x;
    assert n as real >= q;
    assert n as real * step >= q * step;
  }

  function Pow2(j: nat): real {
    if j == 0 then 1.0 else 2.0 * Pow2(j - 1)
  }

  /** With a steady measurement the size gets into the band after finitely many updates and from then
      on its distance to the ideal is exactly halved by every update. */
  lemma Converges(running: real, ideal: real) returns (k: nat)
    requires running > 0.0 && ideal > 0.0
    ensures InBand(Iterate(running, ideal, k), ideal)
    ensures forall j: nat ::
      (Iterate(running, ideal, k + j) - ideal) * Pow2(j) == Iterate(running, ideal, k) - ideal
  {
    hide Adjust, Iterate, Pow2;
    if running < ideal / 3.0 {
      var n := Archimedes(ideal, running);
      k := Climb(running, ideal, n);
    } else if running > 2.0 * ideal {
      var n := Archimedes(running, ideal / 2.0);
      k := Descend(running, ideal, n);
    } else {
      k := 0;
      IterateNone(running, ideal);
    }
    forall j: nat
      ensures (Iterate(running, ideal, k + j) - ideal) * Pow2(j) == Iterate(running, ideal, k) - ideal
    {
      Halvings(running, ideal, k, j);
    }
  }

  lemma {:induction false} Halvings(running: real, ideal: real, k: nat, j: nat)
    requires running > 0.0 && ideal > 0.0 && InBand(Iterate(running, ideal, k), ideal)
    ensures InBand(Iterate(running, ideal, k + j), ideal)
    ensures Iterate(running, ideal, k + j) > 0.0
    ensures (Iterate(running, ideal, k + j) - ideal) * Pow2(j) == Iterate(running, ideal, k) - ideal
  {
    hide Adjust;
    if j > 0 {
      Halvings(running, ideal, k, j - 1);
      var before := Iterate(running, ideal, k + j - 1);
      HalvesInBand(before, ideal);
      HalfTimes(before - ideal, Adjust(before, ideal) - ideal, Pow2(j - 1));
    }
  }

  lemma HalfTimes(d: real, half: real, p: real)
    requires half == d / 2.0
    ensures half * (2.0 * p) == d * p
  {
  }

  lemma {:induction false} Pow2Grows(j: nat)
    ensures Pow2(j) >= j as real + 1.0
  {
    if j > 0 {
      Pow2Grows(j - 1);
    }
  }

  lemma NearRequests(a: real, b: real)
    requires -1.0 < a - b < 1.0
    ensures Request(b) - 1 <= Request(a) <= Request(b) + 1
  {
  }

  /** So with a steady measurement the requests settle at the ideal size, at most 3000, rounded up, or
      next to it. */
  lemma RequestsSettle(running: real, ideal: real) returns (n: nat)
    requires running > 0.0 && ideal > 0.0
    ensures forall i: nat :: i >= n ==> Request(ideal) - 1 <= Request(Iterate(running, ideal, i)) <= Request(ideal) + 1
  {
    hide Iterate, Request, Pow2;
    var k := Converges(running, ideal);
    var d := Iterate(running, ideal, k) - ideal;
    var m := Archimedes(if d < 0.0 then -d + 1.0 else d + 1.0, 1.0);
    n := k + m;
    forall i: nat | i >= n
      ensures Request(ideal) - 1 <= Request(Iterate(running, ideal, i)) <= Request(ideal) + 1
    {
      var j := i - k;
      Pow2Grows(j);
      assert (Iterate(running, ideal, k + j) - ideal) * Pow2(j) == d;
      SmallQuotient(Iterate(running, ideal, i) - ideal, Pow2(j), d);
      NearRequests(Iterate(running, ideal, i), ideal);
    }
  }

  lemma SmallQuotient(x: real, p: real, d: real)
    requires x * p == d && -p < d < p && p > 0.0
    ensures -1.0 < x < 1.0
  {
    if x >= 1.0 {
      Scale(p, 1.0, x);
      assert false;
    } else if x <= -1.0 {
      Scale(p, 1.0, -x);
      assert false;
    }
  }

  function Pow(x: real, k: nat): real {
    if k == 0 then 1.0 else x * Pow(x, k - 1)
  }

  /** With nothing handed out the size is exactly 0.75^k of where it started. */
  lemma {:induction false} Decays(running: real, k: nat)
    requires running > 0.0
    ensures Iterate(running, 0.0, k) == Pow(MAX_SHRINK, k) * running > 0.0
  {
    if k > 0 {
      Decays(running, k - 1);
    }
  }

  lemma {:induction false} ShrinksToOne(running: real, n: nat) returns (k: nat)
    requires 0.0 < running <= 1.0 + n as real * 0.25
    ensures Iterate(running, 0.0, k) <= 1.0
    decreases n
  {
    if running <= 1.0 {
      return 0;
    }
    var next := Adjust(running, 0.0);
    assert next == 0.75 * running;
    k := ShrinksToOne(next, n - 1);
    IterateFrom(running, 0.0, k);
    k := k + 1;
  }

  /** So from some update on every request is for a single message. */
  lemma IdlesAtOne(running: real) returns (k: nat)
    requires running > 0.0
    ensures forall j: nat :: j >= k ==> Request(Iterate(running, 0.0, j)) == 1
  {
    var n := Archimedes(running, 0.25);
    k := ShrinksToOne(running, n);
    forall j: nat | j >= k ensures Request(Iterate(running, 0.0, j)) == 1 {
      StaysSmall(running, k, j);
    }
  }

  lemma {:induction false} StaysSmall(running: real, k: nat, j: nat)
    requires running > 0.0 && k <= j && Iterate(running, 0.0, k) <= 1.0
    ensures 0.0 < Iterate(running, 0.0, j) <= 1.0
    decreases j
  {
    Decays(running, j);
    if j > k {
      StaysSmall(running, k, j - 1);
    }
  }

  // ---- the potential ---------------------------------------------------------------------------

  const POTENTIAL := 2880000.0

  /** The heart of the memory bound.  Between two updates at most 3000 messages arrive, and an update
      happens only when the queue is at most half the running size; so running + 20·queue does not
      grow once running is at least 240000, and is below the constant otherwise. */
  lemma PotentialStep(running: real, base: nat, gained: nat, count: nat, queue: nat, elapsed: real)
    requires running > 0.0 && gained <= 3000
    requires count + queue == base + gained
    requires queue as real <= running * PREFETCH_RATIO
    ensures var after := Adjust(running, Ideal(count, elapsed)) + 20.0 * queue as real;
            if running >= 240000.0 then after <= running + 20.0 * base as real else after <= POTENTIAL
  {
    IdealBound(count, elapsed);
    assert count as real + queue as real == base as real + gained as real;
  }
}
