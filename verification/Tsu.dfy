/** The timestamp unit's clock discipline: every period the tick increment is set from
the measured rates and the current offset.  The controller's own arithmetic is on ideal
reals; the fixed-point register the increment ends up in is modelled exactly. */
module Tsu {
  import Ring

  const INC_MAX: real := 0.00000002980215192

  /** The controller as written: the rate of the last period, an offset correction spread
      over ten periods. */
  function ComputeIncrement(dTs: real, dTr: real, offset: real, lastInc: real): real
    requires dTs > 0.0 && dTr > 0.0 && lastInc > 0.0
  {
    Quotient(dTs, dTr);
    Product(dTs / dTr, lastInc);
    Quotient(dTr, lastInc);
    Steer(dTs / dTr * lastInc, offset / (dTr / lastInc * 10.0))
  }

  /** Subtract the wished correction, but never more than half the rate, and stay within
      what the register can hold. */
  function Steer(rate: real, wish: real): real
    requires rate > 0.0
  {
    var correction := if wish > 0.0 && wish / rate > 0.5 then rate / 2.0 else wish;
    if rate - correction > INC_MAX then INC_MAX else rate - correction
  }

  lemma Quotient(a: real, b: real)
    requires a > 0.0 && b > 0.0
    ensures a / b > 0.0
  {
    var q := a / b;
    assert q * b == a;
    if q < 0.0 { Product(0.0 - q, b); }
  }

  /** Offset of the card clock after one period of `ticks` ticks in which the true
      increment is `inc`, when it ran with the computed increment. */
  function NextOffset(offset: real, ticks: real, inc: real, lastInc: real): real
    requires ticks > 0.0 && inc > 0.0 && lastInc > 0.0
  {
    Product(ticks, inc);
    Product(ticks, lastInc);
    offset + ticks * ComputeIncrement(ticks * inc, ticks * lastInc, offset, lastInc) - ticks * inc
  }

  lemma Product(a: real, b: real)
    requires a > 0.0 && b > 0.0
    ensures a * b > 0.0
  {
  }

  function MinR(a: real, b: real): real { if a <= b then a else b }

  /** What one period does to the distance from zero: a tenth of it, but at most `d`,
      is taken away. */
  function Decay(m: real, d: real): real {
    m - MinR(m / 10.0, d)
  }

  /** The most that one period can take away, for a clock that is ahead or behind. */
  function Limit(ahead: bool, ticks: real, inc: real): real {
    if ahead then ticks * inc / 2.0 else ticks * (INC_MAX - inc)
  }

  lemma Cancel(a: real, b: real)
    requires a > 0.0 && b > 0.0
    ensures a * b > 0.0 && a * b / b == a
  {
    Product(a, b);
    var q := a * b / b;
    assert q * b == a * b;
    assert (q - a) * b == 0.0;
  }

  /** Both measured rates cancel: the controller does not depend on its last output. */
  lemma ForgetsLast(offset: real, ticks: real, inc: real, lastInc: real)
    requires ticks > 0.0 && inc > 0.0 && lastInc > 0.0
    ensures ticks * inc > 0.0 && ticks * lastInc > 0.0
    ensures ComputeIncrement(ticks * inc, ticks * lastInc, offset, lastInc) == Steer(inc, offset / (ticks * 10.0))
  {
    Product(ticks, inc);
    Cancel(ticks, lastInc);
    var q := ticks * inc / (ticks * lastInc);
    assert q * (ticks * lastInc) == ticks * inc;
    assert (q * lastInc - inc) * ticks == 0.0;
    assert q * lastInc == inc;
    SameSteer(ticks * inc, ticks * lastInc, offset, lastInc, inc, ticks);
  }

  lemma SameSteer(dTs: real, dTr: real, offset: real, lastInc: real, rate: real, freq: real)
    requires dTs > 0.0 && dTr > 0.0 && lastInc > 0.0 && rate > 0.0 && freq > 0.0
    requires dTs / dTr * lastInc == rate && dTr / lastInc == freq
    ensures ComputeIncrement(dTs, dTr, offset, lastInc) == Steer(rate, offset / (freq * 10.0))
  {
    hide Steer;
  }

  /** For every offset, one period moves the clock toward zero by a tenth of the offset,
      cut off at half speed or at the register limit, and never past zero. */
  lemma StepIsDecay(offset: real, ticks: real, inc: real, lastInc: real)
    requires ticks > 0.0 && 0.0 < inc <= INC_MAX && lastInc > 0.0
    ensures NextOffset(offset, ticks, inc, lastInc) ==
            if offset >= 0.0 then Decay(offset, Limit(true, ticks, inc)) else -Decay(-offset, Limit(false, ticks, inc))
  {
    hide Steer, Decay, Limit, ComputeIncrement;
    ForgetsLast(offset, ticks, inc, lastInc);
    TenPeriods(offset, ticks);
    Steered(offset, ticks, inc, offset / (ticks * 10.0));
  }

  lemma TenPeriods(offset: real, ticks: real)
    requires ticks > 0.0
    ensures ticks * (offset / (ticks * 10.0)) == offset / 10.0
  {
    var wish := offset / (ticks * 10.0);
    assert wish * (ticks * 10.0) == offset;
    assert wish * (ticks * 10.0) == 10.0 * (ticks * wish);
  }

  /** Scaling by a positive factor keeps every order between two values. */
  lemma Scale(t: real, a: real, b: real)
    requires t > 0.0
    ensures (a < b <==> t * a < t * b) && (a <= b <==> t * a <= t * b)
  {
    if a < b { Product(t, b - a); assert t * (b - a) == t * b - t * a; }
    if a > b { Product(t, a - b); assert t * (a - b) == t * a - t * b; }
  }

  lemma HalfLimit(wish: real, inc: real)
    requires inc > 0.0
    ensures wish / inc > 0.5 <==> wish > inc / 2.0
  {
    var q := wish / inc;
    assert q * inc == wish;
    Scale(inc, 0.5, q);
  }

  lemma Distribute(t: real, a: real, b: real)
    ensures t * (a - b) == t * a - t * b
  {
  }

  lemma Steered(offset: real, ticks: real, inc: real, wish: real)
    requires ticks > 0.0 && 0.0 < inc <= INC_MAX && ticks * wish == offset / 10.0
    ensures offset + ticks * Steer(inc, wish) - ticks * inc ==
            if offset >= 0.0 then Decay(offset, Limit(true, ticks, inc)) else -Decay(-offset, Limit(false, ticks, inc))
  {
    Scale(ticks, 0.0, wish);
    if offset >= 0.0 {
      SlowedDown(offset, ticks, inc, wish);
    } else {
      SpedUp(offset, ticks, inc, wish);
    }
  }

  /** A clock ahead is slowed by the wish, at most by half. */
  lemma SlowedDown(offset: real, ticks: real, inc: real, wish: real)
    requires ticks > 0.0 && 0.0 < inc <= INC_MAX && ticks * wish == offset / 10.0 && wish >= 0.0
    ensures offset + ticks * Steer(inc, wish) - ticks * inc == Decay(offset, Limit(true, ticks, inc))
  {
    var c := MinR(wish, inc / 2.0);
    HalfLimit(wish, inc);
    assert Steer(inc, wish) == inc - c;
    hide Steer;
    Distribute(ticks, inc, c);
    Scale(ticks, wish, inc / 2.0);
    Half(ticks, inc);
  }

  /** A clock behind is sped up by the wish, at most to the register limit. */
  lemma SpedUp(offset: real, ticks: real, inc: real, wish: real)
    requires ticks > 0.0 && 0.0 < inc <= INC_MAX && ticks * wish == offset / 10.0 && wish < 0.0
    ensures offset + ticks * Steer(inc, wish) - ticks * inc == -Decay(-offset, Limit(false, ticks, inc))
  {
    var c := MinR(0.0 - wish, INC_MAX - inc);
    assert Steer(inc, wish) == inc - (0.0 - c);
    hide Steer;
    Distribute(ticks, inc, 0.0 - c);
    Distribute(ticks, 0.0, wish);
    Distribute(ticks, 0.0, c);
    Scale(ticks, 0.0 - wish, INC_MAX - inc);
  }

  lemma Half(t: real, a: real)
    ensures t * (a / 2.0) == t * a / 2.0
  {
  }

  // ----- convergence -----

  /** The clock contracts toward zero from every nonzero offset, without changing side,
      if and only if the true increment is below what the register can hold. */
  lemma ContractsIff(ticks: real, inc: real, lastInc: real)
    requires ticks > 0.0 && 0.0 < inc && lastInc > 0.0
    ensures (forall o: real :: o != 0.0 ==> Closer(o, NextOffset(o, ticks, inc, lastInc))) <==> inc < INC_MAX
  {
    if inc < INC_MAX {
      forall o: real | o != 0.0 ensures Closer(o, NextOffset(o, ticks, inc, lastInc)) {
        StepIsDecay(o, ticks, inc, lastInc);
        Product(ticks, inc);
        Product(ticks, INC_MAX - inc);
      }
    } else {
      ForgetsLast(-1.0, ticks, inc, lastInc);
      Behind(ticks, inc);
      assert !Closer(-1.0, NextOffset(-1.0, ticks, inc, lastInc));
    }
  }

  /** `b` is on the same side of zero as `a` and strictly nearer. */
  predicate Closer(a: real, b: real) {
    if a > 0.0 then 0.0 < b < a else a < b < 0.0
  }

  lemma Behind(ticks: real, inc: real)
    requires ticks > 0.0 && inc >= INC_MAX
    ensures ticks * Steer(inc, -1.0 / (ticks * 10.0)) <= ticks * inc
  {
    var wish := -1.0 / (ticks * 10.0);
    assert wish * (ticks * 10.0) == -1.0;
    Scale(ticks, wish, 0.0);
    Scale(ticks, Steer(inc, wish), inc);
  }

  function Times(n: nat, d: real): real { n as real * d }

  /** The distance from zero after `n` periods. */
  function DecayN(m: real, d: real, n: nat): real
    decreases n
  {
    if n == 0 then m else DecayN(Decay(m, d), d, n - 1)
  }

  function Pow9(n: nat): real { if n == 0 then 1.0 else 0.9 * Pow9(n - 1) }

  /** Below ten times the limit nothing is cut off: `n` periods leave 0.9^n. */
  lemma {:induction false} Unclamped(m: real, d: real, n: nat)
    requires 0.0 <= m <= 10.0 * d
    ensures DecayN(m, d, n) == Pow9(n) * m
    decreases n
  {
    if n > 0 { Unclamped(0.9 * m, d, n - 1); assert Pow9(n) * m == Pow9(n - 1) * (0.9 * m); }
  }

  lemma {:induction false} DecaySplit(m: real, d: real, j: nat, k: nat)
    ensures DecayN(m, d, j + k) == DecayN(DecayN(m, d, j), d, k)
    decreases j
  {
    if j > 0 { DecaySplit(Decay(m, d), d, j - 1, k); }
  }

  lemma {:induction false} DecayShrinks(m: real, d: real, n: nat)
    requires m >= 0.0 && d > 0.0
    ensures 0.0 <= DecayN(m, d, n) <= m && (m > 0.0 ==> DecayN(m, d, n) > 0.0)
    decreases n
  {
    if n > 0 { DecayShrinks(Decay(m, d), d, n - 1); }
  }

  /** The cut-off periods come first and there are finitely many of them. */
  lemma {:induction false} ReachesUnclamped(m: real, d: real, k: nat)
    requires m >= 0.0 && d > 0.0 && m <= 10.0 * d + Times(k, d)
    ensures DecayN(m, d, k) <= 10.0 * d
    decreases k
  {
    if k > 0 {
      if m > 10.0 * d {
        assert Times(k, d) == Times(k - 1, d) + d;
        ReachesUnclamped(m - d, d, k - 1);
      } else {
        DecayShrinks(m, d, k);
      }
    }
  }

  lemma {:induction false} PowerSmall(n: nat)
    ensures 0.0 < Pow9(n) && Pow9(n) * (9.0 + n as real) <= 9.0
  {
    if n > 0 {
      PowerSmall(n - 1);
      var p, x := Pow9(n - 1), (n - 1) as real;
      assert 0.9 * p * (9.0 + (x + 1.0)) == p * (9.0 + 0.9 * x);
      Scale(p, 9.0 + 0.9 * x, 9.0 + x);
    }
  }

  lemma Archimedes(x: real, d: real) returns (k: nat)
    requires x >= 0.0 && d > 0.0
    ensures x <= Times(k, d)
  {
    var q := x / d;
    assert q * d == x;
    if q < 0.0 { Product(0.0 - q, d); }
    k := q.Floor + 1;
    Scale(d, q, k as real);
  }

  /** Every start decays below every bound and stays there. */
  lemma DecayConverges(m: real, d: real, eps: real) returns (n: nat)
    requires m >= 0.0 && d > 0.0 && eps > 0.0
    ensures forall j: nat :: j >= n ==> 0.0 <= DecayN(m, d, j) <= eps
  {
    var k := Archimedes(m, d);
    ReachesUnclamped(m, d, k);
    DecayShrinks(m, d, k);
    var m1 := DecayN(m, d, k);
    var i := Archimedes(9.0 * m1, eps);
    n := k + i;
    forall j: nat | j >= n ensures 0.0 <= DecayN(m, d, j) <= eps {
      DecaySplit(m, d, n, j - n);
      DecaySplit(m, d, k, i);
      Unclamped(m1, d, i);
      GeometricBound(m1, eps, i);
      DecayShrinks(DecayN(m, d, n), d, j - n);
    }
  }

  lemma GeometricBound(m: real, eps: real, i: nat)
    requires m >= 0.0 && eps > 0.0 && 9.0 * m <= Times(i, eps)
    ensures 0.0 <= Pow9(i) * m <= eps
  {
    hide Pow9;
    PowerSmall(i);
    SmallProduct(Pow9(i), i as real, m, eps);
  }

  lemma SmallProduct(p: real, x: real, m: real, eps: real)
    requires p > 0.0 && p * (9.0 + x) <= 9.0 && m >= 0.0 && eps > 0.0 && 9.0 * m <= x * eps
    ensures 0.0 <= p * m <= eps
  {
    Scale(p, 0.0, m);
    Scale(p, 9.0 * m, x * eps);
    Regroup(p, 9.0, m);
    Regroup(p, x, eps);
    Spread(p, 9.0, x);
    Product(p, 9.0);
    Scale(eps, p * x, 9.0);
    Regroup(eps, p, x);
  }

  lemma Regroup(a: real, b: real, c: real)
    ensures a * (b * c) == (a * b) * c == b * (a * c) && (a * b) * c == c * (a * b) && a * (b * c) == (b * c) * a
  {
  }

  lemma Spread(a: real, b: real, c: real)
    ensures a * (b + c) == a * b + a * c
  {
  }

  /** Every increment the controller computes is positive. */
  lemma IncrementPositive(dTs: real, dTr: real, offset: real, lastInc: real)
    requires dTs > 0.0 && dTr > 0.0 && lastInc > 0.0
    ensures 0.0 < ComputeIncrement(dTs, dTr, offset, lastInc) <= INC_MAX
  {
    Quotient(dTs, dTr);
    Product(dTs / dTr, lastInc);
    HalfLimit(offset / (dTr / lastInc * 10.0), dTs / dTr * lastInc);
  }

  /** Offset after `n` periods, each started with the increment the one before computed. */
  function Run(offset: real, ticks: real, inc: real, lastInc: real, n: nat): real
    requires ticks > 0.0 && inc > 0.0 && lastInc > 0.0
    decreases n
  {
    if n == 0 then offset
    else
      Product(ticks, inc);
      Product(ticks, lastInc);
      IncrementPositive(ticks * inc, ticks * lastInc, offset, lastInc);
      Run(NextOffset(offset, ticks, inc, lastInc), ticks, inc,
          ComputeIncrement(ticks * inc, ticks * lastInc, offset, lastInc), n - 1)
  }

  lemma {:induction false} RunIsDecay(offset: real, ticks: real, inc: real, lastInc: real, n: nat)
    requires ticks > 0.0 && 0.0 < inc < INC_MAX && lastInc > 0.0
    ensures Run(offset, ticks, inc, lastInc, n) ==
            if offset >= 0.0 then DecayN(offset, Limit(true, ticks, inc), n)
            else -DecayN(-offset, Limit(false, ticks, inc), n)
    decreases n
  {
    if n > 0 {
      Product(ticks, inc);
      Product(ticks, lastInc);
      Product(ticks, INC_MAX - inc);
      hide ComputeIncrement, NextOffset;
      IncrementPositive(ticks * inc, ticks * lastInc, offset, lastInc);
      StepIsDecay(offset, ticks, inc, lastInc);
      RunIsDecay(NextOffset(offset, ticks, inc, lastInc), ticks, inc,
                 ComputeIncrement(ticks * inc, ticks * lastInc, offset, lastInc), n - 1);
    }
  }

  /** From any offset and any first increment the loop brings the clock within any
      distance of system time and keeps it there, on the side it started from. */
  lemma Converges(offset: real, ticks: real, inc: real, lastInc: real, eps: real) returns (n: nat)
    requires ticks > 0.0 && 0.0 < inc < INC_MAX && lastInc > 0.0 && eps > 0.0
    ensures forall j: nat :: j >= n ==> -eps <= Run(offset, ticks, inc, lastInc, j) <= eps
    ensures forall j: nat :: offset >= 0.0 <==> Run(offset, ticks, inc, lastInc, j) >= 0.0
  {
    Product(ticks, inc);
    Product(ticks, INC_MAX - inc);
    var ahead := offset >= 0.0;
    var m, d := if ahead then offset else -offset, Limit(ahead, ticks, inc);
    n := DecayConverges(m, d, eps);
    forall j: nat
      ensures j >= n ==> -eps <= Run(offset, ticks, inc, lastInc, j) <= eps
      ensures offset >= 0.0 <==> Run(offset, ticks, inc, lastInc, j) >= 0.0
    {
      hide Run, Limit;
      RunIsDecay(offset, ticks, inc, lastInc, j);
      DecayShrinks(m, d, j);
    }
  }

  // ----- the increment register -----

  const FRAC := 4294967296.0
  const INC_BITS := 0x80_0000_0000

  /** Fixed-point value of a fraction, computed in two 32-bit halves. */
  function Frac64(x: real): nat
    requires 0.0 <= x < 1.0
  {
    var high := (x * 4294967296.0).Floor;
    high * 0x1_0000_0000 + ((x * 4294967296.0 - high as real) * 4294967296.0).Floor
  }

  /** The two halves together are the whole fraction truncated at 64 bits. */
  lemma Frac64IsFloor(x: real)
    requires 0.0 <= x < 1.0
    ensures Frac64(x) == (x * 4294967296.0 * 4294967296.0).Floor < 0x1_0000_0000_0000_0000
  {
    var high := (x * 4294967296.0).Floor;
    var low := ((x * 4294967296.0 - high as real) * 4294967296.0).Floor;
    FloorIs(x * 4294967296.0 * 4294967296.0, high * 0x1_0000_0000 + low);
  }

  lemma FloorIs(x: real, k: int)
    requires k as real <= x < k as real + 1.0
    ensures x.Floor == k
  {
  }

  /** The largest increment lies below the top of the 39-bit register by less than one part in
      150000: the increment of a clock of 33.554624 MHz or more is never cut off. */
  lemma CapIsNearTop()
    ensures Frac64(INC_MAX) == 549752669314 < INC_BITS == 549755813888
    ensures 150000 * (INC_BITS - Frac64(INC_MAX)) < INC_BITS && 1.0 / 33554624.0 < INC_MAX
  {
    Frac64IsFloor(INC_MAX);
    hide Frac64;
    FloorIs(INC_MAX * 4294967296.0 * 4294967296.0, 549752669314);
  }

  // ----- convergence with the register in the loop -----

  /** One unit of the increment, 2^-64. */
  const UNIT: real := 0.0000000000000000000542101086242752217003726400434970855712890625

  /** The increment the card runs with: what the register holds. */
  function Quantised(x: real): real
    requires 0.0 <= x < 1.0
  {
    Frac64(x) as real * UNIT
  }

  lemma QuantisedIs(x: real)
    requires 0.0 <= x < 1.0
    ensures x - UNIT < Quantised(x) <= x && (x >= UNIT ==> Quantised(x) >= UNIT)
  {
    Frac64IsFloor(x);
    hide Frac64;
    assert 4294967296.0 * 4294967296.0 * UNIT == 1.0;
  }

  lemma QuantisedMonotone(x: real, y: real)
    requires 0.0 <= x <= y < 1.0
    ensures Quantised(x) <= Quantised(y)
  {
    Frac64IsFloor(x);
    Frac64IsFloor(y);
    hide Frac64;
    FloorMonotone(x * 4294967296.0 * 4294967296.0, y * 4294967296.0 * 4294967296.0);
  }

  lemma FloorMonotone(a: real, b: real)
    requires a <= b
    ensures a.Floor <= b.Floor
  {
  }

  /** The controller's output for a clock that measures `ticks` ticks at the true increment. */
  function Output(offset: real, ticks: real, inc: real, lastInc: real): (c: real)
    requires ticks > 0.0 && inc > 0.0 && lastInc > 0.0
    ensures 0.0 < c <= INC_MAX
  {
    Product(ticks, inc);
    Product(ticks, lastInc);
    IncrementPositive(ticks * inc, ticks * lastInc, offset, lastInc);
    ComputeIncrement(ticks * inc, ticks * lastInc, offset, lastInc)
  }

  /** It is at least half the true increment, or the largest there is. */
  lemma OutputAtLeast(offset: real, ticks: real, inc: real, lastInc: real)
    requires ticks > 0.0 && inc >= 2.0 * UNIT && lastInc > 0.0
    ensures Quantised(Output(offset, ticks, inc, lastInc)) >= UNIT
  {
    ForgetsLast(offset, ticks, inc, lastInc);
    var wish := offset / (ticks * 10.0);
    HalfLimit(wish, inc);
    assert Steer(inc, wish) >= UNIT;
    hide Steer, ComputeIncrement;
    QuantisedIs(Output(offset, ticks, inc, lastInc));
  }

  /** Offset after one period at the quantised increment. */
  function NextQuantised(offset: real, ticks: real, inc: real, lastInc: real): real
    requires ticks > 0.0 && inc > 0.0 && lastInc > 0.0
  {
    offset + ticks * Quantised(Output(offset, ticks, inc, lastInc)) - ticks * inc
  }

  /** Offset after `n` periods, each run and started with the quantised increment. */
  function RunQuantised(offset: real, ticks: real, inc: real, lastInc: real, n: nat): real
    requires ticks > 0.0 && inc >= 2.0 * UNIT && lastInc > 0.0
    decreases n
  {
    if n == 0 then offset
    else
      OutputAtLeast(offset, ticks, inc, lastInc);
      RunQuantised(NextQuantised(offset, ticks, inc, lastInc), ticks, inc, Quantised(Output(offset, ticks, inc, lastInc)), n - 1)
  }

  function MaxR(a: real, b: real): real { if a >= b then a else b }

  /** What rounding can cost in one period, and what full speed gains. */
  function Unit(ticks: real): real { ticks * UNIT }

  function Gain(ticks: real, inc: real): real { ticks * (Quantised(INC_MAX) - inc) }

  /** How far a clock is ahead, and how far behind beyond ten units. */
  function Ahead(offset: real): real { MaxR(offset, 0.0) }

  function Late(offset: real, u: real): real { MaxR(0.0 - offset - 10.0 * u, 0.0) }

  /** One period: ahead, the clock falls back as without rounding or further; behind, its
      distance beyond ten units decays, by no more than full speed allows. */
  lemma StepQuantised(offset: real, ticks: real, inc: real, lastInc: real)
    requires ticks > 0.0 && 0.0 < inc < Quantised(INC_MAX) && lastInc > 0.0
    ensures
      var next := NextQuantised(offset, ticks, inc, lastInc);
      && Ahead(next) <= Decay(Ahead(offset), Limit(true, ticks, inc))
      && Late(next, Unit(ticks)) <= Decay(Late(offset, Unit(ticks)), Gain(ticks, inc))
  {
    hide Quantised, NextOffset, NextQuantised, Output, Gain, Limit, Unit, Decay, Ahead, Late;
    Limits(ticks, inc);
    NextBetween(offset, ticks, inc, lastInc);
    StepIsDecay(offset, ticks, inc, lastInc);
    if offset < 0.0 && 0.0 - offset > 10.0 * Limit(false, ticks, inc) {
      FullSpeed(offset, ticks, inc, lastInc);
    }
    Bounds(offset, NextQuantised(offset, ticks, inc, lastInc), NextOffset(offset, ticks, inc, lastInc),
           Limit(true, ticks, inc), Limit(false, ticks, inc), Gain(ticks, inc), Unit(ticks));
  }

  /** A clock behind by more than ten times the limit runs at the largest increment. */
  lemma FullSpeed(offset: real, ticks: real, inc: real, lastInc: real)
    requires ticks > 0.0 && 0.0 < inc <= INC_MAX && lastInc > 0.0 && offset < 0.0 && 0.0 - offset > 10.0 * Limit(false, ticks, inc)
    ensures NextQuantised(offset, ticks, inc, lastInc) == offset + Gain(ticks, inc)
  {
    ForgetsLast(offset, ticks, inc, lastInc);
    TenPeriods(offset, ticks);
    var wish := offset / (ticks * 10.0);
    Distribute(ticks, 0.0, wish);
    Scale(ticks, INC_MAX - inc, 0.0 - wish);
    Scale(ticks, wish, 0.0);
    assert Steer(inc, wish) == INC_MAX;
    hide ComputeIncrement, Steer, Quantised;
    assert Output(offset, ticks, inc, lastInc) == INC_MAX;
    Distribute(ticks, Quantised(INC_MAX), inc);
  }

  lemma NextBetween(offset: real, ticks: real, inc: real, lastInc: real)
    requires ticks > 0.0 && 0.0 < inc && lastInc > 0.0
    ensures
      var next, free := NextQuantised(offset, ticks, inc, lastInc), NextOffset(offset, ticks, inc, lastInc);
      free - Unit(ticks) < next <= free
  {
    hide ComputeIncrement, Quantised;
    var c := Output(offset, ticks, inc, lastInc);
    QuantisedIs(c);
    Lag(ticks, c, Quantised(c));
    hide Output;
  }

  lemma Bounds(offset: real, next: real, free: real, d1: real, d2: real, p: real, u: real)
    requires free == (if offset >= 0.0 then Decay(offset, d1) else -Decay(-offset, d2)) && free - u < next <= free
    requires d1 > 0.0 && d2 > 0.0 && p > 0.0 && u > 0.0
    requires offset < 0.0 && 0.0 - offset > 10.0 * d2 ==> next == offset + p
    ensures Ahead(next) <= Decay(Ahead(offset), d1) && Late(next, u) <= Decay(Late(offset, u), p)
  {
  }

  /** What rounding costs in one period is less than a unit per tick. */
  lemma Lag(ticks: real, c: real, q: real)
    requires ticks > 0.0 && c - UNIT < q <= c
    ensures ticks * c - ticks * UNIT < ticks * q <= ticks * c
  {
    Scale(ticks, c - UNIT, q);
    Scale(ticks, q, c);
    Distribute(ticks, c, UNIT);
  }

  lemma DecayMonotone(a: real, b: real, d: real)
    requires 0.0 <= a <= b && d > 0.0
    ensures 0.0 <= Decay(a, d) <= Decay(b, d)
  {
  }

  lemma {:induction false} DecayNMonotone(a: real, b: real, d: real, n: nat)
    requires 0.0 <= a <= b && d > 0.0
    ensures DecayN(a, d, n) <= DecayN(b, d, n)
    decreases n
  {
    if n > 0 {
      DecayMonotone(a, b, d);
      DecayNMonotone(Decay(a, d), Decay(b, d), d, n - 1);
    }
  }

  /** So after any number of periods the two distances are at most what decay leaves. */
  lemma {:induction false} RunQuantisedDecays(offset: real, ticks: real, inc: real, lastInc: real, n: nat)
    requires ticks > 0.0 && 2.0 * UNIT <= inc < Quantised(INC_MAX) && lastInc > 0.0
    ensures
      var last := RunQuantised(offset, ticks, inc, lastInc, n);
      && Ahead(last) <= DecayN(Ahead(offset), Limit(true, ticks, inc), n)
      && Late(last, Unit(ticks)) <= DecayN(Late(offset, Unit(ticks)), Gain(ticks, inc), n)
    decreases n
  {
    if n > 0 {
      hide Quantised, Output, Limit, Ahead, Late, Decay, Gain, Unit, NextQuantised;
      var next := NextQuantised(offset, ticks, inc, lastInc);
      var last := Quantised(Output(offset, ticks, inc, lastInc));
      OutputAtLeast(offset, ticks, inc, lastInc);
      StepQuantised(offset, ticks, inc, lastInc);
      Limits(ticks, inc);
      RunQuantisedDecays(next, ticks, inc, last, n - 1);
      NextDecays(next, offset, Limit(true, ticks, inc), Gain(ticks, inc), Unit(ticks), n - 1);
    }
  }

  lemma NextDecays(next: real, offset: real, d1: real, d2: real, u: real, n: nat)
    requires d1 > 0.0 && d2 > 0.0 && Ahead(next) <= Decay(Ahead(offset), d1) && Late(next, u) <= Decay(Late(offset, u), d2)
    ensures DecayN(Ahead(next), d1, n) <= DecayN(Ahead(offset), d1, n + 1)
    ensures DecayN(Late(next, u), d2, n) <= DecayN(Late(offset, u), d2, n + 1)
  {
    hide Decay;
    DecayNMonotone(Ahead(next), Decay(Ahead(offset), d1), d1, n);
    DecayNMonotone(Late(next, u), Decay(Late(offset, u), d2), d2, n);
  }

  lemma Limits(ticks: real, inc: real)
    requires ticks > 0.0 && 0.0 < inc < Quantised(INC_MAX)
    ensures inc <= INC_MAX && Limit(true, ticks, inc) > 0.0 && Limit(false, ticks, inc) > 0.0 && Gain(ticks, inc) > 0.0 && Unit(ticks) > 0.0
  {
    QuantisedIs(INC_MAX);
    hide Quantised;
    Product(ticks, inc);
    var room := INC_MAX - inc;
    Product(ticks, room);
    assert Limit(false, ticks, inc) == ticks * room;
    Product(ticks, Quantised(INC_MAX) - inc);
    Product(ticks, UNIT);
  }

  /** With the increment rounded down to the register in every period, the clock ends up no
      further ahead than any distance and no further behind than ten units per tick and any
      distance, from every offset, as long as full speed is faster than the true rate. */
  lemma Settles(offset: real, ticks: real, inc: real, lastInc: real, eps: real) returns (n: nat)
    requires ticks > 0.0 && 2.0 * UNIT <= inc < Quantised(INC_MAX) && lastInc > 0.0 && eps > 0.0
    ensures forall j: nat :: j >= n ==>
              -(10.0 * Unit(ticks) + eps) <= RunQuantised(offset, ticks, inc, lastInc, j) <= eps
  {
    hide Quantised, Limit, Gain, Unit;
    Limits(ticks, inc);
    var n1 := DecayConverges(Ahead(offset), Limit(true, ticks, inc), eps);
    var n2 := DecayConverges(Late(offset, Unit(ticks)), Gain(ticks, inc), eps);
    n := if n1 >= n2 then n1 else n2;
    forall j: nat | j >= n
      ensures -(10.0 * Unit(ticks) + eps) <= RunQuantised(offset, ticks, inc, lastInc, j) <= eps
    {
      hide RunQuantised;
      RunQuantisedDecays(offset, ticks, inc, lastInc, j);
    }
  }

  /** If full speed is no faster than the true rate, a clock never gets nearer from behind. */
  lemma {:induction false} NeverCatchesUp(offset: real, ticks: real, inc: real, lastInc: real, n: nat)
    requires ticks > 0.0 && 2.0 * UNIT <= inc && Quantised(INC_MAX) <= inc && lastInc > 0.0
    ensures RunQuantised(offset, ticks, inc, lastInc, n) <= offset
    decreases n
  {
    if n > 0 {
      hide Quantised, Output, NextQuantised;
      OutputAtLeast(offset, ticks, inc, lastInc);
      NoGain(offset, ticks, inc, lastInc);
      NeverCatchesUp(NextQuantised(offset, ticks, inc, lastInc), ticks, inc, Quantised(Output(offset, ticks, inc, lastInc)), n - 1);
    }
  }

  lemma NoGain(offset: real, ticks: real, inc: real, lastInc: real)
    requires ticks > 0.0 && 0.0 < inc && Quantised(INC_MAX) <= inc && lastInc > 0.0
    ensures NextQuantised(offset, ticks, inc, lastInc) <= offset
  {
    hide Quantised, ComputeIncrement;
    var c := Output(offset, ticks, inc, lastInc);
    QuantisedMonotone(c, INC_MAX);
    Scale(ticks, Quantised(c), inc);
  }

  /** Everything the controller computes fits the 39-bit register. */
  lemma IncrementFits(dTs: real, dTr: real, offset: real, lastInc: real)
    requires dTs > 0.0 && dTr > 0.0 && lastInc > 0.0
    ensures 0.0 < ComputeIncrement(dTs, dTr, offset, lastInc) < 1.0
    ensures Frac64(ComputeIncrement(dTs, dTr, offset, lastInc)) < INC_BITS
  {
    IncrementPositive(dTs, dTr, offset, lastInc);
    hide ComputeIncrement;
    Frac64IsFloor(ComputeIncrement(dTs, dTr, offset, lastInc));
  }

  /** The unit's data registers and the 39-bit increment behind them. */
  class Registers {
    var dataHigh: nat
    var dataMiddle: nat
    var dataLow: nat
    var increment: nat

    ghost predicate Valid()
      reads this
    {
      increment < INC_BITS
    }

    constructor ()
      ensures Valid()
    {
      dataHigh, dataMiddle, dataLow, increment := 0, 0, 0, 0;
    }

    lemma Halves(frac: nat)
      ensures frac % INC_BITS == frac / 0x1_0000_0000 % 0x80 * 0x1_0000_0000 + frac % 0x1_0000_0000
      ensures frac % INC_BITS < INC_BITS && (frac % INC_BITS == frac <==> frac < INC_BITS)
    {
      var h, l := frac / 0x1_0000_0000, frac % 0x1_0000_0000;
      var q, r := h / 0x80, h % 0x80;
      assert h == 0x80 * q + r;
      Ring.ModIs(frac, INC_BITS, q, r * 0x1_0000_0000 + l);
    }

    /** Write the halves, then the command that moves them into the increment. */
    method SetInc(frac: nat)
      requires frac < 0x1_0000_0000_0000_0000
      modifies this
      ensures Valid() && (increment == frac <==> frac < INC_BITS)
      ensures increment == frac % INC_BITS && dataHigh == 0
    {
      Halves(frac);
      dataHigh := 0;
      dataMiddle := frac / 0x1_0000_0000 % 0x80;
      dataLow := frac % 0x1_0000_0000;
      increment := dataMiddle * 0x1_0000_0000 + dataLow;
    }

    /** Issue the command that moves the increment into the halves, then read them; the bits above
        the increment may be anything. */
    method GetInc() returns (frac: nat)
      requires Valid()
      modifies this`dataMiddle, this`dataLow
      ensures Valid() && frac == increment
    {
      var above :| 0 <= above;
      Ring.ModIs(increment / 0x1_0000_0000 + 0x80 * above, 0x80, above, increment / 0x1_0000_0000);
      dataMiddle := increment / 0x1_0000_0000 + 0x80 * above;
      dataLow := increment % 0x1_0000_0000;
      frac := dataMiddle % 0x80;
      frac := frac * 0x1_0000_0000 + dataLow;
    }

    /** One adjustment: compute, quantise, write.  Reading back loses nothing. */
    method Adjust(dTs: real, dTr: real, offset: real, lastInc: real) returns (incr: nat)
      requires dTs > 0.0 && dTr > 0.0 && lastInc > 0.0
      modifies this
      ensures Valid() && increment == incr
      ensures 0.0 < ComputeIncrement(dTs, dTr, offset, lastInc) < 1.0
      ensures incr == (ComputeIncrement(dTs, dTr, offset, lastInc) * FRAC * FRAC).Floor
    {
      hide ComputeIncrement;
      IncrementFits(dTs, dTr, offset, lastInc);
      var inc := ComputeIncrement(dTs, dTr, offset, lastInc);
      Frac64IsFloor(inc);
      incr := Frac64(inc);
      SetInc(incr);
    }
  }
}
