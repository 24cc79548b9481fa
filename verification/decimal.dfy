/** Exact decimal rounding. The front end formats every metric with
    `Number.prototype.toFixed(2)`; on exact rationals that is rounding to
    the nearest multiple of 10^-decimals with exact halves rounded away
    from zero ("round half up" for the non-negative metrics). */
module Decimal {

  /** 10^n. */
  function Pow10(n: nat): (p: nat)
    ensures p >= 1
    ensures n > 0 ==> p >= 10
  {
    if n == 0 then 1 else 10 * Pow10(n - 1)
  }

  /** 10^decimals as a real. */
  function Scale(decimals: nat): (s: real)
    ensures s >= 1.0
  {
    Pow10(decimals) as real
  }

  /** The grid step 10^-decimals. */
  function Step(decimals: nat): (h: real)
    ensures 0.0 < h <= 1.0
  {
    1.0 / Scale(decimals)
  }

  /** `x` is a multiple of 10^-decimals, i.e. it prints exactly with
      `decimals` fraction digits. */
  predicate OnGrid(x: real, decimals: nat) {
    (x * Scale(decimals)).Floor as real == x * Scale(decimals)
  }

  /** Rounds a non-negative magnitude half up: floor(m * 10^d + 1/2) / 10^d. */
  function RoundMagnitude(m: real, decimals: nat): (r: real)
    requires m >= 0.0
    ensures r >= 0.0
    ensures OnGrid(r, decimals)
    ensures m - Step(decimals) / 2.0 < r <= m + Step(decimals) / 2.0
  {
    var s := Scale(decimals);
    var x := m * s + 0.5;
    var k := x.Floor;
    var r := k as real / s;
    DivThenMul(k as real, s);
    assert k as real <= x < k as real + 1.0;
    IntegerScaled(k, decimals);
    ScaleBack(m, r, s);
    r
  }

  /** k / s scaled back by s is the integer k, hence on the grid. */
  lemma IntegerScaled(k: int, decimals: nat)
    ensures OnGrid(k as real / Scale(decimals), decimals)
  {
    var s := Scale(decimals);
    DivThenMul(k as real, s);
    IntegerFloor(k);
  }

  /** Dividing by a non-zero factor and multiplying back is the identity. */
  lemma DivThenMul(a: real, s: real)
    requires s != 0.0
    ensures (a / s) * s == a
  {
  }

  /** An integer is its own floor. */
  lemma IntegerFloor(k: int)
    ensures (k as real).Floor == k
  {
  }

  /** The step times the scale is one. */
  lemma StepScale(decimals: nat)
    ensures Step(decimals) * Scale(decimals) == 1.0
  {
    DivThenMul(1.0, Scale(decimals));
  }

  /** Dividing both sides of `a * s <= b` by a positive `s`. */
  lemma DivideBoth(a: real, b: real, s: real)
    requires s > 0.0
    ensures a * s <= b ==> a <= b / s
    ensures a * s < b ==> a < b / s
  {
    assert (b / s) * s == b;
    if a > b / s {
      assert a * s > (b / s) * s;
    }
    if a >= b / s {
      assert a * s >= (b / s) * s;
    }
  }

  /** Dividing both sides of `a <= b * s` by a positive `s`. */
  lemma DivideAtMost(a: real, b: real, s: real)
    requires s > 0.0 && a <= b * s
    ensures a / s <= b
  {
    DivThenMul(a, s);
    if a / s > b {
      MultiplyBoth(b, a / s, s);
    }
  }

  /** Relates the scaled floor inequality back to the unscaled one. */
  lemma ScaleBack(m: real, r: real, s: real)
    requires s >= 1.0
    requires r * s <= m * s + 0.5 < r * s + 1.0
    ensures m - (1.0 / s) / 2.0 < r <= m + (1.0 / s) / 2.0
  {
    assert (r - m) * s == r * s - m * s;
    assert (m - r) * s == m * s - r * s;
    DivideBoth(r - m, 0.5, s);
    DivideBoth(m - r, 0.5, s);
    assert 0.5 / s == (1.0 / s) / 2.0;
  }

  /** Rounds `x` to `decimals` fraction digits, exact halves away from
      zero, as `toFixed(decimals)` does on an exact value. */
  function RoundHalfUp(x: real, decimals: nat): (r: real)
    ensures OnGrid(r, decimals)
    ensures x >= 0.0 ==> r >= 0.0 && x - Step(decimals) / 2.0 < r <= x + Step(decimals) / 2.0
    ensures x < 0.0 ==> r <= 0.0 && x - Step(decimals) / 2.0 <= r < x + Step(decimals) / 2.0
  {
    if x >= 0.0 then RoundMagnitude(x, decimals)
    else
      var m := RoundMagnitude(-x, decimals);
      NegateOnGrid(m, decimals);
      -m
  }

  /** Negation keeps a value on the grid. */
  lemma NegateOnGrid(x: real, decimals: nat)
    requires OnGrid(x, decimals)
    ensures OnGrid(-x, decimals)
  {
    var s := Scale(decimals);
    var k := (x * s).Floor;
    NegateScaled(x, s);
    IntegerFloor(-k);
  }

  /** Two grid points closer than one step are equal. */
  lemma GridPointsApart(a: real, b: real, decimals: nat)
    requires OnGrid(a, decimals) && OnGrid(b, decimals)
    requires a - Step(decimals) < b < a + Step(decimals)
    ensures a == b
  {
    WithinStepScaled(a, b, decimals);
    var ka := GridIndex(a, decimals);
    var kb := GridIndex(b, decimals);
    IntegersWithinOne(ka, kb);
    CancelScale(a, b, Scale(decimals));
  }

  /** The integer that a grid point is a multiple of the step by. */
  lemma GridIndex(x: real, decimals: nat) returns (k: int)
    requires OnGrid(x, decimals)
    ensures k as real == x * Scale(decimals)
  {
    k := (x * Scale(decimals)).Floor;
  }

  /** Integers less than one apart are equal. */
  lemma IntegersWithinOne(i: int, j: int)
    requires i as real - 1.0 < j as real < i as real + 1.0
    ensures i == j
  {
  }

  /** Scaling a distance below one step gives a distance below one. */
  lemma WithinStepScaled(a: real, b: real, decimals: nat)
    requires a - Step(decimals) < b < a + Step(decimals)
    ensures a * Scale(decimals) - 1.0 < b * Scale(decimals) < a * Scale(decimals) + 1.0
  {
    StepScale(decimals);
    WithinOneScaled(a, b, Scale(decimals), Step(decimals));
  }

  /** The same on plain reals: h * s == 1 with s positive. */
  lemma WithinOneScaled(a: real, b: real, s: real, h: real)
    requires s > 0.0 && h * s == 1.0
    requires a - h < b < a + h
    ensures a * s - 1.0 < b * s < a * s + 1.0
  {
    MultiplyBoth(a - h, b, s);
    MultiplyBoth(b, a + h, s);
    Distribute(a, h, s);
    DistributeSub(a, h, s);
  }

  /** Multiplication distributes over addition. */
  lemma Distribute(a: real, b: real, s: real)
    ensures (a + b) * s == a * s + b * s
  {
  }

  /** Multiplication distributes over subtraction. */
  lemma DistributeSub(a: real, b: real, s: real)
    ensures (a - b) * s == a * s - b * s
  {
  }

  /** Scaling commutes with negation. */
  lemma NegateScaled(x: real, s: real)
    ensures (-x) * s == -(x * s)
  {
  }

  /** A positive factor cancels from an equation. */
  lemma CancelScale(a: real, b: real, s: real)
    requires s > 0.0 && a * s == b * s
    ensures a == b
  {
    if a < b {
      MultiplyBoth(a, b, s);
    } else if b < a {
      MultiplyBoth(b, a, s);
    }
  }

  /** Multiplying both sides of `a < b` by a positive `s`. */
  lemma MultiplyBoth(a: real, b: real, s: real)
    requires s > 0.0 && a < b
    ensures a * s < b * s
  {
  }

  /** Rounding is the unique grid point within half a step of a
      non-negative value, exact halves going up. */
  lemma RoundHalfUpUnique(x: real, decimals: nat, g: real)
    requires x >= 0.0
    requires OnGrid(g, decimals)
    requires x - Step(decimals) / 2.0 < g <= x + Step(decimals) / 2.0
    ensures g == RoundHalfUp(x, decimals)
  {
    GridPointsApart(g, RoundHalfUp(x, decimals), decimals);
  }

  /** Rounding a value that is already on the grid leaves it unchanged. */
  lemma RoundOnGrid(x: real, decimals: nat)
    requires OnGrid(x, decimals)
    ensures RoundHalfUp(x, decimals) == x
  {
    var r := RoundHalfUp(x, decimals);
    GridPointsApart(x, r, decimals);
  }

  /** Rounding is idempotent. */
  lemma RoundIdempotent(x: real, decimals: nat)
    ensures RoundHalfUp(RoundHalfUp(x, decimals), decimals) == RoundHalfUp(x, decimals)
  {
    RoundOnGrid(RoundHalfUp(x, decimals), decimals);
  }

  /** Rounding a non-negative value never crosses a grid point: grid bounds
      around the value are bounds around its rounding. */
  lemma RoundWithinGridBounds(x: real, decimals: nat, lo: real, hi: real)
    requires 0.0 <= lo <= x <= hi
    requires OnGrid(lo, decimals) && OnGrid(hi, decimals)
    ensures lo <= RoundHalfUp(x, decimals) <= hi
  {
    var r := RoundHalfUp(x, decimals);
    if r < lo {
      GridPointsApart(lo, r, decimals);
    }
    if r > hi {
      GridPointsApart(hi, r, decimals);
    }
  }

  /** Every integer is on every grid. */
  lemma IntegerOnGrid(n: int, decimals: nat)
    ensures OnGrid(n as real, decimals)
  {
    var p := Pow10(decimals);
    assert (n as real) * Scale(decimals) == (n * p) as real;
    assert ((n * p) as real).Floor == n * p;
  }

  /** The boundary case of half-up rounding: 2.345 becomes 2.35. */
  lemma RoundHalfUpExample()
    ensures RoundHalfUp(2.345, 2) == 2.35
  {
    assert Pow10(2) == 100;
    assert 2.345 * 100.0 + 0.5 == 235.0;
    assert (235.0).Floor == 235;
  }
}
