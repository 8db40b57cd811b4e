/**
 The three-standard-deviations rule, and how many values of a group can ever break it.

 Values are reals: rounding is not the point here. `Variance` is the sample variance, whose root is what
 `stddev` returns in both databases, and which a single row does not have.
 */
module Outliers {
  function Sum(values: seq<real>): real {
    if values == [] then 0.0 else Sum(values[..|values| - 1]) + values[|values| - 1]
  }

  function Mean(values: seq<real>): real
    requires values != []
  {
    Sum(values) / |values| as real
  }

  /** The sum of squared distances from `m`. */
  function Spread(values: seq<real>, m: real): (r: real)
    ensures r >= 0.0
  {
    if values == [] then 0.0
    else
      Spread(values[..|values| - 1], m) + Square(values[|values| - 1] - m)
  }

  function Square(d: real): (r: real)
    ensures r >= 0.0
  {
    d * d
  }

  function Variance(values: seq<real>): (r: real)
    requires |values| >= 2
    ensures r >= 0.0
  {
    Spread(values, Mean(values)) / (|values| - 1) as real
  }

  function Abs(x: real): real {
    if x < 0.0 then -x else x
  }

  predicate IsBeyond(x: real, mean: real, variance: real) {
    Square(x - mean) > 9.0 * variance
  }

  /** Comparing squares is the test itself: further from the mean than three standard deviations. */
  lemma BeyondThreeDeviations(x: real, mean: real, deviation: real)
    requires deviation > 0.0
    ensures IsBeyond(x, mean, deviation * deviation) <==> Abs(x - mean) > 3.0 * deviation
  {
    var d, t := Abs(x - mean), 3.0 * deviation;
    assert Square(x - mean) == d * d;
    assert 9.0 * (deviation * deviation) == t * t;
    if d > t {
      assert d * d > t * d && t * d > t * t;
    } else {
      assert d * d <= t * d && t * d <= t * t;
    }
  }

  function Beyond(values: seq<real>, mean: real, variance: real): (k: nat)
    ensures k <= |values|
  {
    if values == [] then 0
    else Beyond(values[..|values| - 1], mean, variance) + if IsBeyond(values[|values| - 1], mean, variance) then 1 else 0
  }

  /** The number of values the scan counts in one group: none when the deviation is missing or zero. */
  function OutlierCount(values: seq<real>): (k: nat)
    ensures k <= |values|
  {
    if |values| < 2 || Variance(values) <= 0.0 then 0 else Beyond(values, Mean(values), Variance(values))
  }

  // ---------------------------------------------------------------- the bound

  lemma {:induction false} OutliersSpread(values: seq<real>, mean: real, variance: real)
    requires variance > 0.0
    ensures var k := Beyond(values, mean, variance);
      if k == 0 then Spread(values, mean) >= 0.0 else Spread(values, mean) > 9.0 * variance * k as real
  {
    if values != [] {
      var most := values[..|values| - 1];
      OutliersSpread(most, mean, variance);
      var k := Beyond(most, mean, variance);
      hide Square;
      assert 9.0 * variance * (k + 1) as real == 9.0 * variance * k as real + 9.0 * variance;
    }
  }

  /** In a group of `n` values fewer than one in nine can be outliers: 9k < n - 1. */
  lemma OutlierBound(values: seq<real>)
    requires OutlierCount(values) >= 1
    ensures 9 * OutlierCount(values) < |values| - 1
  {
    var m, v := Mean(values), Variance(values);
    OutliersSpread(values, m, v);
    Deduce(Spread(values, m), v, (|values| - 1) as real, OutlierCount(values) as real);
  }

  lemma Deduce(spread: real, v: real, n: real, k: real)
    requires n > 0.0 && v == spread / n && v > 0.0 && spread > 9.0 * v * k
    ensures n > 9.0 * k
  {
    Undivide(spread, n);
    assert 9.0 * v * k == v * (9.0 * k);
    Cancel(v, n, 9.0 * k);
  }

  lemma Cancel(v: real, a: real, b: real)
    requires v > 0.0 && v * a > v * b
    ensures a > b
  {
  }

  // ---------------------------------------------------------------- it cannot be improved

  function Repeat(x: real, n: nat): (s: seq<real>)
    ensures |s| == n
  {
    if n == 0 then [] else Repeat(x, n - 1) + [x]
  }

  /** `n` times `x`, as repeated addition. */
  function Times(n: nat, x: real): real {
    if n == 0 then 0.0 else Times(n - 1, x) + x
  }

  lemma {:induction false} TimesIsProduct(n: nat, x: real)
    ensures Times(n, x) == n as real * x
  {
    if n > 0 {
      TimesIsProduct(n - 1, x);
      assert (n - 1) as real == n as real - 1.0;
      assert (n as real - 1.0) * x == n as real * x - x;
    }
  }

  lemma AddOne(a: seq<real>, x: real, n: nat)
    requires n > 0
    ensures var all := a + Repeat(x, n); all != [] && all[..|all| - 1] == a + Repeat(x, n - 1) && all[|all| - 1] == x
  {
    var all := a + Repeat(x, n);
    assert all == a + Repeat(x, n - 1) + [x];
  }

  lemma {:induction false} SumAdds(a: seq<real>, x: real, n: nat)
    ensures Sum(a + Repeat(x, n)) == Sum(a) + Times(n, x)
  {
    if n == 0 {
      assert a + Repeat(x, 0) == a;
    } else {
      SumAdds(a, x, n - 1);
      AddOne(a, x, n);
      hide Repeat;
    }
  }

  lemma {:induction false} SpreadAdds(a: seq<real>, x: real, n: nat, m: real)
    ensures Spread(a + Repeat(x, n), m) == Spread(a, m) + Times(n, Square(x - m))
  {
    if n == 0 {
      assert a + Repeat(x, 0) == a;
    } else {
      SpreadAdds(a, x, n - 1, m);
      AddOne(a, x, n);
      hide Repeat, Square;
    }
  }

  lemma {:induction false} BeyondAdds(a: seq<real>, x: real, n: nat, m: real, v: real)
    ensures Beyond(a + Repeat(x, n), m, v) == Beyond(a, m, v) + if IsBeyond(x, m, v) then n else 0
  {
    if n == 0 {
      assert a + Repeat(x, 0) == a;
    } else {
      BeyondAdds(a, x, n - 1, m, v);
      AddOne(a, x, n);
      hide Repeat, IsBeyond;
    }
  }

  /** `a` values at `far`, `b` at `-far`, and `c` at `-odd`. */
  function Three(far: real, a: nat, b: nat, odd: real, c: nat): (s: seq<real>)
    ensures |s| == a + b + c
  {
    Repeat(far, a) + Repeat(-far, b) + Repeat(-odd, c)
  }

  lemma ThreeSum(far: real, a: nat, b: nat, odd: real, c: nat)
    ensures Sum(Three(far, a, b, odd, c)) == Times(a, far) + Times(b, -far) + Times(c, -odd)
  {
    hide Repeat, Times;
    assert [] + Repeat(far, a) == Repeat(far, a);
    SumAdds([], far, a);
    SumAdds(Repeat(far, a), -far, b);
    SumAdds(Repeat(far, a) + Repeat(-far, b), -odd, c);
  }

  lemma ThreeSpread(far: real, a: nat, b: nat, odd: real, c: nat)
    ensures Spread(Three(far, a, b, odd, c), 0.0) == Times(a, Square(far)) + Times(b, Square(far)) + Times(c, Square(odd))
  {
    hide Times, Spread;
    assert [] + Repeat(far, a) == Repeat(far, a);
    SpreadAdds([], far, a, 0.0);
    SpreadAdds(Repeat(far, a), -far, b, 0.0);
    SpreadAdds(Repeat(far, a) + Repeat(-far, b), -odd, c, 0.0);
    assert Spread([], 0.0) == 0.0 by { NoSpread(); }
    hide Repeat;
    assert far - 0.0 == far && -far - 0.0 == -far && -odd - 0.0 == -odd;
    SquareOfMinus(far);
    SquareOfMinus(odd);
    hide Square;
  }

  lemma NoSpread()
    ensures Spread([], 0.0) == 0.0
  {
  }

  lemma SquareOfMinus(d: real)
    ensures Square(-d) == Square(d)
  {
  }

  lemma ThreeBeyond(far: real, a: nat, b: nat, odd: real, c: nat, v: real)
    requires IsBeyond(far, 0.0, v) && IsBeyond(-far, 0.0, v) && !IsBeyond(-odd, 0.0, v)
    ensures Beyond(Three(far, a, b, odd, c), 0.0, v) == a + b
  {
    hide Repeat, IsBeyond, Beyond;
    assert [] + Repeat(far, a) == Repeat(far, a);
    assert Beyond([], 0.0, v) == 0 by { NoneBeyond(v); }
    BeyondAdds([], far, a, 0.0, v);
    BeyondAdds(Repeat(far, a), -far, b, 0.0, v);
    BeyondAdds(Repeat(far, a) + Repeat(-far, b), -odd, c, 0.0, v);
  }

  lemma NoneBeyond(v: real)
    ensures Beyond([], 0.0, v) == 0
  {
  }

  /** Half of the outliers far above, half far below, and everything else just far enough off zero to balance the odd one. */
  function Extreme(n: nat, k: nat): (s: seq<real>)
    requires k <= n
    ensures |s| == n
  {
    Three((n - k) as real, (k + 1) / 2, k / 2, (k % 2) as real, n - k)
  }

  lemma ThreeMoments(n: nat, k: nat, a: nat, b: nat, odd: nat)
    requires k < n && a + b == k && a - b == odd <= 1
    ensures var far := (n - k) as real; var s := Three(far, a, b, odd as real, n - k);
      Sum(s) == 0.0 && Spread(s, 0.0) == k as real * Square(far) + far * odd as real
  {
    hide Three, Sum, Spread, Times, Square;
    var far, o := (n - k) as real, odd as real;
    ThreeSum(far, a, b, o, n - k);
    ThreeSpread(far, a, b, o, n - k);
    TimesBalance(a, b, odd, n - k);
    TimesGather(a, b, Square(far));
    SquareOfBit(odd);
    assert Times(n - k, Square(o)) == Times(n - k, o);
    TimesIsProduct(n - k, o);
  }

  lemma SquareOfBit(odd: nat)
    requires odd <= 1
    ensures Square(odd as real) == odd as real
  {
  }

  lemma TimesBalance(a: nat, b: nat, odd: nat, c: nat)
    requires a - b == odd
    ensures Times(a, c as real) + Times(b, -(c as real)) + Times(c, -(odd as real)) == 0.0
  {
    hide Times;
    TimesIsProduct(a, c as real);
    TimesIsProduct(b, -(c as real));
    TimesIsProduct(c, -(odd as real));
    Balance(a as real, b as real, c as real, odd as real);
  }

  lemma TimesGather(a: nat, b: nat, q: real)
    ensures Times(a, q) + Times(b, q) == (a + b) as real * q
  {
    hide Times;
    TimesIsProduct(a, q);
    TimesIsProduct(b, q);
    Gather(a as real, b as real, q);
  }

  lemma Balance(a: real, b: real, far: real, odd: real)
    requires a - b == odd
    ensures a * far + b * (-far) + far * (-odd) == 0.0
  {
    assert (a - b) * far == odd * far;
  }

  lemma Gather(a: real, b: real, x: real)
    ensures a * x + b * x == (a + b) * x
  {
  }

  lemma ExtremeVariance(n: nat, k: nat)
    requires 2 <= n && k < n
    ensures var far, odd := (n - k) as real, (k % 2) as real;
      && Mean(Extreme(n, k)) == 0.0
      && Variance(Extreme(n, k)) * (n - 1) as real == k as real * Square(far) + far * odd
  {
    hide Three, Square, Sum, Spread;
    assert (k + 1) / 2 + k / 2 == k && (k + 1) / 2 - k / 2 == k % 2;
    ThreeMoments(n, k, (k + 1) / 2, k / 2, k % 2);
    Undivide(Spread(Extreme(n, k), 0.0), (n - 1) as real);
  }

  /** Every count the bound allows does occur, in a group that has it exactly. */
  lemma ExtremeReachesTheBound(n: nat, k: nat)
    requires k >= 1 && 9 * k < n - 1
    ensures OutlierCount(Extreme(n, k)) == k
  {
    hide Square, Beyond, IsBeyond, Spread, Three, Mean, Variance;
    var far, odd, v := (n - k) as real, (k % 2) as real, Variance(Extreme(n, k));
    ExtremeVariance(n, k);
    FarIsBeyond(n as real, k as real, far, odd, v);
    ThreeBeyond(far, (k + 1) / 2, k / 2, odd, n - k, v);
  }

  lemma Undivide(x: real, y: real)
    requires y != 0.0
    ensures x / y * y == x
  {
  }

  lemma FarIsBeyond(n: real, k: real, far: real, odd: real, v: real)
    requires 1.0 <= k && n - 1.0 >= 9.0 * k + 1.0 && far == n - k && 0.0 <= odd <= 1.0
    requires v * (n - 1.0) == k * Square(far) + far * odd
    ensures v > 0.0 && IsBeyond(far, 0.0, v) && IsBeyond(-far, 0.0, v) && !IsBeyond(-odd, 0.0, v)
  {
    var m, q := n - 1.0, Square(far);
    assert far >= 10.0;
    assert q >= 10.0 * far;
    assert Square(far - 0.0) == q && Square(-far - 0.0) == q;
    assert -odd - 0.0 == -odd;
    SquareOfMinus(odd);
    Grows(1.0, odd, odd);
    assert Square(-odd - 0.0) <= 1.0;
    hide Square;
    assert 0.0 <= far * odd <= far;
    Positive(v, m, k, q, far * odd);
    MoreThanNine(v, m, k, q, far, far * odd);
    LessThanNine(v, m, k, q, far, far * odd);
  }

  lemma Positive(v: real, m: real, k: real, q: real, rest: real)
    requires m > 0.0 && k >= 1.0 && q > 0.0 && rest >= 0.0 && v * m == k * q + rest
    ensures v > 0.0
  {
    Grows(k, 1.0, q);
    Cancel(m, v, 0.0);
  }

  lemma Grows(a: real, b: real, x: real)
    requires a >= b && x >= 0.0
    ensures a * x >= b * x
  {
  }

  lemma MoreThanNine(v: real, m: real, k: real, q: real, far: real, rest: real)
    requires m >= 9.0 * k + 1.0 && k >= 1.0 && q >= 10.0 * far && far >= 10.0 && 0.0 <= rest <= far && v * m == k * q + rest
    ensures q > 9.0 * v
  {
    Grows(m, 9.0 * k + 1.0, q);
    assert (9.0 * k + 1.0) * q == 9.0 * (k * q) + q;
    var kq, mq, vm := k * q, m * q, v * m;
    assert mq >= 9.0 * kq + q && 9.0 * vm == 9.0 * kq + 9.0 * rest;
    assert m * (9.0 * v) == 9.0 * vm;
    assert mq > 9.0 * vm;
    Cancel(m, q, 9.0 * v);
  }

  lemma LessThanNine(v: real, m: real, k: real, q: real, far: real, rest: real)
    requires m == far + k - 1.0 && k >= 1.0 && q >= 10.0 * far && far >= 10.0 && 0.0 <= rest && v * m == k * q + rest
    ensures 9.0 * v >= 1.0
  {
    Grows(q, 10.0 * far, k);
    Grows(k, 1.0, far - 1.0);
    assert (10.0 * far) * k == 10.0 * (k * (far - 1.0)) + 10.0 * k;
    assert k * q >= m;
    assert m * (9.0 * v) == 9.0 * (v * m);
    AtLeast(m, 9.0 * v, 1.0);
  }

  lemma AtLeast(m: real, a: real, b: real)
    requires m > 0.0 && m * a >= m * b
    ensures a >= b
  {
    if a < b { Cancel(m, b, a); }
  }

  /** A group of `n` rows in which exactly `k` values are outliers exists if and only if 9k < n - 1. */
  lemma OutlierBoundIsExact(n: nat, k: nat)
    requires k >= 1
    ensures (exists values: seq<real> :: |values| == n && OutlierCount(values) == k) <==> 9 * k < n - 1
  {
    if 9 * k < n - 1 {
      ExtremeReachesTheBound(n, k);
    }
    forall values: seq<real> | |values| == n && OutlierCount(values) == k ensures 9 * k < n - 1 {
      OutlierBound(values);
    }
  }
}
