/**
 The exponential moving average the scanner computes over closing prices:
 pandas' `ewm(span = period, adjust = False).mean()`. The series is seeded with
 the first close, and every later value mixes the new close into the previous
 value with weight alpha = 2 / (period + 1).

 Prices are `real`: floating-point rounding is idealised away.
 */
module MovingAverage {

  /** The smoothing factor pandas derives from a span of `period`. */
  function Alpha(period: nat): (a: real)
    requires period >= 1
    ensures 0.0 < a <= 1.0
    ensures a == 1.0 <==> period == 1
  {
    2.0 / (period as real + 1.0)
  }

  /** One step of exponential smoothing: fold close `x` into the previous value. */
  function Step(a: real, prev: real, x: real): real
  {
    a * x + (1.0 - a) * prev
  }

  /** Continues a series whose last value is `prev` over the further closes `xs`. */
  function Smooth(a: real, prev: real, xs: seq<real>): (ys: seq<real>)
    ensures |ys| == |xs|
    decreases |xs|
  {
    if xs == [] then []
    else
      var y := Step(a, prev, xs[0]);
      [y] + Smooth(a, y, xs[1..])
  }

  /** Exponential smoothing with factor `a`, seeded with the first close. */
  function Smoothed(a: real, closes: seq<real>): (ys: seq<real>)
    ensures |ys| == |closes|
    ensures closes != [] ==> ys[0] == closes[0]
  {
    if closes == [] then []
    else [closes[0]] + Smooth(a, closes[0], closes[1..])
  }

  /** The EMA series of `closes` for the given period, one value per close. */
  function Ema(closes: seq<real>, period: nat): (ys: seq<real>)
    requires period >= 1
    ensures |ys| == |closes|
    ensures closes != [] ==> ys[0] == closes[0]
  {
    Smoothed(Alpha(period), closes)
  }

  /** `ys` is the series defined by the textbook recurrence over `xs` with factor `a`:
      seeded with the first close, then y[i] = a*x[i] + (1-a)*y[i-1]. */
  ghost predicate IsRecurrence(xs: seq<real>, a: real, ys: seq<real>)
  {
    && |ys| == |xs|
    && (xs != [] ==> ys[0] == xs[0])
    && forall i :: 0 < i < |xs| ==> StepHolds(xs, a, ys, i)
  }

  /** Value i of `ys` is obtained from value i - 1 by one smoothing step. */
  ghost predicate StepHolds(xs: seq<real>, a: real, ys: seq<real>, i: nat)
    requires 0 < i < |xs| == |ys|
  {
    ys[i] == a * xs[i] + (1.0 - a) * ys[i - 1]
  }

  lemma {:induction false} SmoothStepAt(a: real, prev: real, xs: seq<real>, i: nat)
    requires i < |xs|
    ensures Smooth(a, prev, xs)[i]
            == Step(a, if i == 0 then prev else Smooth(a, prev, xs)[i - 1], xs[i])
    decreases i
  {
    if i > 0 {
      SmoothStepAt(a, Step(a, prev, xs[0]), xs[1..], i - 1);
    }
  }

  lemma SmoothedSatisfiesRecurrence(a: real, closes: seq<real>)
    ensures IsRecurrence(closes, a, Smoothed(a, closes))
  {
    var ys := Smoothed(a, closes);
    forall i | 0 < i < |closes|
      ensures StepHolds(closes, a, ys, i)
    {
      var tail := closes[1..];
      var zs := Smooth(a, closes[0], tail);
      SmoothStepAt(a, closes[0], tail, i - 1);
      assert ys[i] == zs[i - 1];
      assert tail[i - 1] == closes[i];
      assert ys[i - 1] == if i - 1 == 0 then closes[0] else zs[i - 2];
    }
  }

  /** The computed series obeys the recurrence. */
  lemma EmaSatisfiesRecurrence(closes: seq<real>, period: nat)
    requires period >= 1
    ensures IsRecurrence(closes, Alpha(period), Ema(closes, period))
  {
    SmoothedSatisfiesRecurrence(Alpha(period), closes);
  }

  lemma {:induction false} RecurrenceAgrees(xs: seq<real>, a: real, ys: seq<real>, zs: seq<real>, i: nat)
    requires IsRecurrence(xs, a, ys) && IsRecurrence(xs, a, zs)
    requires i < |xs|
    ensures ys[i] == zs[i]
  {
    if i > 0 {
      RecurrenceAgrees(xs, a, ys, zs, i - 1);
      assert StepHolds(xs, a, ys, i) && StepHolds(xs, a, zs, i);
    }
  }

  lemma RecurrenceUnique(xs: seq<real>, a: real, ys: seq<real>, zs: seq<real>)
    requires IsRecurrence(xs, a, ys) && IsRecurrence(xs, a, zs)
    ensures ys == zs
  {
    forall i | 0 <= i < |xs|
      ensures ys[i] == zs[i]
    {
      RecurrenceAgrees(xs, a, ys, zs, i);
    }
  }

  /** The recurrence determines the series: a sequence is the EMA of `closes`
      exactly when it is seeded with the first close and obeys the recurrence. */
  lemma EmaCharacterised(closes: seq<real>, period: nat, ys: seq<real>)
    requires period >= 1
    ensures IsRecurrence(closes, Alpha(period), ys) <==> ys == Ema(closes, period)
  {
    EmaSatisfiesRecurrence(closes, period);
    if IsRecurrence(closes, Alpha(period), ys) {
      RecurrenceUnique(closes, Alpha(period), ys, Ema(closes, period));
    }
  }

  /** Causality: the EMA of the first `n` closes is the first `n` values of the EMA
      of all closes, so no value is revised by later data. */
  lemma EmaCausal(closes: seq<real>, period: nat, n: nat)
    requires period >= 1
    requires n <= |closes|
    ensures Ema(closes[..n], period) == Ema(closes, period)[..n]
  {
    var a := Alpha(period);
    var ys := Ema(closes, period);
    EmaSatisfiesRecurrence(closes, period);
    forall i | 0 < i < n
      ensures StepHolds(closes[..n], a, ys[..n], i)
    {
      assert StepHolds(closes, a, ys, i);
      assert ys[..n][i] == ys[i] && ys[..n][i - 1] == ys[i - 1] && closes[..n][i] == closes[i];
    }
    EmaSatisfiesRecurrence(closes[..n], period);
    RecurrenceUnique(closes[..n], a, ys[..n], Ema(closes[..n], period));
  }

  lemma ConvexStep(a: real, x: real, y: real, lo: real, hi: real)
    requires 0.0 < a <= 1.0
    requires lo <= x <= hi && lo <= y <= hi
    ensures lo <= a * x + (1.0 - a) * y <= hi
  {
    ProductNonNegative(a, x - lo);
    ProductNonNegative(1.0 - a, y - lo);
    ProductNonNegative(a, hi - x);
    ProductNonNegative(1.0 - a, hi - y);
  }

  lemma ProductNonNegative(p: real, q: real)
    requires p >= 0.0 && q >= 0.0
    ensures p * q >= 0.0
  {
  }

  lemma {:induction false} RecurrenceWithinBounds(xs: seq<real>, a: real, ys: seq<real>, i: nat, lo: real, hi: real)
    requires 0.0 < a <= 1.0
    requires IsRecurrence(xs, a, ys)
    requires i < |xs|
    requires forall j :: 0 <= j <= i ==> lo <= xs[j] <= hi
    ensures lo <= ys[i] <= hi
  {
    if i > 0 {
      RecurrenceWithinBounds(xs, a, ys, i - 1, lo, hi);
      var x, prev := xs[i], ys[i - 1];
      assert StepHolds(xs, a, ys, i);
      assert ys[i] == a * x + (1.0 - a) * prev;
      ConvexStep(a, x, prev, lo, hi);
    }
  }

  /** Each EMA value is a convex combination of the closes up to its index, so it
      lies within any bounds those closes respect (in particular their minimum and
      maximum). */
  lemma EmaWithinBounds(closes: seq<real>, period: nat, i: nat, lo: real, hi: real)
    requires period >= 1
    requires i < |closes|
    requires forall j :: 0 <= j <= i ==> lo <= closes[j] <= hi
    ensures lo <= Ema(closes, period)[i] <= hi
  {
    EmaSatisfiesRecurrence(closes, period);
    RecurrenceWithinBounds(closes, Alpha(period), Ema(closes, period), i, lo, hi);
  }

  /** A constant close series has a constant EMA equal to that close. */
  lemma EmaOfConstant(closes: seq<real>, period: nat, c: real)
    requires period >= 1
    requires forall j :: 0 <= j < |closes| ==> closes[j] == c
    ensures forall i :: 0 <= i < |closes| ==> Ema(closes, period)[i] == c
  {
    forall i | 0 <= i < |closes|
      ensures Ema(closes, period)[i] == c
    {
      EmaWithinBounds(closes, period, i, c, c);
    }
  }

  /** The closes mapped through x |-> s*x + t. */
  function Affine(xs: seq<real>, s: real, t: real): (ys: seq<real>)
    ensures |ys| == |xs|
    ensures forall i :: 0 <= i < |xs| ==> ys[i] == s * xs[i] + t
  {
    seq(|xs|, i requires 0 <= i < |xs| => s * xs[i] + t)
  }

  lemma AffineStep(a: real, x: real, prev: real, y: real, s: real, t: real)
    requires y == a * x + (1.0 - a) * prev
    ensures s * y + t == a * (s * x + t) + (1.0 - a) * (s * prev + t)
  {
  }

  lemma RecurrenceAffine(xs: seq<real>, a: real, ys: seq<real>, s: real, t: real)
    requires IsRecurrence(xs, a, ys)
    ensures IsRecurrence(Affine(xs, s, t), a, Affine(ys, s, t))
  {
    var xs' := Affine(xs, s, t);
    var zs := Affine(ys, s, t);
    forall i | 0 < i < |xs'|
      ensures StepHolds(xs', a, zs, i)
    {
      var x, prev, y := xs[i], ys[i - 1], ys[i];
      assert StepHolds(xs, a, ys, i);
      assert y == a * x + (1.0 - a) * prev;
      AffineStep(a, x, prev, y, s, t);
    }
  }

  /** The recurrence is affine: rescaling and shifting the closes rescales and
      shifts the EMA the same way. Negating the closes (s = -1, t = 0) negates the
      EMA; mirroring them about a pivot p (s = -1, t = 2p) mirrors it. */
  lemma EmaAffine(closes: seq<real>, period: nat, s: real, t: real)
    requires period >= 1
    ensures Ema(Affine(closes, s, t), period) == Affine(Ema(closes, period), s, t)
  {
    EmaSatisfiesRecurrence(closes, period);
    RecurrenceAffine(closes, Alpha(period), Ema(closes, period), s, t);
    EmaCharacterised(Affine(closes, s, t), period, Affine(Ema(closes, period), s, t));
  }

  /** r raised to the natural power n. */
  function Pow(r: real, n: nat): real
  {
    if n == 0 then 1.0 else r * Pow(r, n - 1)
  }

  /** The sum over k in 1..j of a * (1-a)^(n-k) * xs[k]. */
  function Weighted(xs: seq<real>, a: real, n: nat, j: nat): real
    requires j <= n < |xs|
    decreases j
  {
    if j == 0 then 0.0
    else Weighted(xs, a, n, j - 1) + a * Pow(1.0 - a, n - j) * xs[j]
  }

  /** The closed form of exponential smoothing with seed xs[0]:
      (1-a)^n * xs[0] + sum over k in 1..n of a * (1-a)^(n-k) * xs[k]. */
  function ClosedForm(xs: seq<real>, a: real, n: nat): real
    requires n < |xs|
  {
    Pow(1.0 - a, n) * xs[0] + Weighted(xs, a, n, n)
  }

  lemma FactorOut(c: real, w: real, a: real, p: real, x: real)
    ensures c * w + a * (c * p) * x == c * (w + a * p * x)
  {
  }

  lemma {:induction false} WeightedShift(xs: seq<real>, a: real, n: nat, j: nat)
    requires j <= n && n + 1 < |xs|
    ensures Weighted(xs, a, n + 1, j) == (1.0 - a) * Weighted(xs, a, n, j)
    decreases j
  {
    if j > 0 {
      WeightedShift(xs, a, n, j - 1);
      var c := 1.0 - a;
      var p := Pow(c, n - j);
      var w := Weighted(xs, a, n, j - 1);
      assert Pow(c, n + 1 - j) == c * p;
      assert Weighted(xs, a, n + 1, j) == c * w + a * (c * p) * xs[j];
      FactorOut(c, w, a, p, xs[j]);
    }
  }

  /** The closed form obeys the same recurrence as the series. */
  lemma ClosedFormAdvance(xs: seq<real>, a: real, n: nat)
    requires 0 < n < |xs|
    ensures ClosedForm(xs, a, n) == a * xs[n] + (1.0 - a) * ClosedForm(xs, a, n - 1)
  {
    var c := 1.0 - a;
    var q := Pow(c, n - 1);
    var w := Weighted(xs, a, n - 1, n - 1);
    var wn := Weighted(xs, a, n, n);
    assert wn == c * w + a * 1.0 * xs[n] by {
      WeightedShift(xs, a, n - 1, n - 1);
      assert Pow(c, n - n) == 1.0;
    }
    assert ClosedForm(xs, a, n) == (c * q) * xs[0] + wn by {
      assert Pow(c, n) == c * q;
    }
    ClosedFormStep(a, c, q, xs[0], w, xs[n]);
  }

  lemma ClosedFormStep(a: real, c: real, q: real, x0: real, w: real, x: real)
    requires c == 1.0 - a
    ensures (c * q) * x0 + (c * w + a * 1.0 * x) == a * x + c * (q * x0 + w)
  {
  }

  lemma {:induction false} RecurrenceClosedForm(xs: seq<real>, a: real, ys: seq<real>, n: nat)
    requires IsRecurrence(xs, a, ys)
    requires n < |xs|
    ensures ys[n] == ClosedForm(xs, a, n)
  {
    if n > 0 {
      RecurrenceClosedForm(xs, a, ys, n - 1);
      ClosedFormAdvance(xs, a, n);
      assert StepHolds(xs, a, ys, n);
    }
  }

  /** Every EMA value equals the closed-form weighted sum of the closes so far:
      the first close weighted (1-alpha)^n and close k weighted alpha*(1-alpha)^(n-k). */
  lemma EmaClosedForm(closes: seq<real>, period: nat, n: nat)
    requires period >= 1
    requires n < |closes|
    ensures Ema(closes, period)[n] == ClosedForm(closes, Alpha(period), n)
  {
    EmaSatisfiesRecurrence(closes, period);
    RecurrenceClosedForm(closes, Alpha(period), Ema(closes, period), n);
  }

  /** The worked example: closes 10..15 with period 3 (alpha = 1/2). */
  lemma EmaWorkedExample()
    ensures Ema([10.0, 11.0, 12.0, 13.0, 14.0, 15.0], 3)
            == [10.0, 10.5, 11.25, 12.125, 13.0625, 14.03125]
  {
    var xs := [10.0, 11.0, 12.0, 13.0, 14.0, 15.0];
    var ys := [10.0, 10.5, 11.25, 12.125, 13.0625, 14.03125];
    assert Alpha(3) == 0.5;
    assert IsRecurrence(xs, Alpha(3), ys);
    EmaCharacterised(xs, 3, ys);
  }
}
