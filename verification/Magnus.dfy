/** The computed dew point against the Magnus formula with a true logarithm
(src/core/dewpoint.c:33-107): what the rounded table, its linear interpolation between whole
percents, and the integer divisions cost together.

As in `LogTable`, the logarithm is whatever function turns products into sums and lies below its
tangent at one.  Such a function is concave, so between two whole percents it lies above the
chord, by at most 1 / (2 p (p + 1)). */
module Magnus {
  import opened Words
  import opened Dewpoint
  import opened LogTable

  // ---------- weighted means ----------

  lemma ScaleUp(k: real, x: real, y: real)
    requires k >= 0.0 && x <= y
    ensures k * x <= k * y
  {
  }

  lemma ScaleTo(k: real, x: real, y: real, p: real, q: real)
    requires k >= 0.0 && x <= y && p == k * x && q == k * y
    ensures p <= q
  {
    ScaleUp(k, x, y);
  }

  lemma PositiveProduct(x: real, y: real)
    requires x > 0.0 && y > 0.0
    ensures x * y > 0.0
  {
  }

  predicate Weights(v: real, w: real) { v >= 0.0 && w >= 0.0 && v + w == 1.0 }

  lemma Distribute(k: real, x: real, y: real)
    ensures k * (x + y) == k * x + k * y && k * (x - y) == k * x - k * y
  {
  }

  lemma SumBelow(a: real, b: real, c: real, d: real)
    requires a <= c && b <= d
    ensures a + b <= c + d
  {
  }

  lemma Swap(x: real, y: real, z: real)
    ensures x * (y * z) == y * (x * z)
  {
  }

  lemma Negated(v: real, w: real)
    ensures v * -w + w * v == 0.0
  {
  }

  lemma MeanBelow(d: real, e: real, v: real, w: real, bound: real)
    requires Weights(v, w) && d <= bound && e <= bound
    ensures v * d + w * e <= bound
  {
    var a, b, p, q := v * d, w * e, v * bound, w * bound;
    ScaleTo(v, d, bound, a, p);
    ScaleTo(w, e, bound, b, q);
    assert p + q == bound by { Same(bound, v, w); }
    SumBelow(a, b, p, q);
  }

  lemma MeanAbove(d: real, e: real, v: real, w: real, bound: real)
    requires Weights(v, w) && bound <= d && bound <= e
    ensures bound <= v * d + w * e
  {
    var a, b, p, q := v * d, w * e, v * bound, w * bound;
    ScaleTo(v, bound, d, p, a);
    ScaleTo(w, bound, e, q, b);
    assert p + q == bound by { Same(bound, v, w); }
    SumBelow(p, q, a, b);
  }

  lemma DifferenceOfMeans(a: real, b: real, c: real, d: real, v: real, w: real)
    ensures (v * a + w * b) - (v * c + w * d) == v * (a - c) + w * (b - d)
  {
    Distribute(v, a, c);
    Distribute(w, b, d);
  }

  /** Falling on one side as it rises on the other, the mean does not rise. */
  lemma MeanNotPositive(y: real, d: real, e: real, v: real, w: real)
    requires y > 0.0 && Weights(v, w) && y * d <= -w && y * e <= v
    ensures v * d + w * e <= 0.0
  {
    ScaleTo(v, y * d, -w, v * (y * d), v * -w);
    ScaleTo(w, y * e, v, w * (y * e), w * v);
    SumBelow(v * (y * d), w * (y * e), v * -w, w * v);
    Negated(v, w);
    Swap(y, v, d);
    Swap(y, w, e);
    Distribute(y, v * d, w * e);
    NotPositiveFactor(y, v * d + w * e);
  }

  lemma NotPositiveFactor(y: real, m: real)
    requires y > 0.0 && y * m <= 0.0
    ensures m <= 0.0
  {
    if m > 0.0 { PositiveProduct(y, m); }
  }

  lemma Divided(k: real, r: real, d: real, n: real)
    requires k > 0.0 && k * r == 1.0
    ensures k * d <= n ==> d <= n * r
  {
    assert k * (n * r) == n * (k * r) == n;
    Distribute(k, d, n * r);
    if d > n * r { PositiveProduct(k, d - n * r); }
  }

  // ---------- the chord of a logarithm ----------

  function Upper(f: nat): real { f as real / 100.0 }

  function Lower(f: nat): real { 1.0 - f as real / 100.0 }

  /** f hundredths of the way from a to b. */
  function Blend(f: nat, a: real, b: real): real { Lower(f) * a + Upper(f) * b }

  /** The chord between the percents p and p + 1, at f hundredths of the way. */
  function Chord(L: real -> real, p: nat, f: nat): real {
    Blend(f, Ln(L, p), Ln(L, p + 1))
  }

  function Point(p: nat, f: nat): real { p as real + f as real / 100.0 }

  lemma BelowCurve(L: real -> real, p: nat, f: nat)
    requires IsLog(L) && p > 0 && f < 100
    ensures Chord(L, p, f) <= L(Point(p, f))
  {
    var x, y, z := p as real, Point(p, f), (p + 1) as real;
    Growth(L, y, x);
    Growth(L, y, z);
    MeanNotPositive(y, L(x) - L(y), L(z) - L(y), Lower(f), Upper(f));
    DifferenceOfMeans(L(x), L(z), L(y), L(y), Lower(f), Upper(f));
    Same(L(y), Lower(f), Upper(f));
  }

  lemma Same(c: real, v: real, w: real)
    requires v + w == 1.0
    ensures v * c + w * c == c
  {
    Distribute(c, v, w);
  }

  /** How far the curve can rise above the chord. */
  function Gap(p: nat): real
    requires p > 0
  {
    1.0 / p as real - 1.0 / (p + 1) as real
  }

  lemma GapIsProduct(p: nat)
    requires p > 0
    ensures Gap(p) == 1.0 / (p * (p + 1)) as real
  {
    var x, z := p as real, (p + 1) as real;
    assert (p * (p + 1)) as real == x * z;
    Reciprocals(x, z, 1.0 / x, 1.0 / z, 1.0 / (x * z));
  }

  lemma Reciprocals(x: real, z: real, u: real, v: real, r: real)
    requires x > 0.0 && z == x + 1.0 && x * u == 1.0 && z * v == 1.0 && (x * z) * r == 1.0
    ensures u - v == r
  {
    Unique(x, u, z * r);
    Unique(z, v, x * r);
    Distribute(r, z, x);
  }

  lemma Unique(k: real, a: real, b: real)
    requires k > 0.0 && k * a == 1.0 && k * b == 1.0
    ensures a == b
  {
    Distribute(k, a, b);
    if a > b { PositiveProduct(k, a - b); }
    if a < b { PositiveProduct(k, b - a); }
  }

  lemma AboveChord(L: real -> real, p: nat, f: nat)
    requires IsLog(L) && p > 0 && f < 100
    ensures var rise := L(Point(p, f)) - Chord(L, p, f);
      rise <= Upper(f) * Gap(p) && rise <= Lower(f) * Gap(p)
  {
    var x, y, z := p as real, Point(p, f), (p + 1) as real;
    Slopes(L, x, y, z, 1.0 / x, 1.0 / z, Upper(f));
    RiseFromBelow(L(x), L(y), L(z), 1.0 / x, 1.0 / z, Lower(f), Upper(f));
    RiseFromAbove(L(x), L(y), L(z), 1.0 / x, 1.0 / z, Lower(f), Upper(f));
  }

  /** The tangents at both ends. */
  lemma Slopes(L: real -> real, x: real, y: real, z: real, u: real, t: real, w: real)
    requires IsLog(L) && x > 0.0 && z == x + 1.0 && y == x + w && 0.0 <= w < 1.0
    requires x * u == 1.0 && z * t == 1.0
    ensures L(y) - L(x) <= w * u && L(y) - L(z) <= -((1.0 - w) * t)
    ensures t <= L(z) - L(x) <= u
  {
    Growth(L, x, y);
    Growth(L, z, y);
    Growth(L, x, z);
    Growth(L, z, x);
    Divided(x, u, L(y) - L(x), w);
    Divided(z, t, L(y) - L(z), w - 1.0);
    assert (w - 1.0) * t == -((1.0 - w) * t);
    Divided(x, u, L(z) - L(x), 1.0);
    Divided(z, t, L(x) - L(z), -1.0);
  }

  lemma RiseFromBelow(a: real, b: real, c: real, u: real, t: real, v: real, w: real)
    requires Weights(v, w) && b - a <= w * u && t <= c - a
    ensures b - (v * a + w * c) <= w * (u - t)
  {
    ScaleTo(w, t, c - a, w * t, w * (c - a));
    Distribute(w, u, t);
    Distribute(w, c, a);
    Same(a, v, w);
  }

  lemma RiseFromAbove(a: real, b: real, c: real, u: real, t: real, v: real, w: real)
    requires Weights(v, w) && b - c <= -(v * t) && c - a <= u
    ensures b - (v * a + w * c) <= v * (u - t)
  {
    ScaleTo(v, c - a, u, v * (c - a), v * u);
    Distribute(v, u, t);
    Distribute(v, c, a);
    Same(c, v, w);
  }

  // ---------- the interpolated table ----------

  /** The logarithm of the humidity as a fraction; below 1 % and above 100 % the values there. */
  function LogOf(L: real -> real, rh: nat): real {
    if rh < 100 then L(0.01) else if rh > 10000 then L(1.0) else L(rh as real / 10000.0)
  }

  function TrueLn(L: real -> real, rh: nat): real { 1024.0 * LogOf(L, rh) }

  /** Whole percents, from 1 to 100. */
  function WholePercent(rh: nat): (p: nat)
    ensures 1 <= p <= 100
  {
    if rh < 100 then 1 else if rh > 10000 then 100 else rh / 100
  }

  /** The interpolated table is at most half a unit above the logarithm, and below it by no more
  than that and half the gap. */
  lemma TableNearLog(L: real -> real, rh: nat)
    requires IsLog(L)
    ensures -0.5 - 512.0 * Gap(WholePercent(rh)) <= ExactLn(LN_RH_Q10, rh) - TrueLn(L, rh) <= 0.5
    ensures TrueLn(L, rh) <= 0.0
  {
    OneIsZero(L);
    if rh < 100 {
      AtOnePercent(L);
    } else if rh < 10000 {
      NotPositive(L, rh);
      BetweenPercents(L, rh, rh / 100, rh % 100);
    } else {
      Dewpoint.LogTable();
      assert rh == 10000 ==> rh as real / 10000.0 == 1.0;
    }
    GapIsPositive(WholePercent(rh));
  }

  lemma OneIsZero(L: real -> real)
    requires IsLog(L)
    ensures L(1.0) == 0.0
  {
    ProductOf(L, 1.0, 1.0, 1.0);
  }

  lemma AtOnePercent(L: real -> real)
    requires IsLog(L)
    ensures -0.5 <= LN_RH_Q10[1] as real - 1024.0 * L(0.01) <= 0.5 && L(0.01) <= 0.0
  {
    TableRounds(L, 1);
    ProductOf(L, 0.01, 100.0, 1.0);
    assert BelowTangent(L, 0.01);
  }

  lemma BetweenPercents(L: real -> real, rh: nat, p: nat, f: nat)
    requires IsLog(L) && rh == 100 * p + f && f < 100 && 1 <= p < 100
    ensures -0.5 - 512.0 * Gap(p) <= ExactLn(LN_RH_Q10, rh) - TrueLn(L, rh) <= 0.5
  {
    TableRounds(L, p);
    TableRounds(L, p + 1);
    ChordNearCurve(L, LN_RH_Q10, rh, p, f);
  }

  lemma ChordNearCurve(L: real -> real, t: seq<int>, rh: nat, p: nat, f: nat)
    requires IsLog(L) && |t| == 101 && rh == 100 * p + f && f < 100 && 1 <= p < 100
    requires Rounds(L, p, t[p]) && Rounds(L, p + 1, t[p + 1])
    ensures -0.5 - 512.0 * Gap(p) <= ExactLn(t, rh) - TrueLn(L, rh) <= 0.5
  {
    LogOfHumidity(L, rh, p, f);
    Rise(L, p, f);
    ChordNearTable(L, p, f, t[p], t[p + 1]);
    ExactIsTableChord(t, rh, p, f);
    Combine(ExactLn(t, rh), Chord(L, p, f), Ln(L, 100), L(Point(p, f)), Gap(p));
  }

  lemma Combine(exact: real, chord: real, k: real, curve: real, g: real)
    requires -0.5 <= exact - 1024.0 * (chord - k) <= 0.5 && 0.0 <= curve - chord <= g / 2.0
    ensures -0.5 - 512.0 * g <= exact - 1024.0 * (curve - k) <= 0.5
  {
  }

  lemma Rise(L: real -> real, p: nat, f: nat)
    requires IsLog(L) && p > 0 && f < 100
    ensures 0.0 <= L(Point(p, f)) - Chord(L, p, f) <= Gap(p) / 2.0
  {
    BelowCurve(L, p, f);
    AboveChord(L, p, f);
    HalfGap(Lower(f), Upper(f), Gap(p), L(Point(p, f)) - Chord(L, p, f));
  }

  lemma HalfGap(v: real, w: real, g: real, rise: real)
    requires Weights(v, w) && rise <= w * g && rise <= v * g
    ensures rise <= g / 2.0
  {
    Same(g, v, w);
  }

  lemma NotPositive(L: real -> real, h: nat)
    requires IsLog(L) && 100 <= h <= RH_MAX
    ensures L(h as real / 10000.0) <= 0.0
  {
    assert BelowTangent(L, h as real / 10000.0);
  }

  lemma LogOfHumidity(L: real -> real, h: nat, p: nat, f: nat)
    requires IsLog(L) && 100 <= h <= RH_MAX && h == 100 * p + f && f < 100 && p > 0
    ensures L(h as real / 10000.0) == L(Point(p, f)) - Ln(L, 100)
  {
    var x := h as real / 10000.0;
    assert x > 0.0 && x * 100.0 == Point(p, f);
    ProductOf(L, x, 100.0, Point(p, f));
  }

  lemma ExactIsTableChord(t: seq<int>, rh: nat, p: nat, f: nat)
    requires |t| == 101 && rh == 100 * p + f && f < 100 && 1 <= p < 100
    ensures ExactLn(t, rh) == Blend(f, t[p] as real, t[p + 1] as real)
  {
    var a, b, w := t[p] as real, t[p + 1] as real, Upper(f);
    assert rh / 100 == p && rh % 100 == f;
    Distribute(w, b, a);
    Same(a, Lower(f), w);
    assert (t[p + 1] - t[p]) as real == b - a;
    assert (b - a) * f as real / 100.0 == w * (b - a);
  }

  lemma ChordNearTable(L: real -> real, p: nat, f: nat, a: int, b: int)
    requires f < 100 && Rounds(L, p, a) && Rounds(L, p + 1, b)
    ensures -0.5 <= Blend(f, a as real, b as real) - 1024.0 * (Chord(L, p, f) - Ln(L, 100)) <= 0.5
  {
    MeansNear(a as real, b as real, Ln(L, p), Ln(L, p + 1), Ln(L, 100), Lower(f), Upper(f));
  }

  lemma MeansNear(a: real, b: real, c: real, d: real, k: real, v: real, w: real)
    requires Weights(v, w)
    requires -0.5 <= a - 1024.0 * (c - k) <= 0.5 && -0.5 <= b - 1024.0 * (d - k) <= 0.5
    ensures -0.5 <= (v * a + w * b) - 1024.0 * (v * c + w * d - k) <= 0.5
  {
    var x, y := 1024.0 * (c - k), 1024.0 * (d - k);
    MeanBelow(a - x, b - y, v, w, 0.5);
    MeanAbove(a - x, b - y, v, w, -0.5);
    DifferenceOfMeans(a, b, x, y, v, w);
    ScaledMean(c, d, k, v, w);
  }

  lemma ScaledMean(c: real, d: real, k: real, v: real, w: real)
    requires v + w == 1.0
    ensures v * (1024.0 * (c - k)) + w * (1024.0 * (d - k)) == 1024.0 * (v * c + w * d - k)
  {
    Distribute(v, c, k);
    Distribute(w, d, k);
    Same(k, v, w);
    assert v * (1024.0 * (c - k)) == 1024.0 * (v * (c - k));
    assert w * (1024.0 * (d - k)) == 1024.0 * (w * (d - k));
  }

  // ---------- the dew point ----------

  /** gamma = ln(rh) + 17.27 t / (237.7 + t), the temperature in hundredths of a degree. */
  function Gamma(L: real -> real, temp: int, rh: nat): real
    requires -4000 <= temp <= 8500
  {
    LogOf(L, rh) + 17.27 * temp as real / (23770 + temp) as real
  }

  /** 237.7 gamma / (17.27 - gamma), in hundredths of a degree. */
  function MagnusDew(gamma: real): real
    requires gamma < 17.27
  {
    23770.0 * gamma / (17.27 - gamma)
  }

  /** The computed dew point is within 0.068 degC + 12.7 degC / (p (p + 1)) of the Magnus formula
  with its published constants, at a humidity of p percent and under the same clamps. */
  lemma DewPointNearMagnus(L: real -> real, temp: int, rh: nat)
    requires IsLog(L) && -4000 <= temp <= 8500
    ensures DewPoint(temp, rh).Dew? && Gamma(L, temp, rh) < 17.27
    ensures var exact := ClampReal(MagnusDew(Gamma(L, temp, rh)), temp);
      -ErrorAt(rh) <= DewPoint(temp, rh).cd as real - exact <= ErrorAt(rh)
  {
    UnclampedNearMagnus(L, temp, rh);
    var alpha := Alpha(LN_RH_Q10, temp, rh);
    DewPointIsClamped(LN_RH_Q10, temp, rh);
    ClampKeepsError(DivRound(B_CD * alpha, A_Q10 - alpha), MagnusDew(Gamma(L, temp, rh)), temp, ErrorAt(rh));
  }

  function ErrorAt(rh: nat): real { 6.8 + 1270.0 * Gap(WholePercent(rh)) }

  /** The formula with the constants as the code rounds them, in units of 1/1024. */
  function RoundedAlpha(L: real -> real, temp: int, rh: nat): real
    requires -4000 <= temp <= 8500
  {
    17684.0 * temp as real / (23770 + temp) as real + TrueLn(L, rh)
  }

  /** What the rounding of 17.27 to 17684 / 1024 costs. */
  lemma RoundedConstants(L: real -> real, temp: int, rh: nat)
    requires -4000 <= temp <= 8500 && RoundedAlpha(L, temp, rh) <= 4659.0
    ensures Gamma(L, temp, rh) < 17.27
    ensures -1.3 <= ExactRatio(RoundedAlpha(L, temp, rh)) - MagnusDew(Gamma(L, temp, rh)) <= 1.3
  {
    var q := temp as real / (23770 + temp) as real;
    var x, y := RoundedAlpha(L, temp, rh), 1024.0 * Gamma(L, temp, rh);
    QuotientRange(temp);
    assert 17684.0 * temp as real / (23770 + temp) as real == 17684.0 * q;
    assert 17.27 * temp as real / (23770 + temp) as real == 17.27 * q;
    assert y - x == 0.48 * q;
    SmallShift(x, y);
    ConstantShift(y);
    ScaledRatio(Gamma(L, temp, rh), y);
  }

  lemma QuotientRange(temp: int)
    requires -4000 <= temp <= 8500
    ensures -0.21 <= temp as real / (23770 + temp) as real <= 0.27
  {
    var d := (23770 + temp) as real;
    var q := temp as real / d;
    assert q * d == temp as real;
    if q > 0.27 {
      ScaleTo(d, 0.27, q, d * 0.27, d * q);
    }
    if q < -0.21 {
      ScaleTo(d, q, -0.21, d * q, d * -0.21);
    }
  }

  lemma SmallShift(x: real, y: real)
    requires x <= 4659.0 && -0.11 <= y - x <= 0.14
    ensures y <= 4660.0 && -0.4 <= ExactRatio(y) - ExactRatio(x) <= 0.4
  {
    if x <= y {
      NearRatioError(x, y);
    } else {
      RatioError(y, x);
    }
  }

  /** The slope a little beyond the range of the code. */
  lemma NearRatioError(x: real, y: real)
    requires x <= y <= 4660.0 && y - x <= 0.14
    ensures 0.0 <= ExactRatio(y) - ExactRatio(x) <= 0.4
  {
    var k := 420348680.0;
    var u, v := 17684.0 - x, 17684.0 - y;
    assert ExactRatio(x) == k / u - 23770.0 by { RatioForm(x, u); }
    assert ExactRatio(y) == k / v - 23770.0 by { RatioForm(y, v); }
    WiderReciprocals(k / u, k / v, u, v);
  }

  lemma WiderReciprocals(s: real, r: real, u: real, v: real)
    requires s * u == 420348680.0 && r * v == 420348680.0 && u >= v >= 13024.0 && u - v <= 0.14
    ensures 0.0 <= r - s <= 0.4
  {
    assert (r - s) * v == s * (u - v) by { assert s * (u - v) == s * u - s * v; assert (r - s) * v == r * v - s * v; }
    SlopeWider(s, u);
    ShiftBound(r - s, s, u - v, v);
  }

  lemma SlopeWider(s: real, u: real)
    requires s * u == 420348680.0 && u >= 13024.0
    ensures 0.0 <= s <= 32276.0
  {
    if s > 32276.0 {
      ScaleTo(u, 32276.0, s, u * 32276.0, u * s);
    }
    if s < 0.0 {
      PositiveProduct(-s, u);
    }
  }

  lemma ShiftBound(e: real, s: real, w: real, v: real)
    requires e * v == s * w && 0.0 <= s <= 32276.0 && 0.0 <= w <= 0.14 && v >= 13024.0
    ensures 0.0 <= e <= 0.4
  {
    ScaleTo(w, s, 32276.0, w * s, w * 32276.0);
    ScaleTo(w, 0.0, s, w * 0.0, w * s);
    if e > 0.4 {
      ScaleTo(v, 0.4, e, v * 0.4, v * e);
    }
    if e < 0.0 {
      PositiveProduct(-e, v);
    }
  }

  /** The same ratio with 17684.48 for 17684. */
  lemma ConstantShift(y: real)
    requires y <= 4660.0
    ensures -0.9 <= 23770.0 * y / (17684.48 - y) - ExactRatio(y) <= 0.9
  {
    var u, v := 17684.0 - y, 17684.48 - y;
    var r, s := ExactRatio(y), 23770.0 * y / v;
    assert r * u == 23770.0 * y && s * v == 23770.0 * y;
    assert (s - r) * v == -0.48 * r by { assert (s - r) * v == s * v - r * v; assert r * v == r * u + 0.48 * r; }
    RatioBound(r, u, y);
    SmallQuotientBound(s - r, v, r);
  }

  lemma RatioBound(r: real, u: real, y: real)
    requires y <= 4660.0 && u == 17684.0 - y && r * u == 23770.0 * y
    ensures -23770.0 <= r <= 23770.0
  {
    if r > 23770.0 {
      ScaleTo(u, 23770.0, r, u * 23770.0, u * r);
    }
    if r < -23770.0 {
      ScaleTo(u, r, -23770.0, u * r, u * -23770.0);
    }
  }

  lemma SmallQuotientBound(d: real, v: real, r: real)
    requires v >= 13024.0 && d * v == -0.48 * r && -23770.0 <= r <= 23770.0
    ensures -0.9 <= d <= 0.9
  {
    if d > 0.9 {
      ScaleTo(v, 0.9, d, v * 0.9, v * d);
    }
    if d < -0.9 {
      ScaleTo(v, d, -0.9, v * d, v * -0.9);
    }
  }

  lemma ScaledRatio(gamma: real, y: real)
    requires y == 1024.0 * gamma && y <= 4660.0
    ensures gamma < 17.27 && MagnusDew(gamma) == 23770.0 * y / (17684.48 - y)
  {
    var d := 17.27 - gamma;
    assert 17684.48 - y == 1024.0 * d && d > 0.0;
    assert 23770.0 * y == 1024.0 * (23770.0 * gamma);
    Reduced(23770.0 * gamma, d);
  }

  lemma Reduced(n: real, d: real)
    requires d > 0.0
    ensures (1024.0 * n) / (1024.0 * d) == n / d
  {
  }

  lemma ErrorFromThirtyPercent(rh: nat)
    requires rh >= 3000
    ensures ErrorAt(rh) <= 8.2
  {
    var p := WholePercent(rh);
    GapIsProduct(p);
    ProductGrows(30, 31, p, p + 1);
    SmallReciprocal((p * (p + 1)) as real, 930.0);
  }

  lemma SmallReciprocal(x: real, y: real)
    requires 0.0 < y <= x
    ensures 1.0 / x <= 1.0 / y
  {
  }

  lemma UnclampedNearMagnus(L: real -> real, temp: int, rh: nat)
    requires IsLog(L) && -4000 <= temp <= 8500
    ensures var alpha := Alpha(LN_RH_Q10, temp, rh);
      && alpha < A_Q10 && Gamma(L, temp, rh) < 17.27
      && var error := DivRound(B_CD * alpha, A_Q10 - alpha) as real - MagnusDew(Gamma(L, temp, rh));
      -ErrorAt(rh) <= error <= ErrorAt(rh)
  {
    var alpha := Alpha(LN_RH_Q10, temp, rh);
    AlphaNearMagnus(L, temp, rh);
    RatioRounds(alpha);
    GapIsPositive(WholePercent(rh));
    RatioNear(alpha as real, RoundedAlpha(L, temp, rh), Gap(WholePercent(rh)));
    RoundedConstants(L, temp, rh);
  }

  lemma GapIsPositive(p: nat)
    requires p > 0
    ensures Gap(p) > 0.0
  {
    GapIsProduct(p);
  }

  lemma RatioRounds(alpha: int)
    requires alpha < A_Q10
    ensures -0.5 <= DivRound(B_CD * alpha, A_Q10 - alpha) as real - ExactRatio(alpha as real) <= 0.5
  {
    RoundError(B_CD * alpha, A_Q10 - alpha);
    assert ExactRatio(alpha as real) == (B_CD * alpha) as real / (A_Q10 - alpha) as real;
  }

  lemma AlphaNearMagnus(L: real -> real, temp: int, rh: nat)
    requires IsLog(L) && -4000 <= temp <= 8500
    ensures var alpha, exact := Alpha(LN_RH_Q10, temp, rh), RoundedAlpha(L, temp, rh);
      && alpha <= 4658 && exact <= 4659.0
      && -2.0 - 512.0 * Gap(WholePercent(rh)) <= alpha as real - exact <= 1.0
  {
    Dewpoint.LogTable();
    AlphaError(LN_RH_Q10, temp, rh);
    AlphaError(LN_RH_Q10, temp, RH_MAX);
    LnError(LN_RH_Q10, RH_MAX);
    TableNearLog(L, rh);
  }

  lemma RatioNear(x: real, y: real, g: real)
    requires x <= 4658.0 && y <= 4659.0 && g >= 0.0 && -2.0 - 512.0 * g <= x - y <= 1.0
    ensures -5.0 - 1270.0 * g <= ExactRatio(x) - ExactRatio(y) <= 2.5
  {
    if x <= y {
      RatioError(x, y);
    } else {
      RatioError(y, x);
    }
  }
}
