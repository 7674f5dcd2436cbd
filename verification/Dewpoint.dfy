/** Dew point in integer arithmetic (src/core/dewpoint.c): the Magnus formula in units of
0.01 degC and 1/1024, over a table of ln(p / 100).

`DewPoint` follows the C code operation by operation; the lemmas below compare it with the
exact rational formula and show that it is monotone although it rounds three times. */
module Dewpoint {
  import opened Words

  const A_Q10: int := 17684
  const B_CD: int := 23770
  const TEMP_MIN: int := -4000
  const TEMP_MAX: int := 8500
  const RH_MAX: int := 10000

  predicate TempInRange(t: int) { TEMP_MIN <= t <= TEMP_MAX }

  // ---------- rounded division ----------

  /** Division rounded to the nearest integer, halves away from zero. */
  function DivRound(n: int, d: int): int
    requires d > 0
  {
    if n >= 0 then TruncDiv(n + d / 2, d) else -TruncDiv(-n + d / 2, d)
  }

  /** The result is a nearest integer to n / d. */
  lemma DivRoundIsNearest(n: int, d: int)
    requires d > 0
    ensures -d <= 2 * n - 2 * (DivRound(n, d) * d) <= d
    ensures n >= 0 ==> 2 * n - 2 * (DivRound(n, d) * d) < d && DivRound(n, d) >= 0
    ensures n < 0 ==> 2 * n - 2 * (DivRound(n, d) * d) > -d && DivRound(n, d) <= 0
  {
    if n >= 0 {
      FloorOfHalfUp(n, d);
    } else {
      FloorOfHalfUp(-n, d);
      var q := (-n + d / 2) / d;
      assert (-q) * d == -(q * d);
    }
  }

  lemma FloorOfHalfUp(n: int, d: int)
    requires d > 0 && n >= 0
    ensures var q := (n + d / 2) / d; q >= 0 && -d <= 2 * n - 2 * (q * d) < d
  {
    var m := n + d / 2;
    var q := m / d;
    assert m == d * q + m % d;
    assert d * q == q * d;
    assert q >= 0;
  }

  lemma DivRoundOdd(n: int, d: int)
    requires d > 0
    ensures DivRound(-n, d) == -DivRound(n, d)
  {
    if n == 0 { SmallQuotient(d / 2, d); }
  }

  lemma SmallQuotient(x: int, d: int)
    requires 0 <= x < d
    ensures x / d == 0
  {
  }

  /** Rounded division is monotone in the rational n / d, whatever the denominators. */
  lemma DivRoundMonotone(n1: int, d1: int, n2: int, d2: int)
    requires d1 > 0 && d2 > 0
    requires n1 * d2 <= n2 * d1
    ensures DivRound(n1, d1) <= DivRound(n2, d2)
  {
    DivRoundIsNearest(n1, d1);
    DivRoundIsNearest(n2, d2);
    if n1 >= 0 {
      assert n2 >= 0 by { if n2 < 0 { NegativeProduct(n2, d1); NonNegativeProduct(n1, d2); } }
      DivRoundMonotoneUp(n1, d1, n2, d2);
    } else if n2 < 0 {
      DivRoundOdd(n1, d1);
      DivRoundOdd(n2, d2);
      assert -n2 * d1 <= -n1 * d2;
      DivRoundMonotoneUp(-n2, d2, -n1, d1);
    }
  }

  lemma NegativeProduct(x: int, y: int)
    requires x < 0 < y
    ensures x * y < 0
  {
  }

  lemma NonNegativeProduct(x: int, y: int)
    requires x >= 0 && y >= 0
    ensures x * y >= 0
  {
  }

  lemma DivRoundMonotoneUp(n1: int, d1: int, n2: int, d2: int)
    requires d1 > 0 && d2 > 0 && n1 >= 0 && n2 >= 0
    requires n1 * d2 <= n2 * d1
    ensures DivRound(n1, d1) <= DivRound(n2, d2)
  {
    var q1, q2 := DivRound(n1, d1), DivRound(n2, d2);
    DivRoundIsNearest(n1, d1);
    DivRoundIsNearest(n2, d2);
    if q1 > q2 {
      Crossed(n1, d1, n2, d2, q1, q2);
    }
  }

  lemma Crossed(n1: int, d1: int, n2: int, d2: int, q1: int, q2: int)
    requires d1 > 0 && d2 > 0 && q1 > q2
    requires -d1 <= 2 * n1 - 2 * (q1 * d1)
    requires 2 * n2 - 2 * (q2 * d2) < d2
    ensures n1 * d2 > n2 * d1
  {
    var e := 2 * q1 - 1;
    Distribute(q1, d1);
    Distribute(q2, d2);
    Scale(2 * q2 + 1, e, d2);
    ScaleStrict(2 * n2, e * d2, d1);
    Scale(e * d1, 2 * n1, d2);
    assert e * d2 * d1 == e * d1 * d2;
  }

  lemma Distribute(q: int, d: int)
    ensures (2 * q + 1) * d == 2 * (q * d) + d && (2 * q - 1) * d == 2 * (q * d) - d
  {
  }

  lemma ScaleStrict(x: int, y: int, k: int)
    requires x < y && k > 0
    ensures x * k < y * k
  {
  }

  // ---------- the logarithm table ----------

  /** What the arithmetic needs of the table of 1024 * ln(p / 100), p in percent. */
  predicate IsLogTable(t: seq<int>) {
    && |t| == 101
    && t[1] == -4716 && t[100] == 0
    && forall i, j :: 1 <= i <= j <= 100 ==> t[i] <= t[j]
  }

  predicate Ascending(s: seq<int>) {
    forall i, j :: 0 <= i <= j < |s| ==> s[i] <= s[j]
  }

  // The table written by tools/gen_dewpoint_lut.py, ten entries to a row.
  const ROW0: seq<int> := [-9431, -4716, -4006, -3591, -3296, -3068, -2881, -2723, -2586, -2466]
  const ROW1: seq<int> := [-2358, -2260, -2171, -2089, -2013, -1943, -1877, -1814, -1756, -1701]
  const ROW2: seq<int> := [-1648, -1598, -1550, -1505, -1461, -1420, -1379, -1341, -1304, -1268]
  const ROW3: seq<int> := [-1233, -1199, -1167, -1135, -1105, -1075, -1046, -1018, -991, -964]
  const ROW4: seq<int> := [-938, -913, -888, -864, -841, -818, -795, -773, -752, -730]
  const ROW5: seq<int> := [-710, -690, -670, -650, -631, -612, -594, -576, -558, -540]
  const ROW6: seq<int> := [-523, -506, -490, -473, -457, -441, -425, -410, -395, -380]
  const ROW7: seq<int> := [-365, -351, -336, -322, -308, -295, -281, -268, -254, -241]
  const ROW8: seq<int> := [-228, -216, -203, -191, -179, -166, -154, -143, -131, -119]
  const ROW9: seq<int> := [-108, -97, -85, -74, -63, -53, -42, -31, -21, -10]
  const ROW10: seq<int> := [0]

  const LN_RH_Q10: seq<int> :=
    ROW0 + ROW1 + ROW2 + ROW3 + ROW4 + ROW5 + ROW6 + ROW7 + ROW8 + ROW9 + ROW10

  predicate Row(s: seq<int>, first: int, last: int) {
    |s| > 0 && s[0] == first && s[|s| - 1] == last && Ascending(s)
  }

  lemma Rows0To3()
    ensures Row(ROW0, -9431, -2466)
    ensures Row(ROW1, -2358, -1701)
    ensures Row(ROW2, -1648, -1268)
    ensures Row(ROW3, -1233, -964)
  {
  }

  lemma Rows4To7()
    ensures Row(ROW4, -938, -730)
    ensures Row(ROW5, -710, -540)
    ensures Row(ROW6, -523, -380)
    ensures Row(ROW7, -365, -241)
  {
  }

  lemma Rows8To9()
    ensures Row(ROW8, -228, -119)
    ensures Row(ROW9, -108, -10)
  {
  }

  lemma Join(a: seq<int>, b: seq<int>, first: int, middle: int, next: int, last: int)
    requires Row(a, first, middle) && Row(b, next, last) && middle <= next
    ensures Row(a + b, first, last)
  {
  }

  lemma LogTable()
    ensures IsLogTable(LN_RH_Q10)
  {
    Rows0To3();
    Rows4To7();
    Rows8To9();
    Join(ROW0, ROW1, -9431, -2466, -2358, -1701);
    Join(ROW0 + ROW1, ROW2, -9431, -1701, -1648, -1268);
    Join(ROW0 + ROW1 + ROW2, ROW3, -9431, -1268, -1233, -964);
    Join(ROW0 + ROW1 + ROW2 + ROW3, ROW4, -9431, -964, -938, -730);
    Join(ROW0 + ROW1 + ROW2 + ROW3 + ROW4, ROW5, -9431, -730, -710, -540);
    Join(ROW0 + ROW1 + ROW2 + ROW3 + ROW4 + ROW5, ROW6, -9431, -540, -523, -380);
    Join(ROW0 + ROW1 + ROW2 + ROW3 + ROW4 + ROW5 + ROW6, ROW7, -9431, -380, -365, -241);
    Join(ROW0 + ROW1 + ROW2 + ROW3 + ROW4 + ROW5 + ROW6 + ROW7, ROW8, -9431, -241, -228, -119);
    Join(ROW0 + ROW1 + ROW2 + ROW3 + ROW4 + ROW5 + ROW6 + ROW7 + ROW8, ROW9, -9431, -119, -108, -10);
    Join(ROW0 + ROW1 + ROW2 + ROW3 + ROW4 + ROW5 + ROW6 + ROW7 + ROW8 + ROW9, ROW10, -9431, -10, 0, 0);
    assert LN_RH_Q10[1] == ROW0[1];
  }

  /** Humidity clamped to 1 %..100 %. */
  function ClampRh(rh: nat): (h: nat)
    ensures 100 <= h <= RH_MAX
  {
    if rh < 100 then 100 else if rh > RH_MAX then RH_MAX else rh
  }

  /** Interpolated 1024 * ln(rh). */
  function LnRh(t: seq<int>, rh: nat): int
    requires |t| == 101
  {
    var percent, frac := ClampRh(rh) / 100, ClampRh(rh) % 100;
    var y0 := t[percent];
    var y1 := if percent < 100 then t[percent + 1] else y0;
    y0 + TruncDiv((y1 - y0) * frac, 100)
  }

  // ---------- the dew point ----------

  datatype DewResult = Dew(cd: int) | OutOfRange | MathError

  function Alpha(t: seq<int>, temp: int, rh: nat): int
    requires |t| == 101 && TempInRange(temp)
  {
    DivRound(A_Q10 * temp, B_CD + temp) + LnRh(t, rh)
  }

  function ClampDew(dew: int, temp: int): int {
    var a := if dew > temp then temp else dew;
    var b := if a < TEMP_MIN then TEMP_MIN else a;
    if b > TEMP_MAX then TEMP_MAX else b
  }

  /** dewpoint_calc_cd over a given table. */
  function DewPointBy(t: seq<int>, temp: int, rh: nat): DewResult
    requires |t| == 101
  {
    if !TempInRange(temp) then OutOfRange
    else if B_CD + temp <= 0 then MathError
    else
      var alpha := Alpha(t, temp, rh);
      var denom := A_Q10 - alpha;
      if denom <= 0 then MathError
      else Dew(ClampDew(DivRound(B_CD * alpha, denom), temp))
  }

  /** dewpoint_calc_cd. */
  function DewPoint(temp: int, rh: nat): DewResult {
    DewPointBy(LN_RH_Q10, temp, rh)
  }

  // ---------- ranges ----------

  lemma Interpolation(y0: int, y1: int, f: int, g: int)
    requires y0 <= y1 && 0 <= f <= g <= 100
    ensures y0 <= y0 + TruncDiv((y1 - y0) * f, 100) <= y0 + TruncDiv((y1 - y0) * g, 100) <= y1
  {
    var d := y1 - y0;
    NonNegativeProduct(d, f);
    NonNegativeProduct(d, g);
    Scale(f, g, d);
    Scale(g, 100, d);
    assert f * d == d * f && g * d == d * g;
  }

  lemma LnRhMonotone(t: seq<int>, r: nat, s: nat)
    requires IsLogTable(t) && r <= s
    ensures -4716 <= LnRh(t, r) <= LnRh(t, s) <= 0
    ensures s >= RH_MAX ==> LnRh(t, s) == 0
  {
    var h, k := ClampRh(r), ClampRh(s);
    var p, q := h / 100, k / 100;
    var yp := if p < 100 then t[p + 1] else t[p];
    var yq := if q < 100 then t[q + 1] else t[q];
    assert t[1] <= t[p] <= yp <= t[100] && t[p] <= t[q] <= yq <= t[100];
    if p == q {
      Interpolation(t[p], yp, h % 100, k % 100);
    } else {
      Interpolation(t[p], yp, h % 100, 100);
      Interpolation(t[q], yq, 0, k % 100);
      assert yp <= t[q];
    }
  }

  /** The temperature term stays in -3578..4658. */
  lemma TermMonotone(t1: int, t2: int)
    requires TEMP_MIN <= t1 <= t2 <= TEMP_MAX
    ensures -3578 <= DivRound(A_Q10 * t1, B_CD + t1) <= DivRound(A_Q10 * t2, B_CD + t2) <= 4658
  {
    TermStep(TEMP_MIN, t1);
    TermStep(t1, t2);
    TermStep(t2, TEMP_MAX);
  }

  lemma TermStep(t1: int, t2: int)
    requires TEMP_MIN <= t1 <= t2 <= TEMP_MAX
    ensures DivRound(A_Q10 * t1, B_CD + t1) <= DivRound(A_Q10 * t2, B_CD + t2)
  {
    assert A_Q10 * t1 * (B_CD + t2) == A_Q10 * B_CD * t1 + A_Q10 * (t1 * t2);
    assert A_Q10 * t2 * (B_CD + t1) == A_Q10 * B_CD * t2 + A_Q10 * (t1 * t2);
    DivRoundMonotone(A_Q10 * t1, B_CD + t1, A_Q10 * t2, B_CD + t2);
  }

  lemma AlphaMonotone(t: seq<int>, t1: int, t2: int, r1: nat, r2: nat)
    requires IsLogTable(t) && TEMP_MIN <= t1 <= t2 <= TEMP_MAX && r1 <= r2
    ensures -8294 <= Alpha(t, t1, r1) <= Alpha(t, t2, r2) <= 4658
  {
    TermMonotone(t1, t2);
    LnRhMonotone(t, r1, r2);
  }

  /** In the accepted temperature range both denominators are positive, so the arithmetic
  error is never reported; outside the range the call is refused. */
  lemma DewPointVerdict(temp: int, rh: nat)
    ensures DewPoint(temp, rh).Dew? <==> -4000 <= temp <= 8500
    ensures DewPoint(temp, rh) != MathError
  {
    LogTable();
    if TempInRange(temp) { AlphaMonotone(LN_RH_Q10, temp, temp, rh, rh); }
  }

  /** A rounded division whose denominator is positive and whose sums fit in int32_t, in
  whichever branch it goes. */
  predicate QuotientFits(n: int, d: int) {
    0 < d && InI32(d) && InI32(n) && InI32(n + d / 2) && InI32(-n + d / 2)
  }

  /** The difference and the product of the interpolation. */
  predicate InterpolationFits(t: seq<int>, rh: nat)
    requires |t| == 101
  {
    100 <= rh < 10000 ==>
      var step := t[rh / 100 + 1] - t[rh / 100];
      InI32(step) && InI32(step * (rh % 100))
  }

  /** Every intermediate of the C computation. */
  predicate ComputationFits(temp: int, rh: nat)
    requires TempInRange(temp)
  {
    var alpha := Alpha(LN_RH_Q10, temp, rh);
    && InterpolationFits(LN_RH_Q10, rh) && InI32(LnRh(LN_RH_Q10, rh)) && InI32(alpha)
    && QuotientFits(A_Q10 * temp, B_CD + temp)
    && QuotientFits(B_CD * alpha, A_Q10 - alpha)
  }

  /** No intermediate of the C computation leaves int32_t. */
  lemma NoOverflow(temp: int, rh: nat)
    requires TempInRange(temp)
    ensures ComputationFits(temp, rh)
  {
    LogTable();
    AlphaMonotone(LN_RH_Q10, temp, temp, rh, rh);
    LnRhMonotone(LN_RH_Q10, rh, rh);
    InterpolationFitsInt32(LN_RH_Q10, rh);
  }

  lemma InterpolationFitsInt32(t: seq<int>, rh: nat)
    requires IsLogTable(t)
    ensures InterpolationFits(t, rh)
  {
    if 100 <= rh < 10000 {
      assert t[1] <= t[rh / 100] <= t[rh / 100 + 1] <= t[100];
      ProductFits(t[rh / 100 + 1] - t[rh / 100], rh % 100);
    }
  }

  lemma ProductFits(step: int, frac: nat)
    requires 0 <= step <= 4716 && frac < 100
    ensures InI32(step * frac)
  {
    Scale(frac, 100, step);
    NonNegativeProduct(step, frac);
    assert frac * step == step * frac;
  }

  // ---------- monotonicity ----------

  lemma RatioMonotone(a1: int, a2: int)
    requires a1 <= a2 < A_Q10
    ensures DivRound(B_CD * a1, A_Q10 - a1) <= DivRound(B_CD * a2, A_Q10 - a2)
  {
    assert B_CD * a1 * (A_Q10 - a2) == B_CD * A_Q10 * a1 - B_CD * (a1 * a2);
    assert B_CD * a2 * (A_Q10 - a1) == B_CD * A_Q10 * a2 - B_CD * (a1 * a2);
    DivRoundMonotone(B_CD * a1, A_Q10 - a1, B_CD * a2, A_Q10 - a2);
  }

  /** Warmer or moister air never has a lower dew point, roundings and clamps included. */
  lemma DewPointMonotone(t1: int, t2: int, r1: nat, r2: nat)
    requires TEMP_MIN <= t1 <= t2 <= TEMP_MAX && r1 <= r2
    ensures DewPoint(t1, r1).Dew? && DewPoint(t2, r2).Dew?
    ensures TEMP_MIN <= DewPoint(t1, r1).cd <= DewPoint(t2, r2).cd <= t2
  {
    LogTable();
    MonotoneByTable(LN_RH_Q10, t1, t2, r1, r2);
  }

  lemma MonotoneByTable(t: seq<int>, t1: int, t2: int, r1: nat, r2: nat)
    requires IsLogTable(t) && TEMP_MIN <= t1 <= t2 <= TEMP_MAX && r1 <= r2
    ensures DewPointBy(t, t1, r1).Dew? && DewPointBy(t, t2, r2).Dew?
    ensures TEMP_MIN <= DewPointBy(t, t1, r1).cd <= DewPointBy(t, t2, r2).cd <= t2
  {
    AlphaMonotone(t, t1, t2, r1, r2);
    RatioMonotone(Alpha(t, t1, r1), Alpha(t, t2, r2));
  }

  // ---------- accuracy ----------

  /** 1024 * ln(rh) by exact linear interpolation between the whole percents of the table; below
  1 % and above 100 % the values at the ends. */
  function ExactLn(t: seq<int>, rh: nat): real
    requires |t| == 101
  {
    if rh < 100 then t[1] as real
    else if rh >= 10000 then t[100] as real
    else t[rh / 100] as real + (t[rh / 100 + 1] - t[rh / 100]) as real * (rh % 100) as real / 100.0
  }

  function ExactAlpha(t: seq<int>, temp: int, rh: nat): real
    requires |t| == 101 && -4000 <= temp <= 8500
  {
    17684.0 * temp as real / (23770 + temp) as real + ExactLn(t, rh)
  }

  /** b * alpha / (a - alpha) */
  function ExactRatio(alpha: real): real
    requires alpha < 17684.0
  {
    23770.0 * alpha / (17684.0 - alpha)
  }

  /** Never above the air temperature, and within the sensor range. */
  function ClampReal(dew: real, temp: int): real {
    var a := if dew > temp as real then temp as real else dew;
    if a < -4000.0 then -4000.0 else if a > 8500.0 then 8500.0 else a
  }

  lemma RoundError(n: int, d: int)
    requires d > 0
    ensures -0.5 <= DivRound(n, d) as real - n as real / d as real <= 0.5
  {
    DivRoundIsNearest(n, d);
    var q := DivRound(n, d);
    assert (q * d) as real == q as real * d as real;
    NearestReal(q as real, n as real / d as real, n as real, d as real);
  }

  lemma NearestReal(q: real, x: real, n: real, d: real)
    requires d > 0.0 && x * d == n
    requires -d <= 2.0 * n - 2.0 * (q * d) <= d
    ensures -0.5 <= q - x <= 0.5
  {
    var qd := q * d;
    assert (q - x) * d == qd - x * d == qd - n;
    HalfBound(q - x, d, qd - n);
  }

  lemma HalfBound(e: real, d: real, p: real)
    requires d > 0.0 && e * d == p && -d <= p + p <= d
    ensures -0.5 <= e <= 0.5
  {
    if e > 0.5 {
      RealScale(0.5, e, d);
    } else if e < -0.5 {
      RealScale(e, -0.5, d);
    }
  }

  lemma RealScale(x: real, y: real, k: real)
    requires x < y && k > 0.0
    ensures x * k < y * k
  {
  }

  lemma LnError(t: seq<int>, rh: nat)
    requires IsLogTable(t)
    ensures -0.99 <= LnRh(t, rh) as real - ExactLn(t, rh) <= 0.0
    ensures ExactLn(t, rh) <= 0.0
    ensures rh >= RH_MAX ==> ExactLn(t, rh) == 0.0
  {
    if 100 <= rh < 10000 {
      assert t[1] <= t[rh / 100] <= t[rh / 100 + 1] <= t[100];
      InterpolationError(t[rh / 100], t[rh / 100 + 1], rh % 100);
      LnBetween(t, rh);
    } else {
      LnAtEnds(t, rh);
    }
  }

  lemma LnBetween(t: seq<int>, rh: nat)
    requires |t| == 101 && 100 <= rh < 10000
    ensures LnRh(t, rh) == t[rh / 100] + TruncDiv((t[rh / 100 + 1] - t[rh / 100]) * (rh % 100), 100)
  {
  }

  lemma LnAtEnds(t: seq<int>, rh: nat)
    requires |t| == 101
    ensures rh < 100 ==> LnRh(t, rh) == t[1]
    ensures rh >= 10000 ==> LnRh(t, rh) == t[100]
  {
  }

  lemma InterpolationError(y0: int, y1: int, f: nat)
    requires y0 <= y1 <= 0 && f < 100
    ensures var exact := (y1 - y0) as real * f as real / 100.0;
      -0.99 <= TruncDiv((y1 - y0) * f, 100) as real - exact <= 0.0 && y0 as real + exact <= 0.0
  {
    var n := (y1 - y0) * f;
    NonNegativeProduct(y1 - y0, f);
    Scale(f, 100, y1 - y0);
    assert f * (y1 - y0) == n;
    assert (y1 - y0) as real * f as real == n as real;
    Hundredths(n);
  }

  lemma Hundredths(n: nat)
    ensures -0.99 <= (n / 100) as real - n as real / 100.0 <= 0.0
  {
    assert n == 100 * (n / 100) + n % 100;
  }

  lemma AlphaError(t: seq<int>, temp: int, rh: nat)
    requires IsLogTable(t) && TempInRange(temp)
    ensures -1.49 <= Alpha(t, temp, rh) as real - ExactAlpha(t, temp, rh) <= 0.5
    ensures ExactAlpha(t, temp, rh) <= 4659.0
    ensures Alpha(t, temp, rh) <= 4658
    ensures rh >= RH_MAX ==> -0.5 <= Alpha(t, temp, rh) as real - ExactAlpha(t, temp, rh)
  {
    AlphaMonotone(t, temp, temp, rh, rh);
    TermMonotone(temp, temp);
    LnRhMonotone(t, rh, rh);
    LnError(t, rh);
    RoundError(A_Q10 * temp, B_CD + temp);
    assert A_Q10 as real * temp as real == (A_Q10 * temp) as real;
  }

  /** The ratio magnifies an error in alpha at most 2.48 times. */
  lemma RatioError(x: real, y: real)
    requires x <= y <= 4659.0
    ensures 0.0 <= ExactRatio(y) - ExactRatio(x) <= 2.48 * (y - x)
  {
    var a, b := A_Q10 as real, B_CD as real;
    var u, v := a - x, a - y;
    var k := b * a;
    assert ExactRatio(x) == k / u - b by { RatioForm(x, u); }
    assert ExactRatio(y) == k / v - b by { RatioForm(y, v); }
    ReciprocalDifference(k, u, v);
  }

  lemma RatioForm(x: real, u: real)
    requires u == A_Q10 as real - x && u > 0.0
    ensures ExactRatio(x) == B_CD as real * A_Q10 as real / u - B_CD as real
  {
    var b := B_CD as real;
    assert b * A_Q10 as real == b * x + b * u;
    assert (b * x + b * u) / u == b * x / u + b;
  }

  lemma ReciprocalDifference(k: real, u: real, v: real)
    requires k == B_CD as real * A_Q10 as real
    requires u >= v >= 13025.0
    ensures 0.0 <= k / v - k / u <= 2.48 * (u - v)
  {
    var r, s := k / v, k / u;
    assert r * v == k && s * u == k;
    assert (r - s) * v == s * (u - v);
    SlopeBound(s, u, k);
    NonNegativeReal(s, u - v);
    ErrorBound(r - s, s, u - v, v);
  }

  lemma SlopeBound(s: real, u: real, k: real)
    requires s * u == k && k == 420348680.0
    requires u >= 13025.0
    ensures 0.0 <= s <= 32273.0
  {
  }

  lemma NonNegativeReal(x: real, y: real)
    requires x >= 0.0 && y >= 0.0
    ensures x * y >= 0.0
  {
  }

  lemma ErrorBound(e: real, s: real, w: real, v: real)
    requires e * v == s * w && 0.0 <= s <= 32273.0 && w >= 0.0 && v >= 13025.0
    ensures 0.0 <= e <= 2.48 * w
  {
  }

  lemma RatioWithin(x: real, y: real)
    requires x <= 4658.0 && y <= 4659.0 && -1.49 <= x - y <= 0.5
    ensures -3.7 <= ExactRatio(x) - ExactRatio(y) <= 1.24
    ensures -0.5 <= x - y ==> -1.24 <= ExactRatio(x) - ExactRatio(y)
  {
    if x <= y { RatioError(x, y); } else { RatioError(y, x); }
  }

  lemma UnclampedError(temp: int, rh: nat)
    requires TempInRange(temp)
    ensures var alpha := Alpha(LN_RH_Q10, temp, rh);
      var exact := ExactAlpha(LN_RH_Q10, temp, rh);
      && alpha < A_Q10 && exact < A_Q10 as real
      && var dew := DivRound(B_CD * alpha, A_Q10 - alpha) as real;
      && -4.2 <= dew - ExactRatio(exact) <= 4.2
      && (rh >= RH_MAX ==> -1.74 <= dew - ExactRatio(exact) <= 1.74)
  {
    LogTable();
    AlphaError(LN_RH_Q10, temp, rh);
    var alpha := Alpha(LN_RH_Q10, temp, rh);
    RoundError(B_CD * alpha, A_Q10 - alpha);
    assert ExactRatio(alpha as real) == (B_CD * alpha) as real / (A_Q10 - alpha) as real;
    RatioWithin(alpha as real, ExactAlpha(LN_RH_Q10, temp, rh));
  }

  /** The computed dew point is within 0.042 degC of the exact value of the formula, under
  the same clamps. */
  lemma DewPointAccuracy(temp: int, rh: nat)
    requires -4000 <= temp <= 8500
    ensures DewPoint(temp, rh).Dew? && ExactAlpha(LN_RH_Q10, temp, rh) < 17684.0
    ensures var exact := ClampReal(ExactRatio(ExactAlpha(LN_RH_Q10, temp, rh)), temp);
      -4.2 <= DewPoint(temp, rh).cd as real - exact <= 4.2
  {
    UnclampedError(temp, rh);
    var alpha := Alpha(LN_RH_Q10, temp, rh);
    DewPointIsClamped(LN_RH_Q10, temp, rh);
    ClampKeepsError(DivRound(B_CD * alpha, A_Q10 - alpha), ExactRatio(ExactAlpha(LN_RH_Q10, temp, rh)), temp, 4.2);
  }

  lemma DewPointIsClamped(t: seq<int>, temp: int, rh: nat)
    requires |t| == 101 && TempInRange(temp) && Alpha(t, temp, rh) < A_Q10
    ensures var alpha := Alpha(t, temp, rh);
      DewPointBy(t, temp, rh) == Dew(ClampDew(DivRound(B_CD * alpha, A_Q10 - alpha), temp))
  {
  }

  lemma ClampKeepsError(dew: int, exact: real, temp: int, error: real)
    requires -error <= dew as real - exact <= error
    ensures -error <= ClampDew(dew, temp) as real - ClampReal(exact, temp) <= error
  {
  }

  lemma SaturatedRatio(temp: int, term: real)
    requires TempInRange(temp)
    requires term == A_Q10 as real * temp as real / (B_CD + temp) as real
    requires term < A_Q10 as real
    ensures ExactRatio(term) == temp as real
  {
    var a, b, x := A_Q10 as real, B_CD as real, temp as real;
    var d := b + x;
    assert term * d == a * x;
    assert (a - term) * d == a * d - a * x == a * b;
    assert (x * (a - term)) * d == x * (a * b) == b * (a * x) == (b * term) * d;
    CancelFactor(x * (a - term), b * term, d);
  }

  lemma CancelFactor(x: real, y: real, d: real)
    requires d > 0.0 && x * d == y * d
    ensures x == y
  {
    if x < y { RealScale(x, y, d); }
    if y < x { RealScale(y, x, d); }
  }

  /** In saturated air the dew point is the air temperature or one unit less. */
  lemma DewPointSaturated(temp: int, rh: nat)
    requires -4000 <= temp <= 8500 && rh >= 10000
    ensures DewPoint(temp, rh).Dew? && temp - 1 <= DewPoint(temp, rh).cd <= temp
  {
    LogTable();
    LnError(LN_RH_Q10, rh);
    UnclampedError(temp, rh);
    SaturatedRatio(temp, ExactAlpha(LN_RH_Q10, temp, rh));
  }
}
