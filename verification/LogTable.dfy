/** The logarithm table against the logarithm (tools/gen_dewpoint_lut.py:8-25).

Reals have no built-in logarithm here.  The natural logarithm is the only function on the
positive reals that turns products into sums and lies below its tangent at one; the table is
compared with whatever function has these two properties.  The logarithms of the primes up to
97 are pinned down by 25 pairs of neighbours n, n + 1 without larger prime factors: there the
logarithm grows by between 1 / (n + 1) and 1 / n. */
module LogTable {
  import opened Dewpoint

  // ---------- logarithms ----------

  predicate Adds(L: real -> real, x: real, y: real) { L(x * y) == L(x) + L(y) }

  predicate BelowTangent(L: real -> real, x: real) { L(x) <= x - 1.0 }

  ghost predicate IsLog(L: real -> real) {
    && (forall x, y :: x > 0.0 && y > 0.0 ==> Adds(L, x, y))
    && (forall x :: x > 0.0 ==> BelowTangent(L, x))
  }

  function Ln(L: real -> real, n: nat): real { L(n as real) }

  lemma Product(L: real -> real, a: nat, b: nat)
    requires IsLog(L) && a > 0 && b > 0
    ensures Ln(L, a * b) == Ln(L, a) + Ln(L, b)
  {
    assert (a * b) as real == a as real * b as real;
    ProductOf(L, a as real, b as real, (a * b) as real);
  }

  lemma ProductOf(L: real -> real, x: real, y: real, z: real)
    requires IsLog(L) && x > 0.0 && y > 0.0 && z == x * y
    ensures L(z) == L(x) + L(y)
  {
    assert Adds(L, x, y);
  }

  /** From n to n + 1 the logarithm grows by between 1 / (n + 1) and 1 / n. */
  lemma Neighbours(L: real -> real, n: nat)
    requires IsLog(L) && n > 0
    ensures var step := Ln(L, n + 1) - Ln(L, n);
      n as real * step <= 1.0 <= (n + 1) as real * step
  {
    var x, y := n as real, (n + 1) as real;
    var step := L(y) - L(x);
    Growth(L, x, y);
    Growth(L, y, x);
    assert y * (L(x) - L(y)) == -(y * step);
  }

  lemma Growth(L: real -> real, x: real, y: real)
    requires IsLog(L) && x > 0.0 && y > 0.0
    ensures x * (L(y) - L(x)) <= y - x
  {
    var q := y / x;
    PositiveQuotient(x, y);
    GrowthBy(L, x, q, y);
    ScaleReal(x, L(y) - L(x), q - 1.0);
    assert x * (q - 1.0) == x * q - x;
  }

  lemma GrowthBy(L: real -> real, x: real, q: real, y: real)
    requires IsLog(L) && x > 0.0 && q > 0.0 && y == x * q
    ensures L(y) - L(x) <= q - 1.0
  {
    ProductOf(L, x, q, y);
    assert BelowTangent(L, q);
  }

  lemma PositiveQuotient(x: real, y: real)
    requires x > 0.0 && y > 0.0
    ensures y / x > 0.0 && x * (y / x) == y
  {
  }

  lemma ScaleReal(k: real, x: real, y: real)
    requires k > 0.0 && x <= y
    ensures k * x <= k * y
  {
  }

  // ---------- neighbours without large prime factors ----------

  lemma From1611308699(L: real -> real)
    requires IsLog(L)
    ensures var step :=
        2.0 * Ln(L, 2) + 6.0 * Ln(L, 3) + 2.0 * Ln(L, 5) - 4.0 * Ln(L, 7) - Ln(L, 11) - 2.0 * Ln(L, 13)
        - 2.0 * Ln(L, 19) + Ln(L, 23) + 2.0 * Ln(L, 31);
      1611308699.0 * step <= 1.0 <= 1611308700.0 * step
  {
    Product(L, 19, 19); Product(L, 361, 13); Product(L, 4693, 13); Product(L, 61009, 11); Product(L, 671099, 7);
    Product(L, 4697693, 7); Product(L, 32883851, 7); Product(L, 230186957, 7); Product(L, 31, 31);
    Product(L, 961, 23); Product(L, 22103, 5); Product(L, 110515, 5); Product(L, 552575, 3); Product(L, 1657725, 3);
    Product(L, 4973175, 3); Product(L, 14919525, 3); Product(L, 44758575, 3); Product(L, 134275725, 3);
    Product(L, 402827175, 2); Product(L, 805654350, 2); Neighbours(L, 1611308699);
  }

  lemma From370256249(L: real -> real)
    requires IsLog(L)
    ensures var step :=
        Ln(L, 2) + Ln(L, 3) + 5.0 * Ln(L, 5) + 2.0 * Ln(L, 7) - 7.0 * Ln(L, 11) + Ln(L, 13) - Ln(L, 19)
        + Ln(L, 31);
      370256249.0 * step <= 1.0 <= 370256250.0 * step
  {
    Product(L, 19, 11); Product(L, 209, 11); Product(L, 2299, 11); Product(L, 25289, 11); Product(L, 278179, 11);
    Product(L, 3059969, 11); Product(L, 33659659, 11); Product(L, 31, 13); Product(L, 403, 7); Product(L, 2821, 7);
    Product(L, 19747, 5); Product(L, 98735, 5); Product(L, 493675, 5); Product(L, 2468375, 5);
    Product(L, 12341875, 5); Product(L, 61709375, 3); Product(L, 185128125, 2); Neighbours(L, 370256249);
  }

  lemma From308915775(L: real -> real)
    requires IsLog(L)
    ensures var step :=
        6.0 * Ln(L, 2) - 4.0 * Ln(L, 3) - 2.0 * Ln(L, 5) - Ln(L, 7) + 6.0 * Ln(L, 13) - Ln(L, 19) - Ln(L, 31)
        - Ln(L, 37);
      308915775.0 * step <= 1.0 <= 308915776.0 * step
  {
    Product(L, 37, 31); Product(L, 1147, 19); Product(L, 21793, 7); Product(L, 152551, 5); Product(L, 762755, 5);
    Product(L, 3813775, 3); Product(L, 11441325, 3); Product(L, 34323975, 3); Product(L, 102971925, 3);
    Product(L, 13, 13); Product(L, 169, 13); Product(L, 2197, 13); Product(L, 28561, 13); Product(L, 371293, 13);
    Product(L, 4826809, 2); Product(L, 9653618, 2); Product(L, 19307236, 2); Product(L, 38614472, 2);
    Product(L, 77228944, 2); Product(L, 154457888, 2); Neighbours(L, 308915775);
  }

  lemma From181037024(L: real -> real)
    requires IsLog(L)
    ensures var step :=
        -5.0 * Ln(L, 2) + 4.0 * Ln(L, 3) + 2.0 * Ln(L, 5) - Ln(L, 7) + 2.0 * Ln(L, 13) + 2.0 * Ln(L, 23)
        - 2.0 * Ln(L, 29) - 2.0 * Ln(L, 31);
      181037024.0 * step <= 1.0 <= 181037025.0 * step
  {
    Product(L, 31, 31); Product(L, 961, 29); Product(L, 27869, 29); Product(L, 808201, 7); Product(L, 5657407, 2);
    Product(L, 11314814, 2); Product(L, 22629628, 2); Product(L, 45259256, 2); Product(L, 90518512, 2);
    Product(L, 23, 23); Product(L, 529, 13); Product(L, 6877, 13); Product(L, 89401, 5); Product(L, 447005, 5);
    Product(L, 2235025, 3); Product(L, 6705075, 3); Product(L, 20115225, 3); Product(L, 60345675, 3);
    Neighbours(L, 181037024);
  }

  lemma From177182720(L: real -> real)
    requires IsLog(L)
    ensures var step :=
        -11.0 * Ln(L, 2) + 6.0 * Ln(L, 3) - Ln(L, 5) - 3.0 * Ln(L, 11) - Ln(L, 13) + 2.0 * Ln(L, 17)
        + 2.0 * Ln(L, 29);
      177182720.0 * step <= 1.0 <= 177182721.0 * step
  {
    Product(L, 13, 11); Product(L, 143, 11); Product(L, 1573, 11); Product(L, 17303, 5); Product(L, 86515, 2);
    Product(L, 173030, 2); Product(L, 346060, 2); Product(L, 692120, 2); Product(L, 1384240, 2);
    Product(L, 2768480, 2); Product(L, 5536960, 2); Product(L, 11073920, 2); Product(L, 22147840, 2);
    Product(L, 44295680, 2); Product(L, 88591360, 2); Product(L, 29, 29); Product(L, 841, 17);
    Product(L, 14297, 17); Product(L, 243049, 3); Product(L, 729147, 3); Product(L, 2187441, 3);
    Product(L, 6562323, 3); Product(L, 19686969, 3); Product(L, 59060907, 3); Neighbours(L, 177182720);
  }

  lemma From133919999(L: real -> real)
    requires IsLog(L)
    ensures var step :=
        8.0 * Ln(L, 2) + 3.0 * Ln(L, 3) + 4.0 * Ln(L, 5) - 2.0 * Ln(L, 17) - Ln(L, 19) - 3.0 * Ln(L, 29)
        + Ln(L, 31);
      133919999.0 * step <= 1.0 <= 133920000.0 * step
  {
    Product(L, 29, 29); Product(L, 841, 29); Product(L, 24389, 19); Product(L, 463391, 17); Product(L, 7877647, 17);
    Product(L, 31, 5); Product(L, 155, 5); Product(L, 775, 5); Product(L, 3875, 5); Product(L, 19375, 3);
    Product(L, 58125, 3); Product(L, 174375, 3); Product(L, 523125, 2); Product(L, 1046250, 2);
    Product(L, 2092500, 2); Product(L, 4185000, 2); Product(L, 8370000, 2); Product(L, 16740000, 2);
    Product(L, 33480000, 2); Product(L, 66960000, 2); Neighbours(L, 133919999);
  }

  lemma From71843750(L: real -> real)
    requires IsLog(L)
    ensures var step :=
        -Ln(L, 2) + 2.0 * Ln(L, 3) - 6.0 * Ln(L, 5) + 3.0 * Ln(L, 7) - 2.0 * Ln(L, 11) + Ln(L, 17) - Ln(L, 19)
        + 2.0 * Ln(L, 37);
      71843750.0 * step <= 1.0 <= 71843751.0 * step
  {
    Product(L, 19, 11); Product(L, 209, 11); Product(L, 2299, 5); Product(L, 11495, 5); Product(L, 57475, 5);
    Product(L, 287375, 5); Product(L, 1436875, 5); Product(L, 7184375, 5); Product(L, 35921875, 2);
    Product(L, 37, 37); Product(L, 1369, 17); Product(L, 23273, 7); Product(L, 162911, 7); Product(L, 1140377, 7);
    Product(L, 7982639, 3); Product(L, 23947917, 3); Neighbours(L, 71843750);
  }

  lemma From50481024(L: real -> real)
    requires IsLog(L)
    ensures var step :=
        -7.0 * Ln(L, 2) - Ln(L, 3) + 2.0 * Ln(L, 5) + 4.0 * Ln(L, 7) - Ln(L, 11) - Ln(L, 17) - Ln(L, 19)
        + 2.0 * Ln(L, 29) - Ln(L, 37);
      50481024.0 * step <= 1.0 <= 50481025.0 * step
  {
    Product(L, 37, 19); Product(L, 703, 17); Product(L, 11951, 11); Product(L, 131461, 3); Product(L, 394383, 2);
    Product(L, 788766, 2); Product(L, 1577532, 2); Product(L, 3155064, 2); Product(L, 6310128, 2);
    Product(L, 12620256, 2); Product(L, 25240512, 2); Product(L, 29, 29); Product(L, 841, 7); Product(L, 5887, 7);
    Product(L, 41209, 7); Product(L, 288463, 7); Product(L, 2019241, 5); Product(L, 10096205, 5);
    Neighbours(L, 50481024);
  }

  lemma From27994680(L: real -> real)
    requires IsLog(L)
    ensures var step :=
        -3.0 * Ln(L, 2) - 3.0 * Ln(L, 3) - Ln(L, 5) - 2.0 * Ln(L, 7) + 2.0 * Ln(L, 11) + 2.0 * Ln(L, 13)
        - 2.0 * Ln(L, 23) + 2.0 * Ln(L, 37);
      27994680.0 * step <= 1.0 <= 27994681.0 * step
  {
    Product(L, 23, 23); Product(L, 529, 7); Product(L, 3703, 7); Product(L, 25921, 5); Product(L, 129605, 3);
    Product(L, 388815, 3); Product(L, 1166445, 3); Product(L, 3499335, 2); Product(L, 6998670, 2);
    Product(L, 13997340, 2); Product(L, 37, 37); Product(L, 1369, 13); Product(L, 17797, 13);
    Product(L, 231361, 11); Product(L, 2544971, 11); Neighbours(L, 27994680);
  }

  lemma From21386000(L: real -> real)
    requires IsLog(L)
    ensures var step :=
        -4.0 * Ln(L, 2) + Ln(L, 3) - 3.0 * Ln(L, 5) + 2.0 * Ln(L, 7) + Ln(L, 13) - 2.0 * Ln(L, 17)
        + 2.0 * Ln(L, 19) + Ln(L, 31) - Ln(L, 37);
      21386000.0 * step <= 1.0 <= 21386001.0 * step
  {
    Product(L, 37, 17); Product(L, 629, 17); Product(L, 10693, 5); Product(L, 53465, 5); Product(L, 267325, 5);
    Product(L, 1336625, 2); Product(L, 2673250, 2); Product(L, 5346500, 2); Product(L, 10693000, 2);
    Product(L, 31, 19); Product(L, 589, 19); Product(L, 11191, 13); Product(L, 145483, 7); Product(L, 1018381, 7);
    Product(L, 7128667, 3); Neighbours(L, 21386000);
  }

  lemma From18085704(L: real -> real)
    requires IsLog(L)
    ensures var step :=
        -3.0 * Ln(L, 2) - Ln(L, 3) + Ln(L, 5) - 3.0 * Ln(L, 7) + Ln(L, 11) - 3.0 * Ln(L, 13) + Ln(L, 17)
        + Ln(L, 23) + 2.0 * Ln(L, 29);
      18085704.0 * step <= 1.0 <= 18085705.0 * step
  {
    Product(L, 13, 13); Product(L, 169, 13); Product(L, 2197, 7); Product(L, 15379, 7); Product(L, 107653, 7);
    Product(L, 753571, 3); Product(L, 2260713, 2); Product(L, 4521426, 2); Product(L, 9042852, 2);
    Product(L, 29, 29); Product(L, 841, 23); Product(L, 19343, 17); Product(L, 328831, 11); Product(L, 3617141, 5);
    Neighbours(L, 18085704);
  }

  lemma From7491168(L: real -> real)
    requires IsLog(L)
    ensures var step :=
        -5.0 * Ln(L, 2) - 2.0 * Ln(L, 3) + 2.0 * Ln(L, 7) + 2.0 * Ln(L, 17) - Ln(L, 19) + 2.0 * Ln(L, 23)
        - 2.0 * Ln(L, 37);
      7491168.0 * step <= 1.0 <= 7491169.0 * step
  {
    Product(L, 37, 37); Product(L, 1369, 19); Product(L, 26011, 3); Product(L, 78033, 3); Product(L, 234099, 2);
    Product(L, 468198, 2); Product(L, 936396, 2); Product(L, 1872792, 2); Product(L, 3745584, 2);
    Product(L, 23, 23); Product(L, 529, 17); Product(L, 8993, 17); Product(L, 152881, 7); Product(L, 1070167, 7);
    Neighbours(L, 7491168);
  }

  predicate Near(x: real, value: real, error: real) { value - error <= x <= value + error }

  // ---------- the logarithms of the primes ----------

  lemma Primes2(L: real -> real)
    requires IsLog(L)
    ensures Near(Ln(L, 2), 0.693147181, 0.00000015)
    ensures Near(Ln(L, 3), 1.098612289, 0.00000015)
    ensures Near(Ln(L, 5), 1.609437912, 0.00000015)
    ensures Near(Ln(L, 7), 1.945910149, 0.00000015)
  {
    From1611308699(L); From370256249(L); From308915775(L); From181037024(L); From177182720(L); From133919999(L);
    From71843750(L); From50481024(L); From27994680(L); From21386000(L); From18085704(L); From7491168(L);
  }

  lemma Primes11(L: real -> real)
    requires IsLog(L)
    ensures Near(Ln(L, 11), 2.397895273, 0.00000015)
    ensures Near(Ln(L, 13), 2.564949357, 0.00000015)
    ensures Near(Ln(L, 17), 2.833213344, 0.00000015)
    ensures Near(Ln(L, 19), 2.944438979, 0.00000015)
  {
    From1611308699(L); From370256249(L); From308915775(L); From181037024(L); From177182720(L); From133919999(L);
    From71843750(L); From50481024(L); From27994680(L); From21386000(L); From18085704(L); From7491168(L);
  }

  lemma Primes23(L: real -> real)
    requires IsLog(L)
    ensures Near(Ln(L, 23), 3.135494216, 0.00000015)
    ensures Near(Ln(L, 29), 3.367295830, 0.00000015)
    ensures Near(Ln(L, 31), 3.433987204, 0.00000015)
    ensures Near(Ln(L, 37), 3.610917913, 0.00000015)
  {
    From1611308699(L); From370256249(L); From308915775(L); From181037024(L); From177182720(L); From133919999(L);
    From71843750(L); From50481024(L); From27994680(L); From21386000(L); From18085704(L); From7491168(L);
  }

  lemma PrimesFrom41(L: real -> real)
    requires IsLog(L)
    ensures Near(Ln(L, 41), 3.713572067, 0.000003)
    ensures Near(Ln(L, 43), 3.761200116, 0.000003)
    ensures Near(Ln(L, 47), 3.850147602, 0.000003)
    ensures Near(Ln(L, 53), 3.970291914, 0.000003)
  {
    Primes2(L); Primes11(L); Primes23(L);
    Product(L, 41, 23); Product(L, 943, 19); Product(L, 31, 17); Product(L, 527, 17);
    Product(L, 8959, 2); Neighbours(L, 17917);
    Product(L, 37, 37); Product(L, 1369, 37); Product(L, 43, 31); Product(L, 1333, 19);
    Product(L, 25327, 2); Neighbours(L, 50653);
    Product(L, 37, 17); Product(L, 629, 13); Product(L, 47, 29); Product(L, 1363, 3);
    Product(L, 4089, 2); Neighbours(L, 8177);
    Product(L, 53, 19); Product(L, 1007, 2); Product(L, 31, 13); Product(L, 403, 5);
    Neighbours(L, 2014);
  }

  lemma PrimesFrom59(L: real -> real)
    requires IsLog(L)
    ensures Near(Ln(L, 59), 4.077537444, 0.000003)
    ensures Near(Ln(L, 61), 4.110873864, 0.000003)
    ensures Near(Ln(L, 67), 4.204692619, 0.000003)
  {
    Primes2(L); Primes11(L); Primes23(L);
    Product(L, 59, 29); Product(L, 1711, 2); Product(L, 3422, 2); Product(L, 37, 37);
    Product(L, 1369, 5); Neighbours(L, 6844);
    Product(L, 29, 13); Product(L, 377, 11); Product(L, 61, 17); Product(L, 1037, 2);
    Product(L, 2074, 2); Neighbours(L, 4147);
    Product(L, 67, 29); Product(L, 1943, 2); Product(L, 23, 13); Product(L, 299, 13);
    Neighbours(L, 3886);
  }

  lemma PrimesFrom71(L: real -> real)
    requires IsLog(L)
    ensures Near(Ln(L, 71), 4.262679877, 0.000003)
    ensures Near(Ln(L, 73), 4.290459441, 0.000003)
    ensures Near(Ln(L, 79), 4.369447852, 0.000003)
  {
    Primes2(L); Primes11(L); Primes23(L);
    Product(L, 71, 31); Product(L, 2201, 2); Product(L, 37, 17); Product(L, 629, 7);
    Neighbours(L, 4402);
    Product(L, 29, 13); Product(L, 377, 3); Product(L, 1131, 2); Product(L, 73, 31);
    Neighbours(L, 2262);
    Product(L, 79, 11); Product(L, 869, 7); Product(L, 6083, 2); Product(L, 23, 23);
    Product(L, 529, 23); Neighbours(L, 12166);
  }

  lemma PrimesFrom83(L: real -> real)
    requires IsLog(L)
    ensures Near(Ln(L, 83), 4.418840608, 0.000003)
    ensures Near(Ln(L, 89), 4.488636370, 0.000003)
    ensures Near(Ln(L, 97), 4.574710979, 0.000003)
  {
    Primes2(L); Primes11(L); Primes23(L);
    Product(L, 31, 13); Product(L, 403, 7); Product(L, 83, 17); Product(L, 1411, 2);
    Neighbours(L, 2821);
    Product(L, 31, 11); Product(L, 341, 3); Product(L, 1023, 2); Product(L, 89, 23);
    Neighbours(L, 2046);
    Product(L, 37, 19); Product(L, 703, 2); Product(L, 1406, 2); Product(L, 97, 29);
    Neighbours(L, 2812);
  }

  // ---------- the table ----------

  /** Less than a half: so close an integer is the nearest one, by a margin of 0.0005. */
  const MARGIN: real := 0.4995

  /** The entry t is the integer nearest to 1024 times the logarithm of p / 100. */
  predicate Rounds(L: real -> real, p: nat, t: int) {
    -MARGIN < 1024.0 * (Ln(L, p) - Ln(L, 100)) - t as real < MARGIN
  }

  /** So are the entries of a row, except the one for 0 %. */
  predicate RowRounds(L: real -> real, from: nat, row: seq<int>) {
    forall i :: 0 <= i < |row| && from + i > 0 ==> Rounds(L, from + i, row[i])
  }

  lemma Row0(L: real -> real)
    requires IsLog(L)
    ensures RowRounds(L, 0, ROW0)
  {
    assert Rounds(L, 1, -4716) && Rounds(L, 2, -4006) && Rounds(L, 3, -3591) && Rounds(L, 4, -3296) &&
      Rounds(L, 5, -3068) && Rounds(L, 6, -2881) && Rounds(L, 7, -2723) && Rounds(L, 8, -2586) &&
      Rounds(L, 9, -2466)
    by {
      Primes2(L); Primes11(L); Primes23(L);
      Product(L, 1, 1); Product(L, 2, 2); Product(L, 3, 2); Product(L, 4, 2); Product(L, 3, 3);
      Product(L, 5, 5); Product(L, 25, 2); Product(L, 50, 2);
    }
  }

  lemma Row1(L: real -> real)
    requires IsLog(L)
    ensures RowRounds(L, 10, ROW1)
  {
    assert Rounds(L, 10, -2358) && Rounds(L, 11, -2260) && Rounds(L, 12, -2171) && Rounds(L, 13, -2089) &&
      Rounds(L, 14, -2013) && Rounds(L, 15, -1943) && Rounds(L, 16, -1877) && Rounds(L, 17, -1814) &&
      Rounds(L, 18, -1756) && Rounds(L, 19, -1701)
    by {
      Primes2(L); Primes11(L); Primes23(L);
      Product(L, 5, 2); Product(L, 3, 2); Product(L, 6, 2); Product(L, 7, 2); Product(L, 5, 3);
      Product(L, 2, 2); Product(L, 4, 2); Product(L, 8, 2); Product(L, 3, 3); Product(L, 9, 2); Product(L, 5, 5);
      Product(L, 25, 2); Product(L, 50, 2);
    }
  }

  lemma Row2(L: real -> real)
    requires IsLog(L)
    ensures RowRounds(L, 20, ROW2)
  {
    assert Rounds(L, 20, -1648) && Rounds(L, 21, -1598) && Rounds(L, 22, -1550) && Rounds(L, 23, -1505) &&
      Rounds(L, 24, -1461) && Rounds(L, 25, -1420) && Rounds(L, 26, -1379) && Rounds(L, 27, -1341) &&
      Rounds(L, 28, -1304) && Rounds(L, 29, -1268)
    by {
      Primes2(L); Primes11(L); Primes23(L);
      Product(L, 5, 2); Product(L, 10, 2); Product(L, 7, 3); Product(L, 11, 2); Product(L, 3, 2);
      Product(L, 6, 2); Product(L, 12, 2); Product(L, 5, 5); Product(L, 13, 2); Product(L, 3, 3); Product(L, 9, 3);
      Product(L, 7, 2); Product(L, 14, 2); Product(L, 25, 2); Product(L, 50, 2);
    }
  }

  lemma Row3(L: real -> real)
    requires IsLog(L)
    ensures RowRounds(L, 30, ROW3)
  {
    assert Rounds(L, 30, -1233) && Rounds(L, 31, -1199) && Rounds(L, 32, -1167) && Rounds(L, 33, -1135) &&
      Rounds(L, 34, -1105) && Rounds(L, 35, -1075) && Rounds(L, 36, -1046) && Rounds(L, 37, -1018) &&
      Rounds(L, 38, -991) && Rounds(L, 39, -964)
    by {
      Primes2(L); Primes11(L); Primes23(L);
      Product(L, 5, 3); Product(L, 15, 2); Product(L, 2, 2); Product(L, 4, 2); Product(L, 8, 2);
      Product(L, 16, 2); Product(L, 11, 3); Product(L, 17, 2); Product(L, 7, 5); Product(L, 3, 3); Product(L, 9, 2);
      Product(L, 18, 2); Product(L, 19, 2); Product(L, 13, 3); Product(L, 5, 5); Product(L, 25, 2); Product(L, 50, 2);
    }
  }

  lemma Row4(L: real -> real)
    requires IsLog(L)
    ensures RowRounds(L, 40, ROW4)
  {
    assert Rounds(L, 40, -938) && Rounds(L, 41, -913) && Rounds(L, 42, -888) && Rounds(L, 43, -864) &&
      Rounds(L, 44, -841) && Rounds(L, 45, -818) && Rounds(L, 46, -795) && Rounds(L, 47, -773) &&
      Rounds(L, 48, -752) && Rounds(L, 49, -730)
    by {
      Primes2(L); Primes11(L); Primes23(L);
      PrimesFrom41(L); PrimesFrom59(L); PrimesFrom71(L); PrimesFrom83(L);
      Product(L, 5, 2); Product(L, 10, 2); Product(L, 20, 2); Product(L, 7, 3);
      Product(L, 21, 2); Product(L, 11, 2); Product(L, 22, 2); Product(L, 5, 3); Product(L, 15, 3); Product(L, 23, 2);
      Product(L, 3, 2); Product(L, 6, 2); Product(L, 12, 2); Product(L, 24, 2); Product(L, 7, 7); Product(L, 5, 5);
      Product(L, 25, 2); Product(L, 50, 2);
    }
  }

  lemma Row5(L: real -> real)
    requires IsLog(L)
    ensures RowRounds(L, 50, ROW5)
  {
    assert Rounds(L, 50, -710) && Rounds(L, 51, -690) && Rounds(L, 52, -670) && Rounds(L, 53, -650) &&
      Rounds(L, 54, -631) && Rounds(L, 55, -612) && Rounds(L, 56, -594) && Rounds(L, 57, -576) &&
      Rounds(L, 58, -558) && Rounds(L, 59, -540)
    by {
      Primes2(L); Primes11(L); Primes23(L);
      PrimesFrom41(L); PrimesFrom59(L); PrimesFrom71(L); PrimesFrom83(L);
      Product(L, 5, 5); Product(L, 25, 2); Product(L, 17, 3); Product(L, 13, 2);
      Product(L, 26, 2); Product(L, 3, 3); Product(L, 9, 3); Product(L, 27, 2); Product(L, 11, 5); Product(L, 7, 2);
      Product(L, 14, 2); Product(L, 28, 2); Product(L, 19, 3); Product(L, 29, 2); Product(L, 50, 2);
    }
  }

  lemma Row6(L: real -> real)
    requires IsLog(L)
    ensures RowRounds(L, 60, ROW6)
  {
    assert Rounds(L, 60, -523) && Rounds(L, 61, -506) && Rounds(L, 62, -490) && Rounds(L, 63, -473) &&
      Rounds(L, 64, -457) && Rounds(L, 65, -441) && Rounds(L, 66, -425) && Rounds(L, 67, -410) &&
      Rounds(L, 68, -395) && Rounds(L, 69, -380)
    by {
      Primes2(L); Primes11(L); Primes23(L);
      PrimesFrom41(L); PrimesFrom59(L); PrimesFrom71(L); PrimesFrom83(L);
      Product(L, 5, 3); Product(L, 15, 2); Product(L, 30, 2); Product(L, 31, 2);
      Product(L, 7, 3); Product(L, 21, 3); Product(L, 2, 2); Product(L, 4, 2); Product(L, 8, 2); Product(L, 16, 2);
      Product(L, 32, 2); Product(L, 13, 5); Product(L, 11, 3); Product(L, 33, 2); Product(L, 17, 2);
      Product(L, 34, 2); Product(L, 23, 3); Product(L, 5, 5); Product(L, 25, 2); Product(L, 50, 2);
    }
  }

  lemma Row7(L: real -> real)
    requires IsLog(L)
    ensures RowRounds(L, 70, ROW7)
  {
    assert Rounds(L, 70, -365) && Rounds(L, 71, -351) && Rounds(L, 72, -336) && Rounds(L, 73, -322) &&
      Rounds(L, 74, -308) && Rounds(L, 75, -295) && Rounds(L, 76, -281) && Rounds(L, 77, -268) &&
      Rounds(L, 78, -254) && Rounds(L, 79, -241)
    by {
      Primes2(L); Primes11(L); Primes23(L);
      PrimesFrom41(L); PrimesFrom59(L); PrimesFrom71(L); PrimesFrom83(L);
      Product(L, 7, 5); Product(L, 35, 2); Product(L, 3, 3); Product(L, 9, 2);
      Product(L, 18, 2); Product(L, 36, 2); Product(L, 37, 2); Product(L, 5, 5); Product(L, 25, 3); Product(L, 19, 2);
      Product(L, 38, 2); Product(L, 11, 7); Product(L, 13, 3); Product(L, 39, 2); Product(L, 25, 2);
      Product(L, 50, 2);
    }
  }

  lemma Row8(L: real -> real)
    requires IsLog(L)
    ensures RowRounds(L, 80, ROW8)
  {
    assert Rounds(L, 80, -228) && Rounds(L, 81, -216) && Rounds(L, 82, -203) && Rounds(L, 83, -191) &&
      Rounds(L, 84, -179) && Rounds(L, 85, -166) && Rounds(L, 86, -154) && Rounds(L, 87, -143) &&
      Rounds(L, 88, -131) && Rounds(L, 89, -119)
    by {
      Primes2(L); Primes11(L); Primes23(L);
      PrimesFrom41(L); PrimesFrom59(L); PrimesFrom71(L); PrimesFrom83(L);
      Product(L, 5, 2); Product(L, 10, 2); Product(L, 20, 2); Product(L, 40, 2);
      Product(L, 3, 3); Product(L, 9, 3); Product(L, 27, 3); Product(L, 41, 2); Product(L, 7, 3); Product(L, 21, 2);
      Product(L, 42, 2); Product(L, 17, 5); Product(L, 43, 2); Product(L, 29, 3); Product(L, 11, 2);
      Product(L, 22, 2); Product(L, 44, 2); Product(L, 5, 5); Product(L, 25, 2); Product(L, 50, 2);
    }
  }

  lemma Row9(L: real -> real)
    requires IsLog(L)
    ensures RowRounds(L, 90, ROW9)
  {
    assert Rounds(L, 90, -108) && Rounds(L, 91, -97) && Rounds(L, 92, -85) && Rounds(L, 93, -74) &&
      Rounds(L, 94, -63) && Rounds(L, 95, -53) && Rounds(L, 96, -42) && Rounds(L, 97, -31) &&
      Rounds(L, 98, -21) && Rounds(L, 99, -10)
    by {
      Primes2(L); Primes11(L); Primes23(L);
      PrimesFrom41(L); PrimesFrom59(L); PrimesFrom71(L); PrimesFrom83(L);
      Product(L, 5, 3); Product(L, 15, 3); Product(L, 45, 2); Product(L, 13, 7);
      Product(L, 23, 2); Product(L, 46, 2); Product(L, 31, 3); Product(L, 47, 2); Product(L, 19, 5); Product(L, 3, 2);
      Product(L, 6, 2); Product(L, 12, 2); Product(L, 24, 2); Product(L, 48, 2); Product(L, 7, 7); Product(L, 49, 2);
      Product(L, 11, 3); Product(L, 33, 3); Product(L, 5, 5); Product(L, 25, 2); Product(L, 50, 2);
    }
  }

  lemma Row10(L: real -> real)
    requires IsLog(L)
    ensures RowRounds(L, 100, ROW10)
  {
    assert Rounds(L, 100, 0)
    by {
      Primes2(L); Primes11(L); Primes23(L);
      Product(L, 5, 5); Product(L, 25, 2); Product(L, 50, 2);
    }
  }

  function LowerEntry(p: nat): int
    requires p < 50
  {
    if p < 10 then ROW0[p]
    else if p < 20 then ROW1[p - 10]
    else if p < 30 then ROW2[p - 20]
    else if p < 40 then ROW3[p - 30]
    else ROW4[p - 40]
  }

  function UpperEntry(p: nat): int
    requires 50 <= p <= 100
  {
    if p < 60 then ROW5[p - 50]
    else if p < 70 then ROW6[p - 60]
    else if p < 80 then ROW7[p - 70]
    else if p < 90 then ROW8[p - 80]
    else if p < 100 then ROW9[p - 90]
    else ROW10[p - 100]
  }

  lemma LowerEntries(p: nat)
    requires p < 50
    ensures LN_RH_Q10[p] == LowerEntry(p)
  {
  }

  lemma UpperEntries(p: nat)
    requires 50 <= p <= 100
    ensures LN_RH_Q10[p] == UpperEntry(p)
  {
  }

  lemma LowerRounds(L: real -> real, p: nat)
    requires IsLog(L) && 1 <= p < 50
    ensures Rounds(L, p, LowerEntry(p))
  {
    if p < 10 {
      Row0(L);
    } else if p < 20 {
      Row1(L);
    } else if p < 30 {
      Row2(L);
    } else if p < 40 {
      Row3(L);
    } else {
      Row4(L);
    }
  }

  lemma UpperRounds(L: real -> real, p: nat)
    requires IsLog(L) && 50 <= p <= 100
    ensures Rounds(L, p, UpperEntry(p))
  {
    if p < 60 {
      Row5(L);
    } else if p < 70 {
      Row6(L);
    } else if p < 80 {
      Row7(L);
    } else if p < 90 {
      Row8(L);
    } else if p < 100 {
      Row9(L);
    } else {
      Row10(L);
    }
  }

  lemma TableRounds(L: real -> real, p: nat)
    requires IsLog(L) && 1 <= p <= 100
    ensures Rounds(L, p, LN_RH_Q10[p])
  {
    if p < 50 {
      LowerEntries(p);
      LowerRounds(L, p);
    } else {
      UpperEntries(p);
      UpperRounds(L, p);
    }
  }

  /** The value of the generator: 1024 times the logarithm of p percent, entry 0 standing for one
  hundredth of a percent. */
  function ScaledLog(L: real -> real, p: nat): real {
    1024.0 * L(if p == 0 then 0.0001 else p as real / 100.0)
  }

  /** Every entry of the table is the integer nearest to the generator's value, which is never
  within 0.0005 of the middle between two integers. */
  lemma TableIsRoundedLog(L: real -> real, p: nat)
    requires IsLog(L) && p <= 100
    ensures -MARGIN < ScaledLog(L, p) - LN_RH_Q10[p] as real < MARGIN
  {
    if p == 0 {
      Entry0(L);
    } else {
      TableRounds(L, p);
      Percent(L, p);
      assert ScaledLog(L, p) == 1024.0 * (Ln(L, p) - Ln(L, 100));
    }
  }

  lemma Percent(L: real -> real, p: nat)
    requires IsLog(L) && p > 0
    ensures L(p as real / 100.0) == Ln(L, p) - Ln(L, 100)
  {
    var x := p as real / 100.0;
    assert x > 0.0 && x * 100.0 == p as real;
    ProductOf(L, x, 100.0, p as real);
  }

  lemma Entry0(L: real -> real)
    requires IsLog(L)
    ensures -MARGIN < ScaledLog(L, 0) - ROW0[0] as real < MARGIN
  {
    Primes2(L); Primes11(L); Primes23(L);
    Product(L, 5, 5); Product(L, 25, 2); Product(L, 50, 2); Product(L, 100, 100); Product(L, 1, 1);
    ProductOf(L, 0.0001, 10000.0, 1.0);
  }
}
