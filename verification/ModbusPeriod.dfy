/** The period of the Modbus register (src/service/modbus.c:22-28).

For the Modbus polynomial x^16 + x^15 + x^2 + 1 = (x + 1)(x^15 + x + 1) a single one in the
register comes back after exactly 32767 turns.

The proof follows one bit of the register, `Out(n)`.  It obeys
Out(n + 15) = Out(n + 1) xor Out(n), a relation that survives doubling of the distances,
so far jumps reduce to short ones; the proper divisors of 32767 are excluded one by one. */
module ModbusPeriod {
  import opened Lfsr
  import opened Words
  import opened Divisors

  /** 0xA001, lowest bit first. */
  const MODBUS_POLY: seq<bool> := [true] + Zeros(12) + [true, false, true]

  lemma ModbusPoly()
    ensures |MODBUS_POLY| == 16 && IsCode(MODBUS_POLY)
    ensures OddOnes(MODBUS_POLY)
  {
    LeadingZeros(12, [true, false, true]);
    assert MODBUS_POLY[1..] == Zeros(12) + [true, false, true];
    EvenTail();
  }

  lemma ModbusPolyIsA001()
    ensures MODBUS_POLY == Bits(16, 0xA001)
  {
    FitsByte(1);
    BitsOfOne();
    BitsOfA0();
    LowByteFirst(8, 1, 0xA0);
    assert MODBUS_POLY == ByteBits(1) + ByteBits(0xA0);
  }

  lemma EvenTail()
    ensures !OddOnes([true, false, true])
  {
    assert [true, false, true][1..] == [false, true];
    assert [false, true][1..] == [true];
    assert [true][1..] == [];
  }

  lemma BitsOfOne()
    ensures ByteBits(1) == [true, false, false, false, false, false, false, false]
  {
    assert Bits(4, 0) == [false, false, false, false];
    assert Bits(7, 0) == [false, false, false, false, false, false, false];
  }

  lemma BitsOfA0()
    ensures ByteBits(0xA0) == [false, false, false, false, false, true, false, true]
  {
    assert Bits(3, 5) == [true, false, true];
    assert Bits(5, 0x14) == [false, false, true, false, true];
  }

  lemma {:induction false} LeadingZeros(n: nat, s: seq<bool>)
    ensures OddOnes(Zeros(n) + s) == OddOnes(s)
  {
    if n == 0 {
      assert Zeros(0) + s == s;
    } else {
      assert (Zeros(n) + s)[1..] == Zeros(n - 1) + s;
      LeadingZeros(n - 1, s);
    }
  }

  /** The register holding a single one in its lowest place. */
  function Single(width: nat): (r: seq<bool>)
    requires width > 0
    ensures |r| == width
  {
    [true] + Zeros(width - 1)
  }

  // ---------- the observed bit ----------

  /** A start register on which x^15 = x + 1 holds. */
  const START: seq<bool> := Zeros(13) + [true, false, true]

  function Out(n: nat): bool {
    Shifts(MODBUS_POLY, n, START)[0]
  }

  lemma StartRegister()
    ensures START == Xor(Single(16), Shift(MODBUS_POLY, Single(16)))
  {
    assert Shift(MODBUS_POLY, Single(16)) == MODBUS_POLY;
  }

  /** The start register merely moves down for its first turns. */
  lemma {:induction false} MovesDown(n: nat)
    requires n <= 13
    ensures Shifts(MODBUS_POLY, n, START) == Zeros(13 - n) + [true, false, true] + Zeros(n)
  {
    if n == 0 {
      assert Zeros(13) + [true, false, true] + Zeros(0) == START;
    } else {
      MovesDown(n - 1);
      ShiftsAdd(MODBUS_POLY, n - 1, 1, START);
      var before := Zeros(14 - n) + [true, false, true] + Zeros(n - 1);
      assert Shift(MODBUS_POLY, before) == Zeros(13 - n) + [true, false, true] + Zeros(n);
    }
  }

  lemma FirstOutputs(n: nat)
    requires n <= 14
    ensures Out(n) <==> n >= 13
  {
    if n <= 13 {
      MovesDown(n);
    } else {
      FifteenTurns();
    }
  }

  lemma TwoFeedbacks()
    ensures Shift(MODBUS_POLY, [true, false, true] + Zeros(13)) == [true, true] + Zeros(11) + [true, false, true]
    ensures Shift(MODBUS_POLY, [true, true] + Zeros(11) + [true, false, true]) == Zeros(12) + [true, true, true, true]
  {
    assert forall i :: 0 <= i < 16 ==> (MODBUS_POLY[i] <==> i == 0 || i == 13 || i == 15);
  }

  lemma FifteenTurns()
    ensures Out(14)
    ensures Shifts(MODBUS_POLY, 15, START) == Xor(Shift(MODBUS_POLY, START), START)
  {
    MovesDown(13);
    assert Zeros(0) + [true, false, true] + Zeros(13) == [true, false, true] + Zeros(13);
    TwoFeedbacks();
    ShiftsAdd(MODBUS_POLY, 13, 1, START);
    ShiftsAdd(MODBUS_POLY, 14, 1, START);
    assert Shift(MODBUS_POLY, START) == Zeros(12) + [true, false, true, false];
    assert Xor(Zeros(12) + [true, false, true, false], START) == Zeros(12) + [true, true, true, true];
  }

  function Power2(n: nat): nat
    decreases n
  {
    if n == 0 then 1 else 2 * Power2(n - 1)
  }

  /** Out(n + 15m) = Out(n + m) xor Out(n), for every power of two m. */
  lemma {:induction false} Recurrence(i: nat, n: nat)
    ensures Out(n + 15 * Power2(i)) == (Out(n + Power2(i)) != Out(n))
    decreases i
  {
    var p := MODBUS_POLY;
    if i == 0 {
      ShiftsAdd(p, 15, n, START);
      ShiftsAdd(p, 1, n, START);
      FifteenTurns();
      ShiftsIsLinear(p, n, Shift(p, START), START);
    } else {
      var m := Power2(i - 1);
      Recurrence(i - 1, n);
      Recurrence(i - 1, n + m);
      Recurrence(i - 1, n + 15 * m);
      assert n + 15 * m + m == n + m + 15 * m;
    }
  }

  lemma Jumps(n: nat)
    ensures Out(n + 16) == (Out(n + 1) != Out(n + 2))
    ensures Out(n + 32) == (Out(n + 2) != Out(n + 4))
    ensures Out(n + 64) == (Out(n + 4) != Out(n + 8))
    ensures Out(n + 128) == (Out(n + 8) != Out(n + 16))
    ensures Out(n + 256) == (Out(n + 16) != Out(n + 32))
    ensures Out(n + 512) == (Out(n + 32) != Out(n + 64))
    ensures Out(n + 1024) == (Out(n + 64) != Out(n + 128))
    ensures Out(n + 2048) == (Out(n + 128) != Out(n + 256))
    ensures Out(n + 4096) == (Out(n + 256) != Out(n + 512))
    ensures Out(n + 32768) == (Out(n + 2048) != Out(n + 4096))
  {
    Recurrence(0, n + 1);
    Recurrence(1, n + 2);
    Recurrence(2, n + 4);
    Recurrence(3, n + 8);
    Recurrence(4, n + 16);
    Recurrence(5, n + 32);
    Recurrence(6, n + 64);
    Recurrence(7, n + 128);
    Recurrence(8, n + 256);
    Recurrence(11, n + 2048);
  }

  // ---------- periods ----------

  ghost predicate Period(g: nat) {
    forall n: nat :: n > 0 ==> Out(n + g) == Out(n)
  }

  lemma FullPeriod()
    ensures Period(32767)
  {
    forall n: nat | n > 0
      ensures Out(n + 32767) == Out(n)
    {
      Jumps(n - 1);
    }
  }

  lemma SingleRecurs(k: nat)
    requires Shifts(MODBUS_POLY, k, Single(16)) == Single(16)
    ensures Period(k)
  {
    var p, one := MODBUS_POLY, Single(16);
    StartRegister();
    ShiftsIsLinear(p, k, one, Shift(p, one));
    ShiftsAdd(p, 1, k, one);
    ShiftsAdd(p, k, 1, one);
    assert Shifts(p, k, START) == START;
    forall n: nat | n > 0
      ensures Out(n + k) == Out(n)
    {
      ShiftsAdd(p, k, n, START);
    }
  }

  /** Euclid's algorithm on two periods. */
  lemma {:induction false} CommonPeriod(a: nat, b: nat) returns (g: nat, qa: nat, qb: nat)
    requires 0 < a && 0 < b && Period(a) && Period(b)
    ensures 0 < g && Period(g) && a == g * qa && b == g * qb
    decreases a + b
  {
    if a == b {
      g, qa, qb := a, 1, 1;
    } else if a < b {
      PeriodDifference(a, b);
      g, qa, qb := CommonPeriod(a, b - a);
      assert g * (qa + qb) == g * qa + g * qb;
      qb := qa + qb;
    } else {
      PeriodDifference(b, a);
      g, qa, qb := CommonPeriod(a - b, b);
      assert g * (qa + qb) == g * qa + g * qb;
      qa := qa + qb;
    }
  }

  lemma PeriodDifference(a: nat, b: nat)
    requires a < b && Period(a) && Period(b)
    ensures Period(b - a)
  {
    forall n: nat | n > 0
      ensures Out(n + (b - a)) == Out(n)
    {
      var m := n + (b - a);
      assert Out(m + a) == Out(m);
      assert m + a == n + b;
    }
  }

  lemma {:induction false} PeriodMultiple(g: nat, q: nat)
    requires Period(g)
    ensures Period(g * q)
  {
    if q == 0 {
    } else {
      PeriodMultiple(g, q - 1);
      assert g * q == g * (q - 1) + g;
      forall n: nat | n > 0
        ensures Out(n + g * q) == Out(n)
      {
        var m := n + g * (q - 1);
        assert Out(m + g) == Out(m) == Out(n);
      }
    }
  }

  // ---------- no shorter period ----------

  lemma ShortJumps(n: nat)
    ensures Out(n + 16) == (Out(n + 1) != Out(n + 2))
    ensures Out(n + 32) == (Out(n + 2) != Out(n + 4))
    ensures Out(n + 64) == (Out(n + 4) != Out(n + 8))
    ensures Out(n + 128) == ((Out(n + 1) != Out(n + 2)) != Out(n + 8))
    ensures Out(n + 512) == (Out(n + 2) != Out(n + 8))
    ensures Out(n + 1024) == ((Out(n + 1) != Out(n + 2)) != Out(n + 4))
    ensures Out(n + 4096) == (((Out(n + 1) != Out(n + 2)) != Out(n + 4)) != Out(n + 8))
  {
    Jumps(n);
  }

  lemma Not1057()
    ensures !Period(1057)
  {
    FirstSixteen();
    ShortJumps(37);
    ShortJumps(6);
    ShortJumps(7);
    ShortJumps(9);
    assert Out(4 + 1057) && !Out(4);
  }

  lemma Not217()
    ensures !Period(217)
  {
    FirstSixteen();
    ShortJumps(90);
    ShortJumps(27);
    ShortJumps(28);
    ShortJumps(34);
    assert Out(218) == (((((Out(31) != Out(35)) != Out(32)) != Out(36)) != Out(38)) != Out(42));
    ShortJumps(15);
    ShortJumps(0);
    ShortJumps(1);
    ShortJumps(3);
    ShortJumps(4);
    ShortJumps(6);
    ShortJumps(10);
    assert Out(1 + 217) && !Out(1);
  }

  lemma Not4681()
    ensures !Period(4681)
  {
    ShortJumps(586);
    ShortJumps(75);
    ShortJumps(76);
    ShortJumps(78);
    ShortJumps(82);
    assert Out(4682) == (((((Out(77) != Out(83)) != Out(78)) != Out(80)) != Out(86)) != Out(90));
    Tail4681();
    FirstSixteen();
    assert Out(1 + 4681) && !Out(1);
  }

  lemma Tail4681()
    ensures ((((Out(77) != Out(83)) != Out(78)) != Out(80)) != Out(86)) != Out(90)
  {
    ShortJumps(13);
    ShortJumps(19);
    ShortJumps(14);
    ShortJumps(16);
    ShortJumps(22);
    ShortJumps(26);
    FirstSixteen();
    ShortJumps(1);
    ShortJumps(2);
    ShortJumps(4);
    ShortJumps(5);
    ShortJumps(6);
    ShortJumps(7);
    ShortJumps(8);
    ShortJumps(10);
    ShortJumps(11);
  }

  lemma FirstSixteen()
    ensures forall n: nat :: n <= 14 ==> (Out(n) <==> n >= 13)
  {
    forall n: nat | n <= 14
      ensures Out(n) <==> n >= 13
    {
      FirstOutputs(n);
    }
  }

  /** The Modbus register started with a single one does not come back to it within 32766 turns. */
  lemma SingleTakesAFullPeriod(k: nat)
    requires 0 < k < 32767
    ensures Shifts(MODBUS_POLY, k, Single(16)) != Single(16)
  {
    if Shifts(MODBUS_POLY, k, Single(16)) == Single(16) {
      SingleRecurs(k);
      FullPeriod();
      var g, qk, q := CommonPeriod(k, 32767);
      assert qk >= 1;
      ProductGrows(g, 1, g, qk);
      var m := ProperDivisor(g, q);
      PeriodMultiple(g, m);
      Not217();
      Not1057();
      Not4681();
    }
  }

  // ---------- the full period ----------

  /** As long as no one falls out, the register only moves down. */
  lemma {:induction false} MovesQuietly(p: seq<bool>, s: seq<bool>, n: nat)
    requires |s| == |p| && n <= |p|
    requires forall k :: 0 <= k < n ==> !Shifts(p, k, s)[0]
    ensures forall i :: 0 <= i < |p| - n ==> Shifts(p, n, s)[i] == s[i + n]
  {
    if n == 0 {
    } else {
      MovesQuietly(p, s, n - 1);
      ShiftsAdd(p, n - 1, 1, s);
    }
  }

  /** A register that gives out only zeros is empty. */
  lemma QuietIsZero(p: seq<bool>, s: seq<bool>)
    requires |s| == |p|
    requires forall k :: 0 <= k < |p| ==> !Shifts(p, k, s)[0]
    ensures s == Zeros(|p|)
  {
    forall n | 0 <= n < |p|
      ensures !s[n]
    {
      MovesQuietly(p, s, n);
      assert Shifts(p, n, s)[0] == s[0 + n];
    }
  }

  lemma SameWhenXorIsZero(x: seq<bool>, y: seq<bool>)
    requires |x| == |y| && Xor(x, y) == Zeros(|x|)
    ensures x == y
  {
    assert forall i :: 0 <= i < |x| ==> !Xor(x, y)[i];
  }

  lemma {:induction false} FixedStays(p: seq<bool>, s: seq<bool>, n: nat)
    requires |s| == |p| && Shift(p, s) == s
    ensures Shifts(p, n, s) == s
  {
    if n == 0 {
    } else {
      FixedStays(p, s, n - 1);
    }
  }

  /** The one register that a turn of the Modbus code leaves alone, besides the empty one. */
  const FIXED: seq<bool> := [true] + Zeros(13) + [true, true]

  lemma FixedRegister()
    ensures |FIXED| == 16 && Shift(MODBUS_POLY, FIXED) == FIXED && OddOnes(FIXED)
  {
    assert FIXED[1..] == Zeros(13) + [true, true];
    LeadingZeros(13, [true, true]);
    assert [true, true][1..] == [true];
    assert [true][1..] == [];
  }

  lemma FixedEvenIsZero(s: seq<bool>)
    requires |s| == 16 && Shift(MODBUS_POLY, s) == s && !OddOnes(s)
    ensures s == Zeros(16)
  {
    var p := MODBUS_POLY;
    FixedRegister();
    var d := if s[0] then Xor(s, FIXED) else s;
    ShiftIsLinear(p, s, FIXED);
    forall k | 0 <= k < 16
      ensures !Shifts(p, k, d)[0]
    {
      FixedStays(p, d, k);
    }
    QuietIsZero(p, d);
    if s[0] { SameWhenXorIsZero(s, FIXED); }
  }

  lemma {:induction false} ShiftsKeepParity(p: seq<bool>, n: nat, s: seq<bool>)
    requires |s| == |p| > 0 && OddOnes(p)
    ensures OddOnes(Shifts(p, n, s)) == OddOnes(s)
  {
    if n == 0 {
    } else {
      ShiftKeepsParity(p, s);
      ShiftsKeepParity(p, n - 1, Shift(p, s));
    }
  }

  lemma OutputsAgree(k: nat)
    requires Out(k + 1 + 32767) == Out(k + 1)
    ensures !Shifts(MODBUS_POLY, k, Shift(MODBUS_POLY, Xor(Shifts(MODBUS_POLY, 32767, START), START)))[0]
  {
    var p, r := MODBUS_POLY, Shifts(MODBUS_POLY, 32767, START);
    ShiftsAdd(p, 32767, k + 1, START);
    ShiftsIsLinear(p, k + 1, r, START);
  }

  lemma StartRecurs()
    ensures Shifts(MODBUS_POLY, 32767, START) == START
  {
    var p := MODBUS_POLY;
    ModbusPoly();
    FullPeriod();
    var r := Shifts(p, 32767, START);
    var d := Shift(p, Xor(r, START));
    forall k | 0 <= k < 16
      ensures !Shifts(p, k, d)[0]
    {
      assert Out(k + 1 + 32767) == Out(k + 1);
      OutputsAgree(k);
    }
    QuietIsZero(p, d);
    assert Shift(p, Zeros(16)) == Zeros(16);
    ShiftIsInjective(p, Xor(r, START), Zeros(16));
    SameWhenXorIsZero(r, START);
  }

  lemma SingleHasFullPeriod()
    ensures Shifts(MODBUS_POLY, 32767, Single(16)) == Single(16)
  {
    var p, one := MODBUS_POLY, Single(16);
    ModbusPoly();
    StartRegister();
    StartRecurs();
    var x := Shifts(p, 32767, one);
    ShiftsIsLinear(p, 32767, one, Shift(p, one));
    ShiftsAdd(p, 1, 32767, one);
    ShiftsAdd(p, 32767, 1, one);
    assert Xor(x, Shift(p, x)) == Xor(one, Shift(p, one));
    SameRemainder(x, one);
    ShiftsKeepParity(p, 32767, one);
    OddOnesXor(x, one);
    FixedEvenIsZero(Xor(x, one));
    SameWhenXorIsZero(x, one);
  }

  lemma SameRemainder(x: seq<bool>, y: seq<bool>)
    requires |x| == |y| == 16
    requires Xor(x, Shift(MODBUS_POLY, x)) == Xor(y, Shift(MODBUS_POLY, y))
    ensures Shift(MODBUS_POLY, Xor(x, y)) == Xor(x, y)
  {
    var u, v := Shift(MODBUS_POLY, x), Shift(MODBUS_POLY, y);
    ShiftIsLinear(MODBUS_POLY, x, y);
    forall i | 0 <= i < 16
      ensures Xor(u, v)[i] == Xor(x, y)[i]
    {
      assert Xor(x, u)[i] == Xor(y, v)[i];
    }
  }

  lemma {:induction false} SingleRecursAfter(q: nat)
    ensures Shifts(MODBUS_POLY, 32767 * q, Single(16)) == Single(16)
  {
    if q == 0 {
    } else {
      SingleRecursAfter(q - 1);
      SingleHasFullPeriod();
      ShiftsAdd(MODBUS_POLY, 32767 * (q - 1), 32767, Single(16));
    }
  }

  predicate Recurs(k: nat) {
    Shifts(MODBUS_POLY, k, Single(|MODBUS_POLY|)) == Single(|MODBUS_POLY|)
  }

  /** The single one recurs exactly after every 32767 turns. */
  lemma SingleRecursIff(k: nat)
    ensures Recurs(k) <==> k % 32767 == 0
  {
    var q, r := k / 32767, k % 32767;
    SingleRecursAfter(q);
    ShiftsAdd(MODBUS_POLY, 32767 * q, r, Single(16));
    if r > 0 { SingleTakesAFullPeriod(r); }
  }
}
