/** Machine words as natural numbers and as bit sequences, lowest bit first: the bridge
between the fixed-width arithmetic of the firmware and the bit-serial codes of `Lfsr`.

A C unsigned integer is a number below its power of two.  `x & 1` is `x % 2`, `x >> 1` is
`x / 2`, a cast to a narrower unsigned type is a remainder, and `^` is `BitXor`. */
module Words {
  import opened Lfsr

  type byte = x: int | 0 <= x < 0x100
  type u16 = x: int | 0 <= x < 0x1_0000
  type u32 = x: int | 0 <= x < 0x1_0000_0000

  type i16 = x: int | -0x8000 <= x < 0x8000

  predicate InI16(x: int) { -0x8000 <= x < 0x8000 }

  predicate InI32(x: int) { -0x8000_0000 <= x < 0x8000_0000 }

  /** C integer division by a positive number: it truncates toward zero. */
  function TruncDiv(n: int, d: int): int
    requires d > 0
  {
    if n >= 0 then n / d else -(-n / d)
  }

  lemma Scale(x: int, y: int, k: int)
    requires x <= y && k >= 0
    ensures x * k <= y * k
  {
  }

  lemma ProductGrows(a: nat, b: nat, x: nat, y: nat)
    requires a <= x && b <= y
    ensures a * b <= x * y
  {
    Scale(a, x, b);
    Scale(b, y, x);
  }

  /** The cast of an integer to uint16_t, and of a uint16_t to int16_t. */
  function ToU16(x: int): u16 { x % 0x1_0000 }

  function ToI16(x: u16): i16 {
    if x < 0x8000 then x else x - 0x1_0000
  }

  const HALF: int := 0x8000_0000

  /** A cast to uint32_t: what a 32-bit clock shows of the true time. */
  function Wrap(t: int): u32 { t % 0x1_0000_0000 }

  /** The cast of a 32-bit result to int32_t. */
  function ToI32(x: int): int {
    if Wrap(x) < HALF then Wrap(x) else Wrap(x) - 0x1_0000_0000
  }

  lemma WrapAdds(x: int, y: int)
    ensures Wrap(Wrap(x) + y) == Wrap(x + y)
  {
  }

  lemma WrapSubtracts(x: int, y: int)
    ensures Wrap(Wrap(x) - Wrap(y)) == Wrap(x - y)
  {
  }

  lemma SignIsTrue(d: int)
    requires -HALF <= d < HALF
    ensures ToI32(d) == d
  {
  }

  /** Less than 2^31 apart, two moments on the wrapping clock have their true difference. */
  lemma DifferenceIsTrue(t: int, s: int)
    requires s - HALF <= t < s + HALF
    ensures ToI32(Wrap(t) - Wrap(s)) == t - s
  {
    WrapSubtracts(t, s);
    SignIsTrue(t - s);
  }

  lemma CastsInvert(x: int, w: u16)
    ensures InI16(x) ==> ToI16(ToU16(x)) == x
    ensures InI16(ToI16(w)) && ToU16(ToI16(w)) == w
  {
  }

  function Low(w: u16): byte { w % 0x100 }

  function High(w: u16): byte { w / 0x100 }

  function Word(high: byte, low: byte): u16 { 0x100 * high + low }

  lemma WordParts(w: u16, high: byte, low: byte)
    ensures Word(High(w), Low(w)) == w
    ensures Word(high, low) == w <==> high == High(w) && low == Low(w)
  {
  }

  /** `^` */
  function BitXor(x: nat, y: nat): nat {
    if x == 0 && y == 0 then 0 else (x % 2 + y % 2) % 2 + 2 * BitXor(x / 2, y / 2)
  }

  /** The lowest n bits of a word. */
  function Bits(n: nat, x: nat): (r: seq<bool>)
    ensures |r| == n
  {
    if n == 0 then [] else [x % 2 == 1] + Bits(n - 1, x / 2)
  }

  /** x < 2^n */
  predicate Fits(n: nat, x: nat)
  {
    if n == 0 then x == 0 else Fits(n - 1, x / 2)
  }

  function ByteBits(b: byte): (r: seq<bool>)
    ensures |r| == 8
  {
    Bits(8, b)
  }

  /** A message as bits: bytes in order, each byte lowest bit first. */
  function MessageBits(data: seq<byte>): (r: seq<bool>)
    ensures |r| == 8 * |data|
  {
    if data == [] then [] else ByteBits(data[0]) + MessageBits(data[1..])
  }

  lemma FitsNibble(n: nat, x: nat)
    ensures Fits(n + 4, x) <==> Fits(n, x / 16)
  {
    assert x / 2 / 2 / 2 / 2 == x / 16;
    assert Fits(n + 4, x) == Fits(n + 3, x / 2) == Fits(n + 2, x / 2 / 2) == Fits(n + 1, x / 2 / 2 / 2);
  }

  lemma FitsWidths(x: nat)
    ensures Fits(8, x) <==> x < 0x100
    ensures Fits(16, x) <==> x < 0x1_0000
    ensures Fits(32, x) <==> x < 0x1_0000_0000
  {
    FitsByte(x);
    FitsByte(x / 0x100);
    FitsByte(x / 0x1_0000);
    FitsByte(x / 0x100_0000);
    assert x / 0x100 / 0x100 == x / 0x1_0000 && x / 0x1_0000 / 0x100 == x / 0x100_0000;
    FitsSplit(8, x);
    FitsSplit(8, x / 0x1_0000);
    FitsSplit(16, x / 0x100);
    FitsSplit(24, x);
  }

  lemma FitsByte(x: nat)
    ensures Fits(8, x) <==> x < 0x100
  {
    FitsNibble(4, x);
    FitsNibble(0, x / 16);
    assert x / 16 / 16 == x / 0x100;
  }

  lemma FitsSplit(n: nat, x: nat)
    ensures Fits(n + 8, x) <==> Fits(n, x / 0x100)
  {
    FitsNibble(n + 4, x);
    FitsNibble(n, x / 16);
    assert x / 16 / 16 == x / 0x100;
  }

  lemma {:induction false} BitsOfXor(n: nat, x: nat, y: nat)
    ensures Bits(n, BitXor(x, y)) == Xor(Bits(n, x), Bits(n, y))
  {
    if n == 0 {
    } else {
      BitsOfXor(n - 1, x / 2, y / 2);
      assert BitXor(x, y) / 2 == BitXor(x / 2, y / 2);
    }
  }

  lemma {:induction false} XorFits(n: nat, x: nat, y: nat)
    requires Fits(n, x) && Fits(n, y)
    ensures Fits(n, BitXor(x, y))
  {
    if n == 0 {
    } else {
      XorFits(n - 1, x / 2, y / 2);
      assert BitXor(x, y) / 2 == BitXor(x / 2, y / 2);
    }
  }

  lemma {:induction false} FitsMore(n: nat, x: nat)
    requires Fits(n, x)
    ensures Fits(n + 1, x)
  {
    if n == 0 {
    } else {
      FitsMore(n - 1, x / 2);
    }
  }

  lemma {:induction false} BitsOfHalf(n: nat, x: nat)
    requires n > 0 && Fits(n, x)
    ensures Bits(n, x / 2) == Bits(n, x)[1..] + [false]
  {
    if n == 1 {
    } else {
      BitsOfHalf(n - 1, x / 2);
    }
  }

  /** The shift-and-feed step of the firmware loops. */
  function TurnWord(poly: nat, x: nat): nat {
    if x % 2 == 1 then BitXor(x / 2, poly) else x / 2
  }

  /** It is one turn of the register. */
  lemma BitsOfTurn(n: nat, poly: nat, x: nat)
    requires n > 0 && Fits(n, x) && Fits(n, poly)
    ensures Fits(n, TurnWord(poly, x))
    ensures Bits(n, TurnWord(poly, x)) == Shift(Bits(n, poly), Bits(n, x))
  {
    FitsMore(n - 1, x / 2);
    XorFits(n, x / 2, poly);
    BitsOfHalf(n, x);
    BitsOfXor(n, x / 2, poly);
    var half := Bits(n, x / 2);
    assert forall i :: 0 <= i < n ==> half[i] == (i + 1 < n && Bits(n, x)[i + 1]);
  }

  lemma {:induction false} BitsAreInjective(n: nat, x: nat, y: nat)
    requires Fits(n, x) && Fits(n, y)
    requires Bits(n, x) == Bits(n, y)
    ensures x == y
  {
    if n == 0 {
    } else {
      assert Bits(n, x)[1..] == Bits(n - 1, x / 2) && Bits(n, y)[1..] == Bits(n - 1, y / 2);
      BitsAreInjective(n - 1, x / 2, y / 2);
      assert (x % 2 == 1) == Bits(n, x)[0] == Bits(n, y)[0] == (y % 2 == 1);
    }
  }

  /** The highest bit of a word that needs all n of them is set. */
  lemma {:induction false} TopBit(n: nat, x: nat)
    requires n > 0 && Fits(n, x) && !Fits(n - 1, x)
    ensures Bits(n, x)[n - 1]
  {
    if n == 1 {
    } else {
      TopBit(n - 1, x / 2);
    }
  }

  function AllOnes(n: nat): nat {
    if n == 0 then 0 else 2 * AllOnes(n - 1) + 1
  }

  lemma {:induction false} AllOnesBits(n: nat)
    ensures forall i :: 0 <= i < n ==> Bits(n, AllOnes(n))[i]
  {
    if n == 0 {
    } else {
      AllOnesBits(n - 1);
    }
  }

  /** `~x` turns every bit over. */
  lemma {:induction false} ComplementBits(n: nat, x: nat)
    requires Fits(n, x)
    ensures x <= AllOnes(n) && Fits(n, AllOnes(n) - x)
    ensures forall i :: 0 <= i < n ==> Bits(n, AllOnes(n) - x)[i] == !Bits(n, x)[i]
  {
    if n == 0 {
    } else {
      ComplementBits(n - 1, x / 2);
      var y := AllOnes(n) - x;
      assert y % 2 == 1 - x % 2 && y / 2 == AllOnes(n - 1) - x / 2;
    }
  }

  lemma ComplementTurnsOver(n: nat, x: nat, c: nat, ones: nat)
    requires Fits(n, x) && ones == AllOnes(n) && x + c == ones
    ensures Xor(Bits(n, x), Bits(n, c)) == Bits(n, ones)
  {
    var r, s, t := Bits(n, x), Bits(n, c), Bits(n, ones);
    assert forall i :: 0 <= i < n ==> s[i] == !r[i] by {
      ComplementBits(n, x);
      assert c == AllOnes(n) - x;
    }
    assert forall i :: 0 <= i < n ==> t[i] by { AllOnesBits(n); }
    Opposites(r, s, t);
  }

  lemma ComplementOf(n: nat, r: seq<bool>, c: nat, ones: nat)
    requires |r| == n && ones == AllOnes(n) && c == ones - Value(r)
    ensures Xor(r, Bits(n, c)) == Bits(n, ones)
  {
    ValueBits(n, r);
    ComplementTurnsOver(n, Value(r), c, ones);
  }

  lemma ValueBelow(n: nat, r: seq<bool>)
    requires |r| == n
    ensures Value(r) <= AllOnes(n)
  {
    ValueBits(n, r);
    ComplementBits(n, Value(r));
  }

  lemma Opposites(r: seq<bool>, c: seq<bool>, ones: seq<bool>)
    requires |r| == |c| == |ones|
    requires forall i :: 0 <= i < |r| ==> c[i] == !r[i] && ones[i]
    ensures Xor(r, c) == ones
  {
  }

  /** The word with the given bits. */
  function Value(s: seq<bool>): nat {
    if s == [] then 0 else (if s[0] then 1 else 0) + 2 * Value(s[1..])
  }

  lemma {:induction false} ValueBits(n: nat, s: seq<bool>)
    requires |s| == n
    ensures Fits(n, Value(s)) && Bits(n, Value(s)) == s
  {
    if n == 0 {
    } else {
      ValueBits(n - 1, s[1..]);
      assert Value(s) / 2 == Value(s[1..]);
      assert s == [s[0]] + s[1..];
    }
  }

  lemma NextBit(n: nat, x: nat, half: nat)
    requires half == x / 2
    ensures Bits(n + 1, x) == [x % 2 == 1] + Bits(n, half)
  {
  }

  lemma EvenRest(low: nat, r: nat)
    ensures (low + 2 * r) % 2 == low % 2 && (low + 2 * r) / 2 == low / 2 + r
  {
  }

  lemma BitBeforeSplit(m: nat, n: nat, low: nat, r: nat, rest: seq<bool>)
    requires Bits(m + n, low / 2 + r) == Bits(m, low / 2) + rest
    ensures Bits(m + n + 1, low + 2 * r) == Bits(m + 1, low) + rest
  {
    EvenRest(low, r);
    var bit, head, all := low % 2 == 1, Bits(m, low / 2), Bits(m + n, low / 2 + r);
    assert Bits(m + n + 1, low + 2 * r) == [bit] + all by { NextBit(m + n, low + 2 * r, low / 2 + r); }
    assert Bits(m + 1, low) == [bit] + head by { NextBit(m, low, low / 2); }
    assert [bit] + (head + rest) == [bit] + head + rest;
  }

  /** A word's bits split into the bits of its low part and of what lies m places higher. */
  lemma {:induction false} BitsSplit(m: nat, n: nat, low: nat, high: nat)
    requires Fits(m, low)
    ensures Bits(m + n, low + Raise(m, high)) == Bits(m, low) + Bits(n, high)
  {
    if m == 0 {
    } else {
      BitsSplit(m - 1, n, low / 2, high);
      BitBeforeSplit(m - 1, n, low, Raise(m - 1, high), Bits(n, high));
    }
  }

  lemma RaiseNibble(m: nat, high: nat)
    ensures Raise(m + 4, high) == 16 * Raise(m, high)
  {
    assert Raise(m + 4, high) == 2 * Raise(m + 3, high) == 4 * Raise(m + 2, high) == 8 * Raise(m + 1, high);
  }

  lemma RaiseByte(m: nat, high: nat)
    ensures Raise(m + 8, high) == 0x100 * Raise(m, high)
  {
    RaiseNibble(m + 4, high);
    RaiseNibble(m, high);
  }

  lemma {:induction false} FitsBelow(n: nat, x: nat)
    ensures Fits(n, x) <==> x < Raise(n, 1)
  {
    if n == 0 {
    } else {
      FitsBelow(n - 1, x / 2);
    }
  }

  /** high << m */
  function Raise(m: nat, high: nat): nat
    decreases m
  {
    if m == 0 then high else 2 * Raise(m - 1, high)
  }

  lemma LowByteFirst(n: nat, low: byte, high: nat)
    ensures Bits(8 + n, low + 0x100 * high) == ByteBits(low) + Bits(n, high)
  {
    FitsByte(low);
    BitsSplit(8, n, low, high);
    assert Raise(8, high) == 0x100 * high;
  }

  lemma LowWordFirst(n: nat, low: u16, high: nat)
    ensures Bits(16 + n, low + 0x1_0000 * high) == Bits(16, low) + Bits(n, high)
  {
    FitsWidths(low);
    BitsSplit(16, n, low, high);
    assert Raise(8, high) == 0x100 * high;
    assert Raise(16, high) == 0x1_0000 * high;
  }

  lemma {:induction false} BitsOfZero(n: nat)
    ensures Bits(n, 0) == Zeros(n)
  {
    if n == 0 {
    } else {
      BitsOfZero(n - 1);
    }
  }

  /** `crc ^= byte` combines the byte into the lowest eight register bits. */
  lemma ByteXor(n: nat, crc: nat, b: byte)
    requires n >= 8 && Fits(n, crc)
    ensures Fits(n, BitXor(crc, b))
    ensures Bits(n, BitXor(crc, b)) == Xor(Bits(n, crc), ByteBits(b) + Zeros(n - 8))
  {
    FitsByte(b);
    FitsWider(8, n, b);
    XorFits(n, crc, b);
    BitsOfXor(n, crc, b);
    LowByteFirst(n - 8, b, 0);
    BitsOfZero(n - 8);
  }

  lemma {:induction false} FitsWider(m: nat, n: nat, x: nat)
    requires m <= n && Fits(m, x)
    ensures Fits(n, x)
    decreases n - m
  {
    if m == n {
    } else {
      FitsMore(m, x);
      FitsWider(m + 1, n, x);
    }
  }

  lemma MessageBitsExtend(data: seq<byte>, i: nat)
    requires i < |data|
    ensures MessageBits(data[..i + 1]) == MessageBits(data[..i]) + ByteBits(data[i])
  {
    assert data[..i + 1] == data[..i] + [data[i]];
    MessageBitsAppend(data[..i], [data[i]]);
    assert MessageBits([data[i]]) == ByteBits(data[i]);
  }

  lemma {:induction false} MessageBitsAppend(a: seq<byte>, b: seq<byte>)
    ensures MessageBits(a + b) == MessageBits(a) + MessageBits(b)
  {
    if a == [] {
      assert a + b == b;
    } else {
      assert (a + b)[1..] == a[1..] + b;
      MessageBitsAppend(a[1..], b);
    }
  }

  lemma {:induction false} MessageBitsOfZeros(data: seq<byte>)
    requires forall i :: 0 <= i < |data| ==> data[i] == 0
    ensures MessageBits(data) == Zeros(8 * |data|)
  {
    if data == [] {
    } else {
      MessageBitsOfZeros(data[1..]);
      BitsOfZero(8);
      assert Zeros(8) + Zeros(8 * |data[1..]|) == Zeros(8 * |data|);
    }
  }

  lemma {:induction false} MessageBitsAreInjective(a: seq<byte>, b: seq<byte>)
    requires MessageBits(a) == MessageBits(b)
    ensures a == b
  {
    assert |a| == |b|;
    if a == [] {
    } else {
      var x, y := MessageBits(a), MessageBits(b);
      assert x[..8] == ByteBits(a[0]) && x[8..] == MessageBits(a[1..]);
      assert y[..8] == ByteBits(b[0]) && y[8..] == MessageBits(b[1..]);
      FitsByte(a[0]);
      FitsByte(b[0]);
      BitsAreInjective(8, a[0], b[0]);
      MessageBitsAreInjective(a[1..], b[1..]);
      assert a == [a[0]] + a[1..] && b == [b[0]] + b[1..];
    }
  }

  /** A word sent low byte first is its own bits. */
  lemma WordBits(w: u16)
    ensures MessageBits([Low(w), High(w)]) == Bits(16, w)
  {
    assert w == Low(w) + 0x100 * High(w);
    LowByteFirst(8, Low(w), High(w));
    assert [Low(w), High(w)][1..] == [High(w)];
    assert [High(w)][1..] == [];
  }
}
