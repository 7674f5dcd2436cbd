/** The checksum loop shared by both checksums: byte after byte is XORed into the low end of
the register, and the register is turned eight times (src/service/modbus.c:18-29,
src/service/storage.c:12-21).  It is proved once, for every width of at least a byte and every
polynomial, to compute the bit-serial register. */
module CrcLoop {
  import opened Lfsr
  import opened Words

  /** The register after a message, by the bit-serial definition. */
  function Register(n: nat, poly: nat, preset: nat, data: seq<byte>): (r: seq<bool>)
    requires n > 0
    ensures |r| == n
  {
    Feed(Bits(n, poly), Bits(n, preset), MessageBits(data))
  }

  method Run(n: nat, poly: nat, preset: nat, data: seq<byte>) returns (crc: nat)
    requires n >= 8 && Fits(n, poly) && Fits(n, preset)
    ensures Fits(n, crc) && Bits(n, crc) == Register(n, poly, preset, data)
  {
    crc := preset;
    assert MessageBits(data[..0]) == [];
    for i := 0 to |data|
      invariant Fits(n, crc)
      invariant Bits(n, crc) == Register(n, poly, preset, data[..i])
    {
      crc := TakeByte(n, poly, crc, data[i]);
      MessageBitsExtend(data, i);
      FeedAppend(Bits(n, poly), Bits(n, preset), MessageBits(data[..i]), ByteBits(data[i]));
    }
    assert data[..|data|] == data;
  }

  /** A number of turns, on words. */
  function TurnWords(poly: nat, k: nat, x: nat): nat {
    if k == 0 then x else TurnWord(poly, TurnWords(poly, k - 1, x))
  }

  lemma {:induction false} TurnsOfWord(n: nat, poly: nat, k: nat, x: nat)
    requires n > 0 && Fits(n, poly) && Fits(n, x)
    ensures Fits(n, TurnWords(poly, k, x))
    ensures Bits(n, TurnWords(poly, k, x)) == Shifts(Bits(n, poly), k, Bits(n, x))
  {
    if k == 0 {
    } else {
      TurnsOfWord(n, poly, k - 1, x);
      BitsOfTurn(n, poly, TurnWords(poly, k - 1, x));
      ShiftsAdd(Bits(n, poly), k - 1, 1, Bits(n, x));
    }
  }

  /** One more byte is XORed in, and the word turned eight times. */
  lemma NextByte(n: nat, poly: nat, preset: nat, data: seq<byte>, x: nat, b: byte)
    requires n >= 8 && Fits(n, poly) && Fits(n, x) && Bits(n, x) == Register(n, poly, preset, data)
    ensures var y := TurnWords(poly, 8, BitXor(x, b));
      Fits(n, y) && Bits(n, y) == Register(n, poly, preset, data + [b])
  {
    ByteXor(n, x, b);
    TurnsOfWord(n, poly, 8, BitXor(x, b));
    LoadAhead(Bits(n, poly), Bits(n, x), ByteBits(b));
    MessageBitsExtend(data + [b], |data|);
    assert (data + [b])[..|data|] == data && (data + [b])[..|data| + 1] == data + [b];
    FeedAppend(Bits(n, poly), Bits(n, preset), MessageBits(data), ByteBits(b));
  }

  method TakeByte(n: nat, poly: nat, before: nat, b: byte) returns (crc: nat)
    requires n >= 8 && Fits(n, poly) && Fits(n, before)
    ensures Fits(n, crc) && Bits(n, crc) == Feed(Bits(n, poly), Bits(n, before), ByteBits(b))
  {
    ByteXor(n, before, b);
    crc := BitXor(before, b);
    ghost var p, loaded := Bits(n, poly), Bits(n, crc);
    for bit := 0 to 8
      invariant Fits(n, crc)
      invariant Bits(n, crc) == Shifts(p, bit, loaded)
    {
      crc := Turn(n, poly, crc);
      ShiftsAdd(p, bit, 1, loaded);
    }
    LoadAhead(p, Bits(n, before), ByteBits(b));
  }

  method Turn(n: nat, poly: nat, crc: nat) returns (next: nat)
    requires n > 0 && Fits(n, crc) && Fits(n, poly)
    ensures Fits(n, next) && Bits(n, next) == Shift(Bits(n, poly), Bits(n, crc))
  {
    BitsOfTurn(n, poly, crc);
    if crc % 2 != 0 {
      next := BitXor(crc / 2, poly);
    } else {
      next := crc / 2;
    }
  }
}
