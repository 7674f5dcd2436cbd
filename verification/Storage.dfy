/** The stored configuration: its 28-byte record, the CRC-32 that guards it, and two flash
slots (src/service/storage.c, src/platform/host/platform_host.c:66-119). */
module Storage {
  import opened Words
  import opened Lfsr
  import opened ControlModel
  import CrcLoop

  // ---------- the checksum ----------

  const CRC32_WORD: u32 := 0xEDB8_8320
  const CRC32_POLY: seq<bool> := Bits(32, CRC32_WORD)

  lemma Crc32Poly()
    ensures |CRC32_POLY| == 32 && IsCode(CRC32_POLY) && Fits(32, CRC32_WORD)
  {
    FitsWidths(CRC32_WORD);
    HighestBit();
    TopBit(32, CRC32_WORD);
  }

  lemma HighestBit()
    ensures !Fits(31, CRC32_WORD)
  {
    FitsBelow(31, CRC32_WORD);
    RaiseByte(23, 1);
    RaiseByte(15, 1);
    RaiseByte(7, 1);
    RaiseNibble(3, 1);
    assert Raise(3, 1) == 8;
  }

  const PRESET: u32 := 0xFFFF_FFFF

  function Register(data: seq<byte>): (r: seq<bool>)
    ensures |r| == 32
  {
    Feed(CRC32_POLY, Bits(32, PRESET), MessageBits(data))
  }

  /** The register, turned over. */
  function Crc32(data: seq<byte>): u32 {
    ValueBits(32, Register(data));
    FitsWidths(Value(Register(data)));
    0xFFFF_FFFF - Value(Register(data))
  }

  /** calc_crc32 */
  method CalcCrc32(data: seq<byte>) returns (crc: u32)
    ensures crc == Crc32(data)
  {
    Crc32Poly();
    FitsWidths(PRESET);
    var word := CrcLoop.Run(32, CRC32_WORD, PRESET, data);
    WordIsRegister(word, data);
    crc := 0xFFFF_FFFF - word;
  }

  lemma WordIsRegister(word: nat, data: seq<byte>)
    requires Fits(32, word) && Bits(32, word) == Register(data)
    ensures word <= 0xFFFF_FFFF && word == Value(Register(data))
  {
    ValueBits(32, Register(data));
    FitsWidths(word);
    BitsAreInjective(32, word, Value(Register(data)));
  }

  /** The checksum of nothing. */
  lemma CrcOfNothing()
    ensures Crc32([]) == 0
  {
    FitsWidths(0xFFFF_FFFF);
    WordIsRegister(0xFFFF_FFFF, []);
  }

  /** One more byte, on the register, which is the checksum turned over. */
  lemma CrcOfNextByte(data: seq<byte>, b: byte)
    ensures 0xFFFF_FFFF - Crc32(data + [b]) == CrcLoop.TurnWords(0xEDB8_8320, 8, BitXor(0xFFFF_FFFF - Crc32(data), b))
  {
    NextRegister(data, 0xFFFF_FFFF - Crc32(data), b);
  }

  lemma NextRegister(data: seq<byte>, word: nat, b: byte)
    requires word == Value(Register(data))
    ensures Value(Register(data + [b])) == CrcLoop.TurnWords(CRC32_WORD, 8, BitXor(word, b))
  {
    WordFits();
    ValueBits(32, Register(data));
    LoopIsRegister(data);
    LoopIsRegister(data + [b]);
    CrcLoop.NextByte(32, CRC32_WORD, PRESET, data, word, b);
    WordIsRegister(CrcLoop.TurnWords(CRC32_WORD, 8, BitXor(word, b)), data + [b]);
  }

  lemma WordFits()
    ensures Fits(32, CRC32_WORD)
  {
    Crc32Poly();
  }

  lemma LoopIsRegister(data: seq<byte>)
    ensures CrcLoop.Register(32, CRC32_WORD, PRESET, data) == Register(data)
  {
  }

  // ---------- the record ----------

  type Reserved = s: seq<byte> | |s| == 10 witness [0, 0, 0, 0, 0, 0, 0, 0, 0, 0]

  /** device_config_t */
  datatype DeviceConfig = DeviceConfig(
    magic: u32, version: u16, size: u16, marginOn: i16, marginOff: i16, period: u16, reserved: Reserved, crc: u32)

  const MAGIC: u32 := 0xCAFE_BABE
  const RECORD: nat := 28
  const NO_RESERVE: Reserved := [0, 0, 0, 0, 0, 0, 0, 0, 0, 0]

  function Le16(w: u16): (s: seq<byte>)
    ensures |s| == 2
  {
    [Low(w), High(w)]
  }

  function Le32(x: u32): (s: seq<byte>)
    ensures |s| == 4
  {
    Le16(x % 0x1_0000) + Le16(x / 0x1_0000)
  }

  function At16(s: seq<byte>, i: nat): u16
    requires i + 2 <= |s|
  {
    Word(s[i + 1], s[i])
  }

  function At32(s: seq<byte>, i: nat): u32
    requires i + 4 <= |s|
  {
    At16(s, i) + 0x1_0000 * At16(s, i + 2)
  }

  /** Everything before the checksum, as laid out in memory. */
  function Payload(c: DeviceConfig): (s: seq<byte>)
    ensures |s| == 24
  {
    Le32(c.magic) + Le16(c.version) + Le16(c.size) + Le16(ToU16(c.marginOn)) + Le16(ToU16(c.marginOff))
      + Le16(c.period) + c.reserved
  }

  function Encode(c: DeviceConfig): (s: seq<byte>)
    ensures |s| == RECORD
  {
    Payload(c) + Le32(c.crc)
  }

  function Decode(s: seq<byte>): DeviceConfig
    requires |s| == RECORD
  {
    DeviceConfig(
      At32(s, 0), At16(s, 4), At16(s, 6), ToI16(At16(s, 8)), ToI16(At16(s, 10)), At16(s, 12), s[14..24], At32(s, 24))
  }

  lemma Words16(w: u16, s: seq<byte>, i: nat)
    requires i + 2 <= |s|
    ensures s[i..i + 2] == Le16(w) <==> At16(s, i) == w
  {
    WordParts(w, s[i + 1], s[i]);
    assert s[i..i + 2] == [s[i], s[i + 1]];
  }

  lemma Words32(x: u32, s: seq<byte>, i: nat)
    requires i + 4 <= |s|
    ensures s[i..i + 4] == Le32(x) <==> At32(s, i) == x
  {
    Words16(x % 0x1_0000, s, i);
    Words16(x / 0x1_0000, s, i + 2);
    assert s[i..i + 4] == s[i..i + 2] + s[i + 2..i + 4];
    var y := Le32(x);
    assert y[..2] == Le16(x % 0x1_0000) && y[2..] == Le16(x / 0x1_0000);
    if s[i..i + 4] == y {
      assert s[i..i + 4][..2] == s[i..i + 2] && s[i..i + 4][2..] == s[i + 2..i + 4];
    }
  }

  lemma PayloadLayout(c: DeviceConfig)
    ensures var s := Encode(c);
      && s[0..4] == Le32(c.magic) && s[4..6] == Le16(c.version) && s[6..8] == Le16(c.size)
      && s[8..10] == Le16(ToU16(c.marginOn)) && s[10..12] == Le16(ToU16(c.marginOff))
      && s[12..14] == Le16(c.period) && s[14..24] == c.reserved && s[24..28] == Le32(c.crc)
      && s[..24] == Payload(c)
  {
  }

  /** The bytes of a number, lowest first. */
  predicate AreLowBytes(s: seq<byte>, x: nat) {
    if s == [] then x == 0 else s[0] as int == x % 0x100 && AreLowBytes(s[1..], x / 0x100)
  }

  /** The places and the byte order in numbers. */
  lemma RecordBytes(c: DeviceConfig)
    ensures var s := Encode(c);
      && AreLowBytes(s[0..4], c.magic) && AreLowBytes(s[4..6], c.version) && AreLowBytes(s[6..8], c.size)
      && AreLowBytes(s[8..10], c.marginOn % 0x1_0000) && AreLowBytes(s[10..12], c.marginOff % 0x1_0000)
      && AreLowBytes(s[12..14], c.period) && s[14..24] == c.reserved && AreLowBytes(s[24..28], c.crc)
  {
    PayloadLayout(c);
    LowBytes32(c.magic);
    LowBytes16(c.version);
    LowBytes16(c.size);
    LowBytes16(ToU16(c.marginOn));
    LowBytes16(ToU16(c.marginOff));
    LowBytes16(c.period);
    LowBytes32(c.crc);
  }

  lemma LowBytes16(w: u16)
    ensures AreLowBytes(Le16(w), w)
  {
    assert Le16(w)[1..] == [High(w)];
  }

  lemma LowBytes32(x: u32)
    ensures AreLowBytes(Le32(x), x)
  {
    var w, v := x % 0x1_0000, x / 0x1_0000;
    WordsOf(x, w, v);
    LowBytes16(v);
    LowBytesAhead(Low(w), x, [High(w)] + Le16(v));
    LowBytesAhead(High(w), x / 0x100, Le16(v));
    assert Le32(x) == [Low(w)] + ([High(w)] + Le16(v));
  }

  lemma WordsOf(x: nat, w: u16, v: nat)
    requires w == x % 0x1_0000 && v == x / 0x1_0000
    ensures Low(w) as int == x % 0x100 && High(w) as int == x / 0x100 % 0x100 && v == x / 0x100 / 0x100
  {
    assert x == w + 0x100 * (0x100 * v);
    assert w == Low(w) + 0x100 * High(w);
    assert x / 0x100 == High(w) + 0x100 * v;
  }

  lemma LowBytesAhead(b: byte, x: nat, rest: seq<byte>)
    ensures b as int == x % 0x100 && AreLowBytes(rest, x / 0x100) ==> AreLowBytes([b] + rest, x)
  {
    assert ([b] + rest)[1..] == rest;
  }

  /** The record in memory carries every field. */
  lemma DecodeEncode(c: DeviceConfig)
    ensures Decode(Encode(c)) == c
  {
    var s := Encode(c);
    PayloadLayout(c);
    Words32(c.magic, s, 0);
    Words16(c.version, s, 4);
    Words16(c.size, s, 6);
    Words16(ToU16(c.marginOn), s, 8);
    Words16(ToU16(c.marginOff), s, 10);
    Words16(c.period, s, 12);
    Words32(c.crc, s, 24);
    CastsInvert(c.marginOn, 0);
    CastsInvert(c.marginOff, 0);
  }

  /** And nothing else. */
  lemma EncodeDecode(s: seq<byte>)
    requires |s| == RECORD
    ensures Encode(Decode(s)) == s
  {
    var c := Decode(s);
    PayloadLayout(c);
    Words32(c.magic, s, 0);
    Words16(c.version, s, 4);
    Words16(c.size, s, 6);
    CastsInvert(0, At16(s, 8));
    CastsInvert(0, At16(s, 10));
    Words16(At16(s, 8), s, 8);
    Words16(At16(s, 10), s, 10);
    Words16(c.period, s, 12);
    Words32(c.crc, s, 24);
    CutRecord(s);
    CutRecord(Encode(c));
  }

  lemma CutRecord(s: seq<byte>)
    requires |s| == RECORD
    ensures s == s[0..4] + s[4..6] + s[6..8] + s[8..10] + s[10..12] + s[12..14] + s[14..24] + s[24..28]
  {
  }

  // ---------- validity ----------

  /** storage_validate */
  predicate Validates(c: DeviceConfig) {
    c.magic == MAGIC && c.size == RECORD && c.crc == Crc32(Payload(c))
  }

  method Validate(c: DeviceConfig) returns (ok: bool)
    ensures ok == Validates(c)
  {
    if c.magic != MAGIC {
      return false;
    }
    if c.size != RECORD {
      return false;
    }
    var expected := CalcCrc32(Payload(c));
    return c.crc == expected;
  }

  /** storage_finalize */
  function Finalized(c: DeviceConfig): DeviceConfig {
    var d := c.(magic := MAGIC, version := 1, size := 28);
    d.(crc := Crc32(Payload(d)))
  }

  method Finalize(c: DeviceConfig) returns (d: DeviceConfig)
    ensures d == Finalized(c)
  {
    d := c.(magic := MAGIC, version := 1, size := 28);
    var crc := CalcCrc32(Payload(d));
    d := d.(crc := crc);
  }

  /** storage_load_defaults */
  function Defaults(): DeviceConfig {
    Finalized(DeviceConfig(MAGIC, 1, 28, 500, 700, 1000, NO_RESERVE, 0))
  }

  /** Finalizing makes any record valid and keeps the settings. */
  lemma FinalizedValidates(c: DeviceConfig)
    ensures var d := Finalized(c);
      && Validates(d)
      && d.marginOn == c.marginOn && d.marginOff == c.marginOff && d.period == c.period && d.reserved == c.reserved
  {
    var d := Finalized(c);
    assert Payload(d) == Payload(d.(crc := c.crc));
  }

  /** What makes a record valid. */
  lemma ValidMeans(c: DeviceConfig)
    ensures Validates(c) <==> c.magic == 0xCAFE_BABE && c.size == 28 && c.crc == Crc32(Encode(c)[..24])
  {
    PayloadLayout(c);
  }

  /** The header that finalizing writes, and the settings of the default record. */
  lemma HeaderAndDefaults(c: DeviceConfig)
    ensures Finalized(c).magic == 0xCAFE_BABE && Finalized(c).version == 1 && Finalized(c).size == 28
    ensures Defaults().marginOn == 500 && Defaults().marginOff == 700 && Defaults().period == 1000
    ensures Validates(Defaults())
  {
    FinalizedValidates(DeviceConfig(MAGIC, 1, 28, 500, 700, 1000, NO_RESERVE, 0));
  }

  // ---------- damage ----------

  /** The register after a record whose checksum is right, whatever its contents. */
  function Residue(): seq<bool> {
    Shifts(CRC32_POLY, 32, Bits(32, PRESET))
  }

  lemma Le32Bits(x: u32)
    ensures MessageBits(Le32(x)) == Bits(32, x)
  {
    var lo, hi := x % 0x1_0000, x / 0x1_0000;
    LowWordFirst(16, lo, hi);
    MessageBitsAppend(Le16(lo), Le16(hi));
    WordBits(lo);
    WordBits(hi);
  }

  lemma PresetIsAllOnes()
    ensures forall i :: 0 <= i < 32 ==> Bits(32, PRESET)[i]
  {
    AllOnes32();
    AllOnesBits(32);
  }

  lemma AllOnes32()
    ensures AllOnes(32) == 0xFFFF_FFFF
  {
    assert AllOnes(8) == 0xFF;
    assert AllOnes(16) == 0xFFFF;
    assert AllOnes(24) == 0xFF_FFFF;
  }

  lemma Complement(r: seq<bool>)
    requires |r| == 32
    ensures Value(r) <= 0xFFFF_FFFF && Xor(r, Bits(32, 0xFFFF_FFFF - Value(r))) == Bits(32, PRESET)
  {
    AllOnes32();
    ValueBelow(32, r);
    ComplementOf(32, r, 0xFFFF_FFFF - Value(r), PRESET);
  }

  /** Feeding the complement of the register turns an all-ones register. */
  lemma ComplementLeavesResidue(r: seq<bool>, w: seq<bool>)
    requires |r| == |w| == 32
    ensures Xor(r, w) == Bits(32, PRESET) ==> Feed(CRC32_POLY, r, w) == Residue()
  {
    LoadAhead(CRC32_POLY, r, w);
    assert w + Zeros(0) == w;
  }

  lemma RegisterWithWord(payload: seq<byte>, x: u32)
    ensures Register(payload + Le32(x)) == Feed(CRC32_POLY, Register(payload), Bits(32, x))
  {
    Le32Bits(x);
    MessageBitsAppend(payload, Le32(x));
    FeedAppend(CRC32_POLY, Bits(32, PRESET), MessageBits(payload), Bits(32, x));
  }

  lemma CheckedRecordLeavesResidue(payload: seq<byte>)
    ensures Register(payload + Le32(Crc32(payload))) == Residue()
  {
    var r, crc := Register(payload), Crc32(payload);
    RegisterWithWord(payload, crc);
    Complement(r);
    ComplementLeavesResidue(r, Bits(32, crc));
  }

  lemma ValidRecordResidue(s: seq<byte>)
    requires |s| == RECORD
    ensures Validates(Decode(s)) ==> Register(s) == Residue()
  {
    EncodeDecode(s);
    CheckedRecordLeavesResidue(Payload(Decode(s)));
  }

  /** A valid record changed only inside a run of at most 32 consecutive bits, checksum
  included, is not valid. */
  lemma BurstIsDetected(s: seq<byte>, damaged: seq<byte>, start: nat, len: nat)
    requires |s| == |damaged| == RECORD && damaged != s
    requires len <= 32 && AgreeOutside(MessageBits(s), MessageBits(damaged), start, len)
    ensures Validates(Decode(s)) ==> !Validates(Decode(damaged))
  {
    if Validates(Decode(s)) && Validates(Decode(damaged)) {
      Crc32Poly();
      ValidRecordResidue(s);
      ValidRecordResidue(damaged);
      BurstChangesRegister(CRC32_POLY, Bits(32, PRESET), MessageBits(s), MessageBits(damaged), start, len);
      MessageBitsAreInjective(s, damaged);
    }
  }

  // ---------- loading and saving, as functions of the flash contents ----------

  const SLOTS: nat := 2

  predicate IsFlash(mem: seq<byte>) { |mem| == SLOTS * RECORD }

  function Slot(mem: seq<byte>, slot: nat): (s: seq<byte>)
    requires IsFlash(mem) && slot < SLOTS
    ensures |s| == RECORD
  {
    mem[slot * RECORD..slot * RECORD + RECORD]
  }

  predicate Erased(s: seq<byte>) { forall i :: 0 <= i < |s| ==> s[i] == 0xFF }

  /** A slot that holds a record which validates. */
  predicate Usable(s: seq<byte>)
    requires |s| == RECORD
  {
    !Erased(s) && Validates(Decode(s))
  }

  datatype Loaded = Loaded(err: Err, cfg: DeviceConfig)

  /** storage_load: the first usable slot, or the defaults. */
  function LoadFrom(mem: seq<byte>): Loaded
    requires IsFlash(mem)
  {
    if Usable(Slot(mem, 0)) then Loaded(ErrOk, Decode(Slot(mem, 0)))
    else if Usable(Slot(mem, 1)) then Loaded(ErrOk, Decode(Slot(mem, 1)))
    else Loaded(ErrNotReady, Defaults())
  }

  function Stored(mem: seq<byte>, c: DeviceConfig): (mem': seq<byte>)
    requires IsFlash(mem)
    ensures IsFlash(mem')
  {
    Encode(c) + mem[RECORD..]
  }

  /** Whatever the flash holds, what is loaded validates. */
  lemma LoadedValidates(mem: seq<byte>)
    requires IsFlash(mem)
    ensures Validates(LoadFrom(mem).cfg)
  {
    FinalizedValidates(DeviceConfig(MAGIC, 1, 28, 500, 700, 1000, NO_RESERVE, 0));
  }

  /** Loading succeeds exactly when one of the slots is usable; otherwise the defaults come with a
  not-ready error. */
  lemma LoadOutcome(mem: seq<byte>)
    requires IsFlash(mem)
    ensures var l := LoadFrom(mem);
      && (l.err == ErrOk <==> Usable(Slot(mem, 0)) || Usable(Slot(mem, 1)))
      && (l.err != ErrOk ==> l == Loaded(ErrNotReady, Defaults()))
  {
  }

  /** A valid record never looks like an erased slot. */
  lemma ValidIsNotErased(c: DeviceConfig)
    requires c.magic == MAGIC
    ensures !Erased(Encode(c))
  {
    PayloadLayout(c);
    assert Encode(c)[0..4][0] == Le32(MAGIC)[0] == 0xBE;
  }

  /** A saved record is loaded back unchanged, and the other slot is left alone. */
  lemma SavedIsLoaded(mem: seq<byte>, c: DeviceConfig)
    requires IsFlash(mem) && Validates(c)
    ensures LoadFrom(Stored(mem, c)) == Loaded(ErrOk, c)
    ensures Slot(Stored(mem, c), 1) == Slot(mem, 1)
  {
    SlotsAfterStore(mem, c);
    EncodedIsUsable(c);
  }

  lemma SlotsAfterStore(mem: seq<byte>, c: DeviceConfig)
    requires IsFlash(mem)
    ensures Slot(Stored(mem, c), 0) == Encode(c) && Slot(Stored(mem, c), 1) == Slot(mem, 1)
  {
  }

  lemma EncodedIsUsable(c: DeviceConfig)
    requires Validates(c)
    ensures Usable(Encode(c)) && Decode(Encode(c)) == c
  {
    ValidIsNotErased(c);
    DecodeEncode(c);
  }

  /** After a burst of up to 32 bits in the first slot, a usable second slot is loaded. */
  lemma DamagedSlotFallsBack(mem: seq<byte>, damaged: seq<byte>, start: nat, len: nat)
    requires IsFlash(mem) && IsFlash(damaged) && Slot(damaged, 1) == Slot(mem, 1)
    requires Slot(damaged, 0) != Slot(mem, 0) && len <= 32
    requires AgreeOutside(MessageBits(Slot(mem, 0)), MessageBits(Slot(damaged, 0)), start, len)
    ensures Usable(Slot(mem, 0)) && Usable(Slot(mem, 1)) ==>
      LoadFrom(damaged) == Loaded(ErrOk, Decode(Slot(mem, 1)))
  {
    BurstIsDetected(Slot(mem, 0), Slot(damaged, 0), start, len);
  }

  // ---------- the flash ----------

  class Flash {
    /** The mock flash; on a target without one (src/core/platform_stubs.c:57-74) reading
    finds nothing and writing fails. */
    const mem: array<byte>
    const present: bool
    var writes: nat

    ghost predicate Valid()
      reads this
    {
      mem.Length == SLOTS * RECORD
    }

    constructor (present: bool)
      ensures Valid() && fresh(mem) && this.present == present && writes == 0
      ensures forall i :: 0 <= i < mem.Length ==> mem[i] == 0xFF
    {
      mem := new byte[SLOTS * RECORD](_ => 0xFF);
      this.present := present;
      writes := 0;
    }

    /** platform_flash_read_config */
    method Read(slot: nat) returns (err: Err, bytes: seq<byte>)
      requires Valid() && slot < SLOTS
      ensures err == (if present && !Erased(Slot(mem[..], slot)) then ErrOk else ErrNotFound)
      ensures err == ErrOk ==> bytes == Slot(mem[..], slot)
    {
      bytes := [];
      if !present {
        return ErrNotFound, bytes;
      }
      var offset := slot * RECORD;
      ghost var contents := Slot(mem[..], slot);
      var empty, i := true, 0;
      while i < RECORD && empty
        invariant 0 <= i <= RECORD
        invariant empty ==> forall k :: 0 <= k < i ==> contents[k] == 0xFF
        invariant !empty ==> !Erased(contents)
      {
        assert mem[offset + i] == contents[i];
        if mem[offset + i] != 0xFF {
          empty := false;
        }
        i := i + 1;
      }
      if empty {
        return ErrNotFound, bytes;
      }
      return ErrOk, mem[offset..offset + RECORD];
    }

    /** platform_flash_write_config, slot 0 */
    method WriteFirst(c: DeviceConfig) returns (err: Err)
      requires Valid()
      modifies this`writes, mem
      ensures err == if present then ErrOk else ErrStorage
      ensures mem[..] == if present then Stored(old(mem[..]), c) else old(mem[..])
      ensures writes == old(writes) + if present then 1 else 0
    {
      if !present {
        return ErrStorage;
      }
      var bytes := Encode(c);
      for i := 0 to RECORD
        invariant mem[..i] == bytes[..i] && mem[i..] == old(mem[..])[i..]
        invariant writes == old(writes)
      {
        ghost var rest := mem[i..];
        mem[i] := bytes[i];
        assert mem[i + 1..] == rest[1..];
        assert mem[..i + 1] == mem[..i] + [bytes[i]] && bytes[..i + 1] == bytes[..i] + [bytes[i]];
      }
      assert bytes[..RECORD] == bytes && mem[..] == mem[..RECORD] + mem[RECORD..];
      writes := writes + 1;
      return ErrOk;
    }

    method TrySlot(slot: nat) returns (ok: bool, c: DeviceConfig)
      requires Valid() && slot < SLOTS
      ensures ok <==> present && Usable(Slot(mem[..], slot))
      ensures ok ==> c == Decode(Slot(mem[..], slot))
    {
      c := DeviceConfig(0, 0, 0, 0, 0, 0, NO_RESERVE, 0);
      var err, bytes := Read(slot);
      if err != ErrOk {
        return false, c;
      }
      c := Decode(bytes);
      ok := Validate(c);
    }

    /** storage_load */
    method Load() returns (r: Loaded)
      requires Valid()
      ensures r == if present then LoadFrom(mem[..]) else Loaded(ErrNotReady, Defaults())
    {
      var ok, c := TrySlot(0);
      if ok {
        return Loaded(ErrOk, c);
      }
      ok, c := TrySlot(1);
      if ok {
        return Loaded(ErrOk, c);
      }
      c := Finalize(DeviceConfig(MAGIC, 1, 28, 500, 700, 1000, NO_RESERVE, 0));
      return Loaded(ErrNotReady, c);
    }

    /** storage_save */
    method Save(c: DeviceConfig) returns (err: Err)
      requires Valid()
      modifies this`writes, mem
      ensures err == if !Validates(c) then ErrInvalidArg else if present then ErrOk else ErrStorage
      ensures mem[..] == if err == ErrOk then Stored(old(mem[..]), c) else old(mem[..])
    {
      var ok := Validate(c);
      if !ok {
        return ErrInvalidArg;
      }
      err := WriteFirst(c);
    }
  }
}
