/** Modbus RTU frames: the CRC-16 loop, frame validity, request parsing, reply building
(src/service/modbus.c; MODBUS over Serial Line V1.02, sections 2.5.1 and 6.2.2). */
module Modbus {
  import opened Lfsr
  import opened Words
  import opened ModbusPeriod
  import opened DoubleErrors
  import CrcLoop

  // ---------- the checksum ----------

  /** Every register bit is set before the first byte. */
  const PRESET: u16 := 0xFFFF

  /** The register after a message, by the bit-serial definition. */
  function Register(data: seq<byte>): (r: seq<bool>)
    ensures |r| == 16
  {
    Feed(MODBUS_POLY, Bits(16, PRESET), MessageBits(data))
  }

  function Crc16(data: seq<byte>): u16 {
    ValueBits(16, Register(data));
    FitsWidths(Value(Register(data)));
    Value(Register(data))
  }

  lemma Crc16Bits(data: seq<byte>)
    ensures Bits(16, Crc16(data)) == Register(data)
  {
    ValueBits(16, Register(data));
  }

  /** The byte loop of the firmware computes the bit-serial register. */
  method ModbusCrc16(data: seq<byte>) returns (crc: u16)
    ensures crc == Crc16(data)
  {
    PolyFits();
    var word := CrcLoop.Run(16, 0xA001, PRESET, data);
    LoopIsRegister(data);
    WordIsCrc16(word, data);
    crc := word;
  }

  lemma PolyFits()
    ensures Fits(16, 0xA001) && Fits(16, PRESET)
  {
    FitsWidths(PRESET);
    FitsWidths(0xA001);
  }

  lemma LoopIsRegister(data: seq<byte>)
    ensures CrcLoop.Register(16, 0xA001, PRESET, data) == Register(data)
  {
    ModbusPolyIsA001();
  }

  lemma WordIsCrc16(word: nat, data: seq<byte>)
    requires Fits(16, word) && Bits(16, word) == Register(data)
    ensures word == Crc16(data)
  {
    Crc16Bits(data);
    FitsWidths(Crc16(data));
    BitsAreInjective(16, word, Crc16(data));
  }

  // ---------- the checksum, byte by byte ----------

  /** The start value. */
  lemma CrcOfNothing()
    ensures Crc16([]) == 0xFFFF
  {
    Crc16Bits([]);
    SameWord(Crc16([]), 0xFFFF);
  }

  /** One more byte: XOR it in, then shift right eight times, with the polynomial XORed in whenever
  a one falls out. */
  lemma CrcOfNextByte(data: seq<byte>, b: byte)
    ensures Crc16(data + [b]) == CrcLoop.TurnWords(0xA001, 8, BitXor(Crc16(data), b))
  {
    PolyFits();
    FitsWidths(Crc16(data));
    Crc16Bits(data);
    LoopIsRegister(data);
    CrcLoop.NextByte(16, 0xA001, PRESET, data, Crc16(data), b);
    LoopIsRegister(data + [b]);
    WordIsCrc16(CrcLoop.TurnWords(0xA001, 8, BitXor(Crc16(data), b)), data + [b]);
  }

  /** The start value is not zero, so that a line held at zero never shows a valid frame. */
  lemma ZerosAreNoFrame(frame: seq<byte>)
    requires forall i :: 0 <= i < |frame| ==> frame[i] == 0
    ensures !FrameValid(frame)
  {
    if FrameValid(frame) {
      ValidIffResidueZero(frame);
      RegisterOfZeros(frame);
    }
  }

  lemma RegisterOfZeros(data: seq<byte>)
    requires forall i :: 0 <= i < |data| ==> data[i] == 0
    ensures Register(data) != Zeros(16)
  {
    ModbusPoly();
    MessageBitsOfZeros(data);
    FeedZeros(MODBUS_POLY, Bits(16, PRESET), 8 * |data|);
    ShiftsOfZero(MODBUS_POLY, 8 * |data|);
    if Register(data) == Zeros(16) {
      ShiftsIsInjective(MODBUS_POLY, 8 * |data|, Bits(16, PRESET), Zeros(16));
      BitsOfZero(16);
      SameWord(PRESET, 0);
    }
  }

  // ---------- validity ----------

  /** The last two bytes are the checksum of the others, low byte first. */
  predicate FrameValid(frame: seq<byte>) {
    && |frame| >= 3
    && Crc16(frame[..|frame| - 2]) == Word(frame[|frame| - 1], frame[|frame| - 2])
  }

  method FrameHasValidCrc(frame: seq<byte>) returns (valid: bool)
    ensures valid == FrameValid(frame)
  {
    if |frame| < 3 {
      return false;
    }
    var calculated := ModbusCrc16(frame[..|frame| - 2]);
    var received: u16 := Word(frame[|frame| - 1], frame[|frame| - 2]);
    return calculated == received;
  }

  function WithCrc(data: seq<byte>): (frame: seq<byte>)
    ensures |frame| == |data| + 2
  {
    data + [Low(Crc16(data)), High(Crc16(data))]
  }

  /** A frame is valid exactly when the checksum over the whole frame is zero. */
  lemma ValidIffResidueZero(frame: seq<byte>)
    requires |frame| >= 3
    ensures FrameValid(frame) <==> Crc16(frame) == 0
    ensures FrameValid(frame) <==> Register(frame) == Zeros(16)
  {
    var n := |frame| - 2;
    var data, w: u16 := frame[..n], Word(frame[n + 1], frame[n]);
    assert frame == data + [Low(w), High(w)];
    WordClearsRegister(data, w);
    Crc16Bits(frame);
    BitsOfZero(16);
    SameWord(Crc16(frame), 0);
  }

  /** Exactly the checksum, appended low byte first, empties the register. */
  lemma WordClearsRegister(data: seq<byte>, w: u16)
    ensures Register(data + [Low(w), High(w)]) == Zeros(16) <==> w == Crc16(data)
  {
    ModbusPoly();
    RegisterWithWord(data, w);
    OwnRegisterClears(MODBUS_POLY, Register(data), Bits(16, w));
    Crc16Bits(data);
    SameWord(w, Crc16(data));
  }

  lemma RegisterWithWord(data: seq<byte>, w: u16)
    ensures Register(data + [Low(w), High(w)]) == Feed(MODBUS_POLY, Register(data), Bits(16, w))
  {
    ModbusPoly();
    WordBits(w);
    MessageBitsAppend(data, [Low(w), High(w)]);
    FeedAppend(MODBUS_POLY, Bits(16, PRESET), MessageBits(data), Bits(16, w));
  }

  lemma SameWord(x: u16, y: u16)
    ensures Bits(16, x) == Bits(16, y) <==> x == y
  {
    FitsWidths(x);
    FitsWidths(y);
    if Bits(16, x) == Bits(16, y) { BitsAreInjective(16, x, y); }
  }

  // ---------- error detection ----------

  /** A burst of changes within 16 consecutive bits, in transmission order and the checksum
  included, turns a valid frame into an invalid one. */
  lemma BurstIsDetected(sent: seq<byte>, received: seq<byte>, start: nat, len: nat)
    requires FrameValid(sent) && |received| == |sent| && received != sent
    requires len <= 16 && AgreeOutside(MessageBits(sent), MessageBits(received), start, len)
    ensures !FrameValid(received)
  {
    if FrameValid(received) {
      ModbusPoly();
      ValidIffResidueZero(sent);
      ValidIffResidueZero(received);
      BurstChangesRegister(MODBUS_POLY, Bits(16, PRESET), MessageBits(sent), MessageBits(received), start, len);
      MessageBitsAreInjective(sent, received);
    }
  }

  /** So does any odd number of changed bits, wherever they are. */
  lemma OddErrorIsDetected(sent: seq<byte>, received: seq<byte>)
    requires FrameValid(sent) && |received| == |sent|
    requires CountDiff(MessageBits(sent), MessageBits(received)) % 2 == 1
    ensures !FrameValid(received)
  {
    if FrameValid(received) {
      ModbusPoly();
      ValidIffResidueZero(sent);
      ValidIffResidueZero(received);
      OddErrorsChangeRegister(MODBUS_POLY, Bits(16, PRESET), MessageBits(sent), MessageBits(received));
    }
  }

  /** One, two or three changed bits are always noticed in frames of up to 4095 bytes, so
  valid frames of equal length differ in at least four bits. */
  lemma UpToThreeErrorsAreDetected(sent: seq<byte>, received: seq<byte>)
    requires FrameValid(sent) && |received| == |sent| <= 4095
    requires 1 <= CountDiff(MessageBits(sent), MessageBits(received)) <= 3
    ensures !FrameValid(received)
  {
    var changed := CountDiff(MessageBits(sent), MessageBits(received));
    if changed == 2 {
      DoubleErrorIsDetected(sent, received);
    } else {
      assert changed == 1 || changed == 3;
      OddErrorIsDetected(sent, received);
    }
  }

  lemma DoubleErrorIsDetected(sent: seq<byte>, received: seq<byte>)
    requires FrameValid(sent) && |received| == |sent| <= 4095
    requires CountDiff(MessageBits(sent), MessageBits(received)) == 2
    ensures !FrameValid(received)
  {
    var i, j := TwoPlaces(MessageBits(sent), MessageBits(received));
    NoFullPeriod(j - i);
    DoubleErrorPassesIff(sent, received, i, j);
  }

  lemma NoFullPeriod(d: nat)
    requires 0 < d < 32767
    ensures d % 32767 != 0
  {
  }

  /** In frames of any length, two changed bits go unnoticed exactly when their distance is a
  multiple of 32767: the bound of 4095 bytes above is the best possible. */
  lemma DoubleErrorPassesIff(sent: seq<byte>, received: seq<byte>, i: nat, j: nat)
    requires FrameValid(sent) && |received| == |sent|
    requires i < j < 8 * |sent| && DifferExactlyAt(MessageBits(sent), MessageBits(received), i, j)
    ensures FrameValid(received) <==> (j - i) % 32767 == 0
  {
    ValidIffResidueZero(sent);
    ValidIffResidueZero(received);
    PairCancelsIff(Bits(16, PRESET), MessageBits(sent), MessageBits(received), i, j);
  }

  lemma {:induction false} TwoPlaces(a: seq<bool>, b: seq<bool>) returns (i: nat, j: nat)
    requires |a| == |b| && CountDiff(a, b) == 2
    ensures i < j < |a| && DifferExactlyAt(a, b, i, j)
    decreases |a|
  {
    if a[0] == b[0] {
      i, j := TwoPlaces(a[1..], b[1..]);
      i, j := i + 1, j + 1;
    } else {
      i := 0;
      j := OnePlace(a[1..], b[1..]);
      j := j + 1;
    }
    assert forall k :: 0 < k < |a| ==> a[k] == a[1..][k - 1] && b[k] == b[1..][k - 1];
  }

  lemma {:induction false} OnePlace(a: seq<bool>, b: seq<bool>) returns (j: nat)
    requires |a| == |b| && CountDiff(a, b) == 1
    ensures j < |a| && forall k :: 0 <= k < |a| ==> (a[k] != b[k] <==> k == j)
    decreases |a|
  {
    if a[0] == b[0] {
      j := OnePlace(a[1..], b[1..]);
      j := j + 1;
    } else {
      j := 0;
      NoPlace(a[1..], b[1..]);
    }
    assert forall k :: 0 < k < |a| ==> a[k] == a[1..][k - 1] && b[k] == b[1..][k - 1];
  }

  lemma {:induction false} NoPlace(a: seq<bool>, b: seq<bool>)
    requires |a| == |b| && CountDiff(a, b) == 0
    ensures a == b
    decreases |a|
  {
    if a == [] {
    } else {
      NoPlace(a[1..], b[1..]);
    }
  }

  // ---------- requests ----------

  datatype Request = Request(slave: byte, func: byte, data: seq<byte>)

  datatype ParseErr = Ok | ShortFrame | BadCrc | BadAddr | UnsupportedFunc | BadLength

  datatype Option<T> = None | Some(value: T)

  /** The verdict and, when the request structure is filled in, what it holds. */
  datatype Parsed = Parsed(err: ParseErr, out: Option<Request>)

  function Parse(frame: seq<byte>, own: byte): Parsed {
    if |frame| < 5 then Parsed(ShortFrame, None)
    else if !FrameValid(frame) then Parsed(BadCrc, None)
    else if frame[0] != own && frame[0] != 0 then Parsed(BadAddr, None)
    else
      var req := Request(frame[0], frame[1], frame[2..|frame| - 2]);
      if frame[1] != 3 && frame[1] != 6 then Parsed(UnsupportedFunc, Some(req))
      else if |req.data| != 4 then Parsed(BadLength, Some(req))
      else Parsed(Ok, Some(req))
  }

  /** The caller's structure afterwards. */
  function Filled(p: Parsed, previous: Request): Request {
    match p.out
    case Some(r) => r
    case None => previous
  }

  /** `request` is the caller's structure; it is left alone unless the address matches. */
  method ParseRequest(frame: seq<byte>, own: byte, previous: Request) returns (err: ParseErr, request: Request)
    ensures err == Parse(frame, own).err
    ensures request == Filled(Parse(frame, own), previous)
  {
    request := previous;
    if |frame| < 5 {
      return ShortFrame, request;
    }
    var valid := FrameHasValidCrc(frame);
    if !valid {
      return BadCrc, request;
    }
    var slave, func := frame[0], frame[1];
    if slave != own && slave != 0 {
      return BadAddr, request;
    }
    var payloadLen := |frame| - 4;
    request := Request(slave, func, frame[2..2 + payloadLen]);
    if func == 3 || func == 6 {
      if payloadLen != 4 {
        return BadLength, request;
      }
      return Ok, request;
    }
    return UnsupportedFunc, request;
  }

  /** The verdict on a frame that is not accepted: too short; not built from its own fields; for
  another device; another function; or a payload of another length. */
  lemma VerdictMeans(frame: seq<byte>, own: byte)
    ensures var err := Parse(frame, own).err;
      && (err == ShortFrame <==> |frame| < 5)
      && (err == BadCrc <==> |frame| >= 5 && frame != Frame(frame[0], frame[1], frame[2..|frame| - 2]))
      && (err == BadAddr ==> frame[0] != own && frame[0] != 0)
      && (err == UnsupportedFunc ==> frame[0] in {own, 0} && frame[1] != 3 && frame[1] != 6)
      && (err == BadLength ==> frame[0] in {own, 0} && frame[1] in {3, 6} && |frame| != 8)
      && (err == Ok ==> frame[0] in {own, 0} && frame[1] in {3, 6} && |frame| == 8)
  {
    if |frame| >= 5 { ValidFrameWasBuilt(frame); }
  }

  // ---------- replies ----------

  /** The frame that carries a function code and payload to or from a device. */
  function Frame(addr: byte, func: byte, payload: seq<byte>): (frame: seq<byte>)
    ensures |frame| == |payload| + 4
  {
    WithCrc([addr, func] + payload)
  }

  /** `original_func | 0x80` */
  function ExceptionCode(func: byte): byte {
    if func < 0x80 then func + 0x80 else func
  }

  /** The function code with its high bit set. */
  lemma HighBitSet(func: byte)
    ensures ExceptionCode(func) == func % 0x80 + 0x80
  {
  }

  lemma FramesAreValid(data: seq<byte>)
    requires |data| >= 1
    ensures FrameValid(WithCrc(data))
  {
    var f := WithCrc(data);
    assert f[..|f| - 2] == data;
  }

  /** What is built is parsed back: the same address, function and payload. */
  lemma ParseOfFrame(addr: byte, func: byte, payload: seq<byte>, own: byte)
    requires |payload| >= 1
    ensures var p := Parse(Frame(addr, func, payload), own);
      if addr != own && addr != 0 then
        p == Parsed(BadAddr, None)
      else
        && p.out == Some(Request(addr, func, payload))
        && (p.err == Ok <==> func in {3, 6} && |payload| == 4)
        && (p.err == BadLength <==> func in {3, 6} && |payload| != 4)
        && (p.err == UnsupportedFunc <==> func !in {3, 6})
  {
    FramesAreValid([addr, func] + payload);
    var f := Frame(addr, func, payload);
    assert f[2..|f| - 2] == payload;
  }

  lemma ValidFrameWasBuilt(frame: seq<byte>)
    requires |frame| >= 4
    ensures FrameValid(frame) <==> frame == Frame(frame[0], frame[1], frame[2..|frame| - 2])
  {
    var n := |frame| - 2;
    CutFrame(frame);
    CheckBytes([frame[0], frame[1]] + frame[2..n], frame[n], frame[n + 1]);
  }

  lemma CutFrame(frame: seq<byte>)
    requires |frame| >= 4
    ensures var n := |frame| - 2;
      frame == [frame[0], frame[1]] + frame[2..n] + [frame[n], frame[n + 1]]
  {
  }

  lemma CheckBytes(data: seq<byte>, x: byte, y: byte)
    requires |data| > 0
    ensures FrameValid(data + [x, y]) <==> data + [x, y] == WithCrc(data)
  {
    var f := data + [x, y];
    assert f[..|f| - 2] == data;
    WordParts(Crc16(data), y, x);
    assert f == WithCrc(data) ==> f[|data|] == Low(Crc16(data)) && f[|data| + 1] == High(Crc16(data));
  }

  /** Nothing else is accepted: the request structure is filled in exactly for frames built
  from their own fields and addressed to this device or to all. */
  lemma ParsedFrameWasBuilt(frame: seq<byte>, own: byte)
    ensures Parse(frame, own).out.Some? <==>
      |frame| >= 5 && frame[0] in {own, 0} && frame == Frame(frame[0], frame[1], frame[2..|frame| - 2])
    ensures var p := Parse(frame, own); p.out.Some? ==>
      frame == Frame(p.out.value.slave, p.out.value.func, p.out.value.data)
  {
    if |frame| >= 5 { ValidFrameWasBuilt(frame); }
  }

  /** A reply frame is written to the front of `out`; a buffer too small for the payload
  still receives the two header bytes. */
  method BuildResponse(addr: byte, func: byte, payload: seq<byte>, out: array<byte>) returns (len: nat)
    modifies out
    ensures len == (if out.Length >= 5 && |payload| + 4 <= out.Length then |payload| + 4 else 0)
    ensures len > 0 ==> out[..len] == Frame(addr, func, payload) && out[len..] == old(out[len..])
    ensures len == 0 && out.Length >= 5 ==> out[..2] == [addr, func] && out[2..] == old(out[2..])
    ensures out.Length < 5 ==> out[..] == old(out[..])
  {
    if out.Length < 5 {
      return 0;
    }
    out[0] := addr;
    out[1] := func;
    if 2 + |payload| + 2 > out.Length {
      return 0;
    }
    for i := 0 to |payload|
      invariant out[..2 + i] == [addr, func] + payload[..i]
      invariant out[2 + i..] == old(out[..])[2 + i..]
    {
      ghost var rest := out[2 + i..];
      out[2 + i] := payload[i];
      assert out[2 + i + 1..] == rest[1..];
      assert out[..2 + i + 1] == out[..2 + i] + [payload[i]];
      assert payload[..i + 1] == payload[..i] + [payload[i]];
    }
    assert payload[..|payload|] == payload;
    len := Seal(out, 2 + |payload|, addr, func, payload);
  }

  /** The checksum is put behind the first n bytes. */
  method Seal(out: array<byte>, n: nat, ghost addr: byte, ghost func: byte, ghost payload: seq<byte>) returns (len: nat)
    requires n + 2 <= out.Length && out[..n] == [addr, func] + payload
    modifies out
    ensures len == n + 2 && out[..len] == Frame(addr, func, payload) && out[len..] == old(out[len..])
  {
    var crc := ModbusCrc16(out[..n]);
    out[n] := Low(crc);
    out[n + 1] := High(crc);
    assert out[..n + 2] == [addr, func] + payload + [Low(crc), High(crc)];
    return n + 2;
  }

  method BuildException(addr: byte, func: byte, code: byte, out: array<byte>) returns (len: nat)
    modifies out
    ensures len == (if out.Length < 5 then 0 else 5)
    ensures len == 5 ==> out[..5] == Frame(addr, ExceptionCode(func), [code]) && out[5..] == old(out[5..])
    ensures len == 0 ==> out[..] == old(out[..])
  {
    if out.Length < 5 {
      return 0;
    }
    out[0] := addr;
    out[1] := ExceptionCode(func);
    out[2] := code;
    assert out[..3] == [addr, ExceptionCode(func)] + [code];
    len := Seal(out, 3, addr, ExceptionCode(func), [code]);
  }
}
