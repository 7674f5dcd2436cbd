/** The register map and the service of Modbus requests (src/service/modbus_regs.c,
src/app/main_mcu.c:31-194; MODBUS Application Protocol V1.1b3, sections 6.3, 6.6 and 7). */
module Registers {
  import opened Words
  import opened ControlModel
  import opened Storage
  import opened AppModel
  import opened ControlHistory
  import opened Modbus

  // ---------- the register map ----------

  /** modbus_reg_map_t */
  datatype Regs = Regs(
    temp: i16, humidity: u16, dew: i16, relay: bool, status: u16, errors: u16, uptime: u32,
    marginOn: i16, marginOff: i16, period: u16)

  const CFG_MARGIN_ON: u16 := 0x100
  const CFG_MARGIN_OFF: u16 := 0x101
  const CFG_PERIOD: u16 := 0x102

  function StateNumber(s: State): u16 {
    match s
    case Init => 0
    case Warmup => 1
    case Run => 2
    case SensorFault => 3
    case MathFault => 4
    case Safe => 5
  }

  /** What the diagnostics contribute: fault events and uptime. */
  datatype Diagnostics = Diagnostics(faultEvents: u32, uptime: u32)

  /** sync_registers: every field is overwritten, with the casts of the C code. */
  function Synced(a: AppState, d: Diagnostics): Regs {
    var c := a.node.c;
    Regs(
      ToI16(ToU16(c.filtered)), ToU16(c.humidity), ToI16(ToU16(c.dew)), c.relay, StateNumber(c.state),
      ToU16(d.faultEvents), d.uptime, a.cfg.marginOn, a.cfg.marginOff, a.cfg.period)
  }

  /** The value at an address, if there is a register. */
  function ValueAt(r: Regs, addr: u16): Option<u16> {
    if addr == 0 then Some(ToU16(r.temp))
    else if addr == 1 then Some(r.humidity)
    else if addr == 2 then Some(ToU16(r.dew))
    else if addr == 3 then Some(if r.relay then 1 else 0)
    else if addr == 4 then Some(r.status)
    else if addr == 5 then Some(r.errors)
    else if addr == 6 then Some(r.uptime % 0x1_0000)
    else if addr == 7 then Some(r.uptime / 0x1_0000)
    else if addr == CFG_MARGIN_ON then Some(ToU16(r.marginOn))
    else if addr == CFG_MARGIN_OFF then Some(ToU16(r.marginOff))
    else if addr == CFG_PERIOD then Some(r.period)
    else None
  }

  function BigEndian(w: u16): (s: seq<byte>)
    ensures |s| == 2
  {
    [High(w), Low(w)]
  }

  /** `addr = start + i` in 16 bits */
  function AddressOf(start: u16, i: nat): u16 { ToU16(start + i) }

  /** The bytes of the first n registers from `start`, if all exist. */
  function ReadBytes(r: Regs, start: u16, n: nat): (s: Option<seq<byte>>)
    ensures s.Some? ==> |s.value| == 2 * n
  {
    if n == 0 then Some([])
    else
      var rest := ReadBytes(r, start, n - 1);
      var v := ValueAt(r, AddressOf(start, n - 1));
      if rest.Some? && v.Some? then Some(rest.value + BigEndian(v.value)) else None
  }

  /** The range lies within the measurements or within the configuration. */
  predicate RangeExists(start: u16, n: nat) {
    start + n <= 8 || (0x100 <= start && start + n <= 0x103)
  }

  /** A read succeeds exactly when its whole range lies in 0x0000-0x0007 or 0x0100-0x0102: an
  address that wraps around never helps. */
  lemma {:induction false} ReadBytesIff(r: Regs, start: u16, n: nat)
    requires 0 < n <= 125
    ensures ReadBytes(r, start, n).Some? <==> RangeExists(start, n)
  {
    if n == 1 {
      assert ReadBytes(r, start, 0).Some?;
    } else {
      ReadBytesIff(r, start, n - 1);
    }
  }

  /** Each register appears at its place, high byte first. */
  lemma {:induction false} ReadBytesAt(r: Regs, start: u16, n: nat, i: nat)
    requires i < n && ReadBytes(r, start, n).Some?
    ensures ValueAt(r, AddressOf(start, i)).Some?
    ensures ReadBytes(r, start, n).value[2 * i..2 * i + 2] == BigEndian(ValueAt(r, AddressOf(start, i)).value)
  {
    var rest := ReadBytes(r, start, n - 1).value;
    if i == n - 1 {
    } else {
      ReadBytesAt(r, start, n - 1, i);
      assert ReadBytes(r, start, n).value[2 * i..2 * i + 2] == rest[2 * i..2 * i + 2];
    }
  }

  /** mb_regs_read, into `out` from `offset`; a failing read may leave some bytes behind. */
  method ReadInto(r: Regs, start: u16, quantity: u16, out: array<byte>, offset: nat, capacity: nat) returns (ok: bool)
    requires offset + capacity <= out.Length
    modifies out
    ensures ok <==> 0 < quantity <= 125 && 2 * quantity <= capacity && ReadBytes(r, start, quantity).Some?
    ensures ok ==> out[offset..offset + 2 * quantity] == ReadBytes(r, start, quantity).value
    ensures out[..offset] == old(out[..offset]) && out[offset + capacity..] == old(out[offset + capacity..])
  {
    if quantity == 0 || quantity > 125 {
      return false;
    }
    if capacity < 2 * quantity {
      return false;
    }
    ghost var before := out[..];
    ghost var bytes;
    ok, bytes := ReadRegisters(r, start, quantity, out, offset);
    FrameKept(before, out[..], offset, offset + capacity, bytes);
  }

  /** The loop of mb_regs_read; `bytes` are the bytes it has written. */
  method ReadRegisters(r: Regs, start: u16, quantity: u16, out: array<byte>, offset: nat)
      returns (ok: bool, ghost bytes: seq<byte>)
    requires offset + 2 * quantity <= out.Length
    modifies out
    ensures |bytes| <= 2 * quantity && Overwritten(old(out[..]), out[..], offset, bytes)
    ensures ok <==> ReadBytes(r, start, quantity).Some?
    ensures ok ==> bytes == ReadBytes(r, start, quantity).value
  {
    ghost var before := out[..];
    bytes := [];
    for i := 0 to quantity
      invariant ReadBytes(r, start, i) == Some(bytes) && |bytes| == 2 * i
      invariant Overwritten(before, out[..], offset, bytes)
    {
      NextBytes(r, start, i, bytes);
      var v := ValueAt(r, AddressOf(start, i));
      if v == None {
        MissingFails(r, start, i, quantity);
        return false, bytes;
      }
      bytes := AppendRegister(v.value, out, offset + 2 * i, offset, before, bytes);
    }
    ok := true;
  }

  method AppendRegister(
      v: u16, out: array<byte>, at: nat, ghost offset: nat, ghost before: seq<byte>, ghost bytes: seq<byte>)
      returns (ghost more: seq<byte>)
    requires Overwritten(before, out[..], offset, bytes)
    requires at == offset + |bytes| && at + 2 <= out.Length
    modifies out
    ensures more == bytes + BigEndian(v) && Overwritten(before, out[..], offset, more)
  {
    ghost var now := out[..];
    PutBe16(v, out, at);
    more := bytes + BigEndian(v);
    OverwriteMore(before, now, out[..], offset, bytes, BigEndian(v));
  }

  lemma NextBytes(r: Regs, start: u16, i: nat, bytes: seq<byte>)
    requires ReadBytes(r, start, i) == Some(bytes)
    ensures var v := ValueAt(r, AddressOf(start, i));
      ReadBytes(r, start, i + 1) == if v.Some? then Some(bytes + BigEndian(v.value)) else None
  {
  }

  /** `bytes` at the offset, everything else as before. */
  predicate Overwritten(before: seq<byte>, after: seq<byte>, offset: nat, bytes: seq<byte>) {
    && |before| == |after| && offset + |bytes| <= |before|
    && after[..offset + |bytes|] == before[..offset] + bytes
    && after[offset + |bytes|..] == before[offset + |bytes|..]
  }

  lemma OverwriteMore(
      before: seq<byte>, now: seq<byte>, after: seq<byte>, offset: nat, bytes: seq<byte>, more: seq<byte>)
    requires Overwritten(before, now, offset, bytes) && Overwritten(now, after, offset + |bytes|, more)
    ensures Overwritten(before, after, offset, bytes + more)
  {
    var n := offset + |bytes|;
    assert before[n + |more|..] == before[n..][|more|..] == now[n + |more|..];
  }

  lemma FrameKept(before: seq<byte>, after: seq<byte>, offset: nat, end: nat, bytes: seq<byte>)
    requires Overwritten(before, after, offset, bytes) && offset + |bytes| <= end <= |before|
    ensures after[..offset] == before[..offset] && after[offset..offset + |bytes|] == bytes
    ensures after[end..] == before[end..]
  {
    var n := offset + |bytes|;
    assert after[..offset] == after[..n][..offset] && after[offset..n] == after[..n][offset..];
    assert after[end..] == after[n..][end - n..];
  }

  /** put_be16 */
  method PutBe16(v: u16, out: array<byte>, at: nat)
    requires at + 2 <= out.Length
    modifies out
    ensures Overwritten(old(out[..]), out[..], at, BigEndian(v))
  {
    out[at] := High(v);
    out[at + 1] := Low(v);
  }

  lemma {:induction false} MissingFails(r: Regs, start: u16, i: nat, n: nat)
    requires i < n && ValueAt(r, AddressOf(start, i)) == None
    ensures ReadBytes(r, start, n) == None
  {
    if i == n - 1 {
    } else {
      MissingFails(r, start, i, n - 1);
    }
  }

  /** mb_regs_write_single */
  function Written(r: Regs, addr: u16, value: u16): Option<Regs> {
    if addr == CFG_MARGIN_ON then Some(r.(marginOn := ToI16(value)))
    else if addr == CFG_MARGIN_OFF then Some(r.(marginOff := ToI16(value)))
    else if addr == CFG_PERIOD && value != 0 then Some(r.(period := value))
    else None
  }

  // ---------- answers ----------

  const ILLEGAL_FUNCTION: byte := 1
  const ILLEGAL_ADDRESS: byte := 2
  const ILLEGAL_VALUE: byte := 3

  /** What a request is answered with: register values, an echo, or an exception code. */
  datatype Answer = Values(bytes: seq<byte>) | Echo | Refused(code: byte)

  function AnswerTo(r: Regs, req: Request): Answer {
    if req.func != 3 && req.func != 6 then Refused(ILLEGAL_FUNCTION)
    else if |req.data| != 4 then Refused(ILLEGAL_VALUE)
    else
      var first, second := Word(req.data[0], req.data[1]), Word(req.data[2], req.data[3]);
      if req.func == 3 then AnswerRead(r, first, second) else AnswerWrite(r, first, second)
  }

  function AnswerRead(r: Regs, start: u16, quantity: u16): Answer {
    if quantity == 0 || quantity > 125 then Refused(ILLEGAL_VALUE)
    else match ReadBytes(r, start, quantity)
      case Some(bytes) => Values(bytes)
      case None => Refused(ILLEGAL_ADDRESS)
  }

  function AnswerWrite(r: Regs, addr: u16, value: u16): Answer {
    if Written(r, addr, value).Some? then Echo else Refused(ILLEGAL_ADDRESS)
  }

  /** At most 125 registers. */
  predicate Sendable(a: Answer) { a.Values? ==> |a.bytes| <= 250 }

  lemma AnswersAreSendable(r: Regs, req: Request)
    ensures Sendable(AnswerTo(r, req))
    ensures AnswerTo(r, req).Values? ==> req.func == 3
    ensures AnswerTo(r, req).Echo? ==> req.func == 6 && |req.data| == 4
  {
  }

  /** The bytes sent for an answer. */
  function Response(req: Request, a: Answer): seq<byte>
    requires Sendable(a)
  {
    match a
    case Values(bytes) => Frame(req.slave, 3, [|bytes|] + bytes)
    case Echo => Frame(req.slave, req.func, req.data)
    case Refused(code) => Frame(req.slave, ExceptionCode(req.func), [code])
  }

  lemma FrameShape(addr: byte, func: byte, payload: seq<byte>)
    ensures var s := Frame(addr, func, payload);
      FrameValid(s) && |s| == |payload| + 4 && s[0] == addr && s[1] == func && s[2..|s| - 2] == payload
  {
    FramesAreValid([addr, func] + payload);
  }

  // ---------- requests ----------

  /** The record apply_modbus_write_to_app submits. */
  function Changed(c: DeviceConfig, addr: u16, value: u16): DeviceConfig {
    Finalized(
      if addr == CFG_MARGIN_ON then c.(marginOn := ToI16(value))
      else if addr == CFG_MARGIN_OFF then c.(marginOff := ToI16(value))
      else c.(period := value))
  }

  datatype Served = Served(app: AppState, response: seq<byte>)

  /** handle_modbus_request: the new application state and the bytes sent. */
  function Serve(a: AppState, req: Request, d: Diagnostics): Served
    requires IsFlash(a.flash)
  {
    var answer := AnswerTo(Synced(a, d), req);
    AnswersAreSendable(Synced(a, d), req);
    Served(Adopted(a, req, answer), Response(req, answer))
  }

  /** An echoed write is a reconfiguration; nothing else changes the application. */
  function Adopted(a: AppState, req: Request, answer: Answer): AppState
    requires IsFlash(a.flash) && (answer.Echo? ==> |req.data| == 4)
  {
    if answer.Echo?
    then UpdateConfig(a, Changed(a.cfg, Word(req.data[0], req.data[1]), Word(req.data[2], req.data[3]))).app
    else a
  }

  /** Every response is a valid frame of 5 to 255 bytes, from the addressed device, with the
  request's function code or that code with its high bit set. */
  lemma ResponsesAreWellFormed(a: AppState, req: Request, d: Diagnostics)
    requires IsFlash(a.flash)
    ensures var s := Serve(a, req, d).response;
      && FrameValid(s) && 5 <= |s| <= 255
      && s[0] == req.slave && (s[1] == req.func || s[1] == req.func % 0x80 + 0x80)
  {
    var r := Synced(a, d);
    AnswersAreSendable(r, req);
    AnswerIsWellFormed(req, AnswerTo(r, req));
  }

  lemma AnswerIsWellFormed(req: Request, a: Answer)
    requires Sendable(a)
    requires (a.Values? ==> req.func == 3) && (a.Echo? ==> |req.data| == 4)
    ensures var s := Response(req, a);
      && FrameValid(s) && 5 <= |s| <= 255
      && s[0] == req.slave && s[1] == if a.Refused? then req.func % 0x80 + 0x80 else req.func
  {
    HighBitSet(req.func);
    match a
    case Values(bytes) => FrameShape(req.slave, 3, [|bytes|] + bytes);
    case Echo => FrameShape(req.slave, req.func, req.data);
    case Refused(code) => FrameShape(req.slave, ExceptionCode(req.func), [code]);
  }

  function ReadRequest(slave: byte, start: u16, quantity: u16): Request {
    Request(slave, 3, BigEndian(start) + BigEndian(quantity))
  }

  function WriteRequest(slave: byte, addr: u16, value: u16): Request {
    Request(slave, 6, BigEndian(addr) + BigEndian(value))
  }

  lemma RequestWords(slave: byte, first: u16, second: u16, r: Regs)
    ensures AnswerTo(r, ReadRequest(slave, first, second)) == AnswerRead(r, first, second)
    ensures AnswerTo(r, WriteRequest(slave, first, second)) == AnswerWrite(r, first, second)
  {
    WordParts(first, High(first), Low(first));
    WordParts(second, High(second), Low(second));
  }

  /** The i-th register in a read response. */
  function ResponseWord(s: seq<byte>, i: nat): u16 {
    if 5 + 2 * i <= |s| then 0x100 * s[3 + 2 * i] as int + s[4 + 2 * i] else 0
  }

  /** A read is answered with data exactly when 1 to 125 registers are asked for and all of
  them exist; the answer carries each register's value, and reading changes nothing. */
  lemma ReadAnswersIff(a: AppState, slave: byte, start: u16, quantity: u16, d: Diagnostics)
    requires IsFlash(a.flash)
    ensures var s := Serve(a, ReadRequest(slave, start, quantity), d);
      var r := Synced(a, d);
      && s.app == a
      && |s.response| >= 5
      && (s.response[1] == 3 <==> 0 < quantity <= 125 && RangeExists(start, quantity))
      && (s.response[1] == 3 ==> CarriesValues(s.response, r, start, quantity))
  {
    var req, r := ReadRequest(slave, start, quantity), Synced(a, d);
    RequestWords(slave, start, quantity, r);
    AnswersAreSendable(r, req);
    AnswerIsWellFormed(req, AnswerTo(r, req));
    if 0 < quantity <= 125 {
      ReadBytesIff(r, start, quantity);
      if RangeExists(start, quantity) { ValuesAreCarried(r, slave, start, quantity); }
    }
  }

  /** A read of no register or of more than 125 is refused with exception 3, one of registers that
  do not all exist with exception 2. */
  lemma ReadIsRefused(a: AppState, slave: byte, start: u16, quantity: u16, d: Diagnostics)
    requires IsFlash(a.flash) && (quantity == 0 || quantity > 125 || !RangeExists(start, quantity))
    ensures var s := Serve(a, ReadRequest(slave, start, quantity), d);
      s.app == a && IsException(s.response, slave, 0x83, if quantity == 0 || quantity > 125 then 3 else 2)
  {
    RequestWords(slave, start, quantity, Synced(a, d));
    ReadRefusal(a, ReadRequest(slave, start, quantity), d, start, quantity);
  }

  lemma ReadRefusal(a: AppState, req: Request, d: Diagnostics, start: u16, quantity: u16)
    requires IsFlash(a.flash) && (quantity == 0 || quantity > 125 || !RangeExists(start, quantity))
    requires req.func == 3 && AnswerTo(Synced(a, d), req) == AnswerRead(Synced(a, d), start, quantity)
    ensures Serve(a, req, d).app == a
    ensures IsException(Serve(a, req, d).response, req.slave, 0x83, if quantity == 0 || quantity > 125 then 3 else 2)
  {
    if 0 < quantity <= 125 { ReadBytesIff(Synced(a, d), start, quantity); }
    RefusalIsServed(a, req, d, if quantity == 0 || quantity > 125 then 3 else 2);
  }

  /** A valid frame of address, function and exception code. */
  predicate IsException(s: seq<byte>, slave: byte, func: byte, code: byte) {
    FrameValid(s) && |s| == 5 && s[0] == slave && s[1] == func && s[2] == code
  }

  lemma ExceptionBytes(slave: byte, func: byte, code: byte)
    ensures IsException(Frame(slave, func, [code]), slave, func, code)
  {
    var s := Frame(slave, func, [code]);
    FrameShape(slave, func, [code]);
    assert s[2..|s| - 2][0] == s[2];
  }

  lemma RefusalIsServed(a: AppState, req: Request, d: Diagnostics, code: byte)
    requires IsFlash(a.flash) && AnswerTo(Synced(a, d), req) == Refused(code)
    ensures Serve(a, req, d).app == a
    ensures IsException(Serve(a, req, d).response, req.slave, req.func % 0x80 + 0x80, code)
  {
    HighBitSet(req.func);
    ExceptionBytes(req.slave, req.func % 0x80 + 0x80, code);
  }

  /** Other functions are refused with exception 1, requests of another length with exception 3,
  and the function comes back with its high bit set. */
  lemma OthersAreRefused(a: AppState, req: Request, d: Diagnostics)
    requires IsFlash(a.flash) && (req.func !in {3, 6} || |req.data| != 4)
    ensures Serve(a, req, d) ==
      Served(a, Frame(req.slave, req.func % 0x80 + 0x80, [if req.func in {3, 6} then 3 else 1]))
  {
  }

  predicate CarriesValues(s: seq<byte>, r: Regs, start: u16, quantity: nat) {
    && |s| == 5 + 2 * quantity && s[2] == 2 * quantity
    && forall i :: 0 <= i < quantity ==> ValueAt(r, AddressOf(start, i)) == Some(ResponseWord(s, i))
  }

  lemma ValuesAreCarried(r: Regs, slave: byte, start: u16, quantity: nat)
    requires 0 < quantity <= 125 && ReadBytes(r, start, quantity).Some?
    ensures var bytes := ReadBytes(r, start, quantity).value;
      CarriesValues(Frame(slave, 3, [|bytes|] + bytes), r, start, quantity)
  {
    var bytes := ReadBytes(r, start, quantity).value;
    var s := Frame(slave, 3, [|bytes|] + bytes);
    FrameShape(slave, 3, [|bytes|] + bytes);
    forall i | 0 <= i < quantity
      ensures ValueAt(r, AddressOf(start, i)) == Some(ResponseWord(s, i))
    {
      ReadBytesAt(r, start, quantity, i);
      PayloadWord(s, bytes, i, ValueAt(r, AddressOf(start, i)).value);
    }
  }

  lemma PayloadWord(s: seq<byte>, bytes: seq<byte>, i: nat, v: u16)
    requires |bytes| < 0x100 && |s| == |bytes| + 5 && s[2..|s| - 2] == [|bytes|] + bytes
    requires 2 * i + 2 <= |bytes| && bytes[2 * i..2 * i + 2] == BigEndian(v)
    ensures ResponseWord(s, i) == v
  {
    assert s[2..|s| - 2][1 + 2 * i] == s[3 + 2 * i] && s[2..|s| - 2][2 + 2 * i] == s[4 + 2 * i];
    assert bytes[2 * i..2 * i + 2][0] == bytes[2 * i] && bytes[2 * i..2 * i + 2][1] == bytes[2 * i + 1];
    WordParts(v, High(v), Low(v));
  }

  /** The writable registers, and what may be written to them. */
  predicate Writable(addr: u16, value: u16) {
    addr == CFG_MARGIN_ON || addr == CFG_MARGIN_OFF || (addr == CFG_PERIOD && value != 0)
  }

  /** A successful write echoes the request frame byte for byte; any other write is refused
  with an illegal address and changes nothing. */
  lemma WriteEchoesIff(a: AppState, slave: byte, addr: u16, value: u16, d: Diagnostics)
    requires IsFlash(a.flash)
    ensures var req := WriteRequest(slave, addr, value);
      var s := Serve(a, req, d);
      && (Writable(addr, value) <==> s.response == Frame(slave, 6, req.data))
      && (!Writable(addr, value) ==> s == Served(a, Frame(slave, 0x86, [ILLEGAL_ADDRESS])))
  {
    var req := WriteRequest(slave, addr, value);
    RequestWords(slave, addr, value, Synced(a, d));
    FrameFunction(slave, 6, 0x86, req.data, [ILLEGAL_ADDRESS]);
  }

  lemma FrameFunction(addr: byte, func: byte, func': byte, payload: seq<byte>, payload': seq<byte>)
    requires func != func'
    ensures Frame(addr, func, payload) != Frame(addr, func', payload')
  {
    FrameShape(addr, func, payload);
    FrameShape(addr, func', payload');
  }

  lemma ChangedSettings(c: DeviceConfig, addr: u16, value: u16)
    requires Writable(addr, value)
    ensures var n := Changed(c, addr, value);
      && Validates(n)
      && n.marginOn == (if addr == CFG_MARGIN_ON then ToI16(value) else c.marginOn)
      && n.marginOff == (if addr == CFG_MARGIN_OFF then ToI16(value) else c.marginOff)
      && n.period == (if addr == CFG_PERIOD then value else c.period)
  {
    FinalizedValidates(
      if addr == CFG_MARGIN_ON then c.(marginOn := ToI16(value))
      else if addr == CFG_MARGIN_OFF then c.(marginOff := ToI16(value))
      else c.(period := value));
  }

  lemma ConfigRegisters(a: AppState, d: Diagnostics)
    ensures ValueAt(Synced(a, d), CFG_MARGIN_ON) == Some(ToU16(a.cfg.marginOn))
    ensures ValueAt(Synced(a, d), CFG_MARGIN_OFF) == Some(ToU16(a.cfg.marginOff))
    ensures ValueAt(Synced(a, d), CFG_PERIOD) == Some(a.cfg.period)
  {
  }

  lemma WriteAdopts(a: AppState, slave: byte, addr: u16, value: u16, d: Diagnostics)
    requires IsFlash(a.flash) && Writable(addr, value)
    ensures var b := Serve(a, WriteRequest(slave, addr, value), d).app;
      b.cfg == Changed(a.cfg, addr, value) && IsFlash(b.flash)
  {
    RequestWords(slave, addr, value, Synced(a, d));
    ChangedSettings(a.cfg, addr, value);
    WordParts(addr, High(addr), Low(addr));
    WordParts(value, High(value), Low(value));
  }

  /** After a successful write the register reads as written, whether or not it could be
  saved, and the other configuration registers read as before. */
  lemma WriteThenRead(a: AppState, slave: byte, addr: u16, value: u16, d: Diagnostics, d': Diagnostics)
    requires IsFlash(a.flash) && Writable(addr, value)
    ensures var b := Serve(a, WriteRequest(slave, addr, value), d).app;
      && ValueAt(Synced(b, d'), addr) == Some(value)
      && forall other :: other in {CFG_MARGIN_ON, CFG_MARGIN_OFF, CFG_PERIOD} && other != addr ==>
           ValueAt(Synced(b, d'), other) == ValueAt(Synced(a, d), other)
  {
    WriteAdopts(a, slave, addr, value, d);
    ConfigRegisters(a, d);
    ConfigRegisters(Serve(a, WriteRequest(slave, addr, value), d).app, d');
    ChangedSettings(a.cfg, addr, value);
    CastsInvert(0, value);
  }

  /** The same over the wire: write a register, then read it. */
  lemma WrittenRegisterIsRead(a: AppState, slave: byte, addr: u16, value: u16, d: Diagnostics, d': Diagnostics)
    requires IsFlash(a.flash) && Writable(addr, value)
    ensures var b := Serve(a, WriteRequest(slave, addr, value), d).app;
      && IsFlash(b.flash)
      && var s := Serve(b, ReadRequest(slave, addr, 1), d').response;
      |s| == 7 && s[1] == 3 && ResponseWord(s, 0) == value
  {
    WriteAdopts(a, slave, addr, value, d);
    WriteThenRead(a, slave, addr, value, d, d');
    ReadFirst(Serve(a, WriteRequest(slave, addr, value), d).app, slave, addr, 1, d');
  }

  lemma ReadFirst(a: AppState, slave: byte, addr: u16, n: u16, d: Diagnostics)
    requires IsFlash(a.flash) && 0 < n <= 125 && RangeExists(addr, n)
    ensures var s := Serve(a, ReadRequest(slave, addr, n), d).response;
      |s| == 5 + 2 * n && s[1] == 3 && ValueAt(Synced(a, d), addr) == Some(ResponseWord(s, 0))
  {
    ReadAnswersIff(a, slave, addr, n, d);
    FirstValue(Serve(a, ReadRequest(slave, addr, n), d).response, Synced(a, d), addr, n);
  }

  lemma FirstValue(s: seq<byte>, r: Regs, start: u16, n: nat)
    requires n > 0
    ensures CarriesValues(s, r, start, n) ==> |s| == 5 + 2 * n && ValueAt(r, start) == Some(ResponseWord(s, 0))
  {
    assert AddressOf(start, 0) == start;
  }

  // ---------- configuration registers over whole runs ----------

  datatype DeviceEvent =
    | Sampling(now: u32, reading: Reading)
    | PowerFailing
    | Serving(req: Request, d: Diagnostics)

  function DeviceStep(a: AppState, e: DeviceEvent): (b: AppState)
    requires IsFlash(a.flash)
    ensures IsFlash(b.flash)
  {
    match e
    case Sampling(now, r) => Step(a, Tick(now, r))
    case PowerFailing => Step(a, BrownOut)
    case Serving(req, d) => Serve(a, req, d).app
  }

  function Device(a: AppState, h: seq<DeviceEvent>): (b: AppState)
    requires IsFlash(a.flash)
    ensures IsFlash(b.flash)
  {
    if h == [] then a else DeviceStep(Device(a, h[..|h| - 1]), h[|h| - 1])
  }

  /** A request that writes to a configuration register and is accepted. */
  predicate IsWrite(req: Request) {
    req.func == 6 && |req.data| == 4 && Writable(Word(req.data[0], req.data[1]), Word(req.data[2], req.data[3]))
  }

  predicate IsConfig(addr: u16) { addr in {CFG_MARGIN_ON, CFG_MARGIN_OFF, CFG_PERIOD} }

  /** The value of a configuration register. */
  function Setting(c: DeviceConfig, addr: u16): u16 {
    if addr == CFG_MARGIN_ON then ToU16(c.marginOn)
    else if addr == CFG_MARGIN_OFF then ToU16(c.marginOff)
    else c.period
  }

  /** The value of the latest accepted write to a register; before any, what it was. */
  function LatestWrite(before: u16, h: seq<DeviceEvent>, addr: u16): u16 {
    if h == [] then before
    else
      var rest := LatestWrite(before, h[..|h| - 1], addr);
      match h[|h| - 1]
      case Serving(req, _) =>
        if IsWrite(req) && Word(req.data[0], req.data[1]) == addr then Word(req.data[2], req.data[3]) else rest
      case _ => rest
  }

  lemma ServeSets(a: AppState, req: Request, d: Diagnostics, addr: u16)
    requires IsFlash(a.flash) && IsConfig(addr)
    ensures Setting(Serve(a, req, d).app.cfg, addr) ==
      if IsWrite(req) && Word(req.data[0], req.data[1]) == addr then Word(req.data[2], req.data[3])
      else Setting(a.cfg, addr)
  {
    if IsWrite(req) {
      ChangeSets(a.cfg, Word(req.data[0], req.data[1]), Word(req.data[2], req.data[3]), addr);
    }
  }

  lemma ChangeSets(c: DeviceConfig, addr: u16, value: u16, other: u16)
    requires Writable(addr, value) && IsConfig(other)
    ensures Validates(Changed(c, addr, value))
    ensures Setting(Changed(c, addr, value), other) == if addr == other then value else Setting(c, other)
  {
    ChangedSettings(c, addr, value);
    CastsInvert(0, value);
  }

  lemma StepKeepsSettings(a: AppState, e: DeviceEvent)
    requires IsFlash(a.flash) && !e.Serving?
    ensures DeviceStep(a, e).cfg == a.cfg
  {
  }

  lemma {:induction false} SettingsAreLatestWrites(a: AppState, h: seq<DeviceEvent>, addr: u16)
    requires IsFlash(a.flash) && IsConfig(addr)
    ensures Setting(Device(a, h).cfg, addr) == LatestWrite(Setting(a.cfg, addr), h, addr)
  {
    if h == [] {
    } else {
      var p, e := h[..|h| - 1], h[|h| - 1];
      SettingsAreLatestWrites(a, p, addr);
      match e
      case Serving(req, d) => ServeSets(Device(a, p), req, d, addr);
      case _ => StepKeepsSettings(Device(a, p), e);
    }
  }

  /** Over the wire: after any interleaving of sampling, brown-outs and requests, reading a
  configuration register returns the latest value accepted for it, saved or not. */
  lemma RegisterReadsLatestWrite(a: AppState, h: seq<DeviceEvent>, slave: byte, addr: u16, d: Diagnostics)
    requires IsFlash(a.flash) && IsConfig(addr)
    ensures var s := Serve(Device(a, h), ReadRequest(slave, addr, 1), d).response;
      |s| == 7 && s[1] == 3 && ResponseWord(s, 0) == LatestWrite(Setting(a.cfg, addr), h, addr)
  {
    SettingsAreLatestWrites(a, h, addr);
    ConfigRegisters(Device(a, h), d);
    ReadFirst(Device(a, h), slave, addr, 1, d);
  }

  /** Whether any write to a configuration register was accepted. */
  predicate HasWrite(h: seq<DeviceEvent>) {
    h != [] && (HasWrite(h[..|h| - 1]) || (h[|h| - 1].Serving? && IsWrite(h[|h| - 1].req)))
  }

  /** The controller works with the settings of the record: at first, after a write has reached
  it. */
  predicate InForce(a: AppState) {
    var used := a.node.c.cfg;
    && used.period == (if a.cfg.period > 0 then a.cfg.period else 1000)
    && used.faultThreshold == 3 && used.recoveryThreshold == 3 && !used.safeRelay
    && (if a.cfg.marginOn < a.cfg.marginOff then used.marginOn == a.cfg.marginOn && used.marginOff == a.cfg.marginOff
        else used.marginOn == 500 && used.marginOff == 700)
  }

  lemma ServePutsInForce(a: AppState, req: Request, d: Diagnostics)
    requires IsFlash(a.flash) && a.flashPresent
    ensures var b := Serve(a, req, d).app;
      && b.flashPresent
      && (if IsWrite(req) then InForce(b) else b == a)
  {
    if IsWrite(req) {
      var addr, value := Word(req.data[0], req.data[1]), Word(req.data[2], req.data[3]);
      ChangedSettings(a.cfg, addr, value);
      ConfigurationReachesController(a, Changed(a.cfg, addr, value));
    }
  }

  lemma StepKeepsInForce(a: AppState, e: DeviceEvent)
    requires IsFlash(a.flash) && !e.Serving?
    ensures var b := DeviceStep(a, e);
      b.flashPresent == a.flashPresent && b.cfg == a.cfg && b.node.c.cfg == a.node.c.cfg
  {
    if e.Sampling? { UpdateKeepsConfig(a.node, Judged(e.reading)); }
  }

  /** Over any run with flash, from the first accepted write on, the controller works with the
  latest values written: margins, sample period, and the fixed thresholds. */
  lemma {:induction false} WritesAreInForce(a: AppState, h: seq<DeviceEvent>)
    requires IsFlash(a.flash) && a.flashPresent
    ensures var b := Device(a, h);
      b.flashPresent && (HasWrite(h) || InForce(a) ==> InForce(b))
  {
    if h == [] {
    } else {
      var p, e := h[..|h| - 1], h[|h| - 1];
      WritesAreInForce(a, p);
      match e
      case Serving(req, d) => ServePutsInForce(Device(a, p), req, d);
      case _ => StepKeepsInForce(Device(a, p), e);
    }
  }

  /** So the period written last decides the deadlines: with v its latest value, the next sample
  processed at t moves the deadline on by v, or to v after t when a whole period was missed. */
  lemma WrittenPeriodPaces(a: AppState, h: seq<DeviceEvent>, next: nat, t: nat, r: Reading)
    requires IsFlash(a.flash) && a.flashPresent && HasWrite(h)
    requires next <= t < next + HALF && Device(a, h).next == Wrap(next)
    ensures var v := LatestWrite(a.cfg.period, h, CFG_PERIOD);
      var p := Task(Device(a, h), Wrap(t), r);
      && p.processed
      && (v > 0 ==> p.app.next == Wrap(if t <= next + v then next + v else t + v))
  {
    var b, v := Device(a, h), LatestWrite(a.cfg.period, h, CFG_PERIOD);
    assert b.node.c.cfg.period == if v > 0 then v else 1000 by { PeriodInForce(a, h); }
    PeriodPaces(b, next, t, r);
  }

  lemma PeriodInForce(a: AppState, h: seq<DeviceEvent>)
    requires IsFlash(a.flash) && a.flashPresent && HasWrite(h)
    ensures var v, used := LatestWrite(a.cfg.period, h, CFG_PERIOD), Device(a, h).node.c.cfg.period;
      used == if v > 0 then v else 1000
  {
    WritesAreInForce(a, h);
    SettingsAreLatestWrites(a, h, CFG_PERIOD);
  }

  lemma PeriodPaces(b: AppState, next: nat, t: nat, r: Reading)
    requires next <= t < next + HALF && b.next == Wrap(next) && b.node.c.cfg.period < HALF
    ensures var v, p := b.node.c.cfg.period, Task(b, Wrap(t), r);
      p.processed && p.app.next == Wrap(if t <= next + v then next + v else t + v)
  {
    SamplingIsTrue(b, next, t, r);
    DeadlineAhead(next, b.node.c.cfg.period, t);
  }

  // ---------- the registers and the application ----------

  /** In every sound state the measurement registers show the application's values without
  loss: signed temperatures, humidity, relay, state, and the uptime in two halves; only the fault
  events are cut to 16 bits. */
  lemma RegistersAreExact(a: AppState, d: Diagnostics)
    requires Sound(a.node.c)
    ensures var c := a.node.c;
      var at := (addr: u16) => ValueAt(Synced(a, d), addr);
      && at(0).Some? && ToI16(at(0).value) == c.filtered
      && at(1) == Some(c.humidity)
      && at(2).Some? && ToI16(at(2).value) == c.dew
      && at(3) == Some(if c.relay then 1 else 0)
      && at(4) == Some(
           match c.state {
             case Init => 0 case Warmup => 1 case Run => 2 case SensorFault => 3 case MathFault => 4 case Safe => 5 })
      && at(5) == Some(d.faultEvents % 0x1_0000)
      && at(6).Some? && at(7).Some? && at(6).value + 0x1_0000 * at(7).value == d.uptime
      && at(0x100) == Some(ToU16(a.cfg.marginOn)) && at(0x101) == Some(ToU16(a.cfg.marginOff))
      && at(0x102) == Some(a.cfg.period)
  {
    CastsInvert(a.node.c.filtered, 0);
    CastsInvert(a.node.c.dew, 0);
  }

  /** Serving a request keeps the relay output tracked. */
  lemma ServeTracksOutput(a: AppState, req: Request, d: Diagnostics)
    requires IsFlash(a.flash) && OutputTracked(a)
    ensures OutputTracked(Serve(a, req, d).app)
  {
    var answer := AnswerTo(Synced(a, d), req);
    AnswersAreSendable(Synced(a, d), req);
    if answer.Echo? {
      var c := Changed(a.cfg, Word(req.data[0], req.data[1]), Word(req.data[2], req.data[3]));
      StepTracksOutput(a, Configure(c));
    }
  }

  lemma {:induction false} DeviceKeepsTracked(a: AppState, h: seq<DeviceEvent>)
    requires IsFlash(a.flash) && OutputTracked(a)
    ensures OutputTracked(Device(a, h))
  {
    if h == [] {
    } else {
      var p, e := h[..|h| - 1], h[|h| - 1];
      DeviceKeepsTracked(a, p);
      match e
      case Sampling(now, r) => StepTracksOutput(Device(a, p), Tick(now, r));
      case PowerFailing => StepTracksOutput(Device(a, p), BrownOut);
      case Serving(req, d) => ServeTracksOutput(Device(a, p), req, d);
    }
  }

  /** In every run of the device from its start, with sampling, brown-outs and requests in any
  order, a call that processes a sample ends with the relay output equal to the controller's
  relay. */
  lemma DeviceFollowsController(
      flash: seq<byte>, present: bool, backup: byte, cause: ResetCause, h: seq<DeviceEvent>, now: u32, r: Reading)
    requires IsFlash(flash)
    ensures var p := Task(Device(PowerUp(flash, present, backup, cause), h), now, r);
      p.processed ==> p.app.output == p.app.node.c.relay
  {
    var start := PowerUp(flash, present, backup, cause);
    StartIsTracked(flash, present, backup, cause);
    DeviceKeepsTracked(start, h);
    StepTracksOutput(Device(start, h), Tick(now, r));
  }

  /** And the measurement registers are exact. */
  lemma RegistersAreExactInRuns(
      flash: seq<byte>, present: bool, backup: byte, cause: ResetCause, h: seq<DeviceEvent>, d: Diagnostics)
    requires IsFlash(flash)
    ensures var a := Device(PowerUp(flash, present, backup, cause), h);
      var c := a.node.c;
      var at := (addr: u16) => ValueAt(Synced(a, d), addr);
      && at(0).Some? && ToI16(at(0).value) == c.filtered
      && at(1) == Some(c.humidity)
      && at(2).Some? && ToI16(at(2).value) == c.dew
      && at(3) == Some(if c.relay then 1 else 0)
      && at(4) == Some(
           match c.state {
             case Init => 0 case Warmup => 1 case Run => 2 case SensorFault => 3 case MathFault => 4 case Safe => 5 })
  {
    StartIsTracked(flash, present, backup, cause);
    DeviceKeepsTracked(PowerUp(flash, present, backup, cause), h);
    RegistersAreExact(Device(PowerUp(flash, present, backup, cause), h), d);
  }
}
