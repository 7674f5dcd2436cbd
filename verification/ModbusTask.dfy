/** The Modbus task of the firmware (src/app/main_mcu.c:31-194, 225-259): a parsed request is
served from a response buffer, and proved to be answered as `Registers` says. */
module ModbusTask {
  import opened Words
  import opened Lfsr
  import opened ControlModel
  import opened Storage
  import opened AppModel
  import opened Modbus
  import opened Registers
  import ModbusServer
  import DmaReceiver
  import Ring
  import App

  const RESPONSE_SIZE: nat := 260

  // ---------- from the line to the reply ----------

  datatype Reaction = Reaction(app: AppState, sent: seq<seq<byte>>)

  /** What a frame on the line leads to: an accepted request is served, anything else is
  ignored. */
  function React(a: AppState, frame: seq<byte>, own: byte, d: Diagnostics): Reaction
    requires IsFlash(a.flash)
  {
    ReactToParsed(a, Parse(frame, own), d)
  }

  function ReactToParsed(a: AppState, p: Parsed, d: Diagnostics): Reaction
    requires IsFlash(a.flash)
  {
    match p
    case Parsed(Ok, Some(req)) =>
      var s := Serve(a, req, d);
      Reaction(s.app, [s.response])
    case _ => Reaction(a, [])
  }

  /** A request frame damaged in transit changes nothing and is not answered. */
  lemma DamagedFrameIsIgnored(
      a: AppState, original: seq<byte>, received: seq<byte>, own: byte, d: Diagnostics, start: nat, len: nat)
    requires IsFlash(a.flash)
    requires FrameValid(original) && |received| == |original| <= ModbusServer.MAX_FRAME && received != original
    requires
      || (len <= 16 && AgreeOutside(MessageBits(original), MessageBits(received), start, len))
      || CountDiff(MessageBits(original), MessageBits(received)) % 2 == 1
      || 1 <= CountDiff(MessageBits(original), MessageBits(received)) <= 3
    ensures React(a, received, own, d) == Reaction(a, [])
  {
    ModbusServer.DamagedFrameIsNoRequest(original, received, own, start, len);
  }

  /** A write to a configuration register, sent to this device or to all, is answered by its
  own frame, byte for byte; to other addresses and registers it changes nothing. */
  lemma WriteFrameIsEchoed(a: AppState, slave: byte, own: byte, addr: u16, value: u16, d: Diagnostics)
    requires IsFlash(a.flash)
    ensures var req := WriteRequest(slave, addr, value);
      var frame := Frame(slave, 6, req.data);
      var r := React(a, frame, own, d);
      if slave != own && slave != 0 then r == Reaction(a, [])
      else if Writable(addr, value) then r.sent == [frame] && r.app.cfg == Changed(a.cfg, addr, value)
      else r == Reaction(a, [Frame(slave, 0x86, [ILLEGAL_ADDRESS])])
  {
    var req := WriteRequest(slave, addr, value);
    ParseOfFrame(slave, 6, req.data, own);
    if slave == own || slave == 0 {
      WriteEchoesIff(a, slave, addr, value, d);
      if Writable(addr, value) { WriteAdopts(a, slave, addr, value, d); }
    }
  }

  // ---------- requests and the edge of the receive ring ----------

  /** The chunks of one interrupt: each is parsed, and the task finds what the last one left. */
  function ReactToChunks(a: AppState, chunks: seq<seq<byte>>, own: byte, d: Diagnostics): Reaction
    requires IsFlash(a.flash)
  {
    if chunks == [] then Reaction(a, []) else React(a, chunks[|chunks| - 1], own, d)
  }

  lemma RequestsHaveEightBytes(frame: seq<byte>, own: byte)
    ensures Parse(frame, own).err == Ok ==> |frame| == 8
  {
  }

  /** An acceptable request that arrives between two pauses is served exactly when it does not
  cross the edge of the receive ring, that is, when the bytes received before it leave room
  for it; otherwise it is lost without an answer. */
  lemma RequestServedIffWhole(
      a: AppState, events: seq<DmaReceiver.LineEvent>, frame: seq<byte>, own: byte, d: Diagnostics)
    requires IsFlash(a.flash) && Parse(frame, own).err == Ok
    requires DmaReceiver.Run(DmaReceiver.QUIET, events).waiting == []
    ensures var l := DmaReceiver.Run(DmaReceiver.QUIET, events);
      var chunks := DmaReceiver.NewChunks(l, DmaReceiver.Run(l, DmaReceiver.Message(frame)));
      && |React(a, frame, own, d).sent| == 1
      && ReactToChunks(a, chunks, own, d) ==
           if |l.received| % Ring.SIZE + 8 <= Ring.SIZE then React(a, frame, own, d) else Reaction(a, [])
  {
    RequestsHaveEightBytes(frame, own);
    DmaReceiver.MessageAfter(events, frame);
    DmaReceiver.RunJoins(DmaReceiver.QUIET, events, DmaReceiver.Message(frame));
    ChunksServedIff(a, Ring.Slot(0, |DmaReceiver.Run(DmaReceiver.QUIET, events).received|), frame, own, d);
  }

  lemma ChunksServedIff(a: AppState, at: Ring.Cell, frame: seq<byte>, own: byte, d: Diagnostics)
    requires IsFlash(a.flash) && |frame| == 8 && Parse(frame, own).err == Ok
    ensures |React(a, frame, own, d).sent| == 1
    ensures ReactToChunks(a, DmaReceiver.Chunks(at, frame), own, d) ==
      if at + 8 <= Ring.SIZE then React(a, frame, own, d) else Reaction(a, [])
  {
    if at + 8 > Ring.SIZE {
      RequestsHaveEightBytes(frame[Ring.SIZE - at..], own);
    }
  }

  // ---------- whole conversations ----------

  /** A message on the line, between two pauses, and what the diagnostics show when it is served. */
  datatype Exchange = Exchange(message: seq<byte>, d: Diagnostics)

  /** What handles a chunk. */
  type Handler = (AppState, seq<byte>, Diagnostics) -> Reaction

  /** The firmware's handler for its own address. */
  function Listener(own: byte): Handler {
    (a: AppState, chunk: seq<byte>, d: Diagnostics) =>
      if IsFlash(a.flash) then React(a, chunk, own, d) else Reaction(a, [])
  }

  /** The application, what has happened on the line, and everything sent. */
  datatype Talk = Talk(app: AppState, events: seq<DmaReceiver.LineEvent>, sent: seq<seq<byte>>)

  function LineOf(k: Talk): DmaReceiver.Line { DmaReceiver.Run(DmaReceiver.QUIET, k.events) }

  /** The message goes through the receive ring; then the interrupt and the task run, and the
  task sees the last chunk. */
  function TalkStep(f: Handler, k: Talk, x: Exchange): Talk {
    var after := k.(events := k.events + DmaReceiver.Message(x.message));
    var r := LastHandled(f, k.app, DmaReceiver.NewChunks(LineOf(k), LineOf(after)), x.d);
    after.(app := r.app, sent := k.sent + r.sent)
  }

  function LastHandled(f: Handler, a: AppState, chunks: seq<seq<byte>>, d: Diagnostics): Reaction {
    if chunks == [] then Reaction(a, []) else f(a, chunks[|chunks| - 1], d)
  }

  lemma ListenerReacts(a: AppState, chunks: seq<seq<byte>>, own: byte, d: Diagnostics)
    requires IsFlash(a.flash)
    ensures LastHandled(Listener(own), a, chunks, d) == ReactToChunks(a, chunks, own, d)
    ensures IsFlash(ReactToChunks(a, chunks, own, d).app.flash)
  {
  }

  function Converse(f: Handler, k: Talk, xs: seq<Exchange>): Talk
    decreases |xs|
  {
    if xs == [] then k else Converse(f, TalkStep(f, k, xs[0]), xs[1..])
  }

  /** A message of n bytes, after `before` others, does not cross the edge of the ring. */
  predicate IsWhole(before: nat, n: nat) { before % Ring.SIZE + n <= Ring.SIZE }

  /** What the messages lead to without a ring, after `before` bytes and the replies in r, except
  that those that would cross its edge are not heard. */
  function Replies(f: Handler, r: Reaction, before: nat, xs: seq<Exchange>): Reaction
    decreases |xs|
  {
    if xs == [] then r
    else Replies(f, ReplyStep(f, r, before, xs[0]), before + |xs[0].message|, xs[1..])
  }

  function ReplyStep(f: Handler, r: Reaction, before: nat, x: Exchange): Reaction {
    if IsWhole(before, |x.message|) then
      var s := f(r.app, x.message, x.d);
      Reaction(s.app, r.sent + s.sent)
    else r
  }

  predicate RefusesTail(message: seq<byte>, own: byte, k: nat)
    requires k <= |message|
  {
    Parse(message[k..], own).err != Ok
  }

  ghost predicate Ignores(f: Handler, chunk: seq<byte>) {
    forall a, d :: f(a, chunk, d) == Reaction(a, [])
  }

  /** No proper tail of the message is reacted to. */
  ghost predicate IsClean(f: Handler, message: seq<byte>) {
    && 0 < |message| < Ring.SIZE
    && forall k :: 0 < k < |message| ==> Ignores(f, message[k..])
  }

  ghost predicate AllClean(f: Handler, xs: seq<Exchange>) {
    xs == [] || (IsClean(f, xs[0].message) && AllClean(f, xs[1..]))
  }

  lemma RefusedIsIgnored(chunk: seq<byte>, own: byte)
    requires Parse(chunk, own).err != Ok
    ensures Ignores(Listener(own), chunk)
  {
  }

  /** A message is clean if no proper tail of it passes for a request; so is every request. */
  lemma CleanMessages(message: seq<byte>, own: byte)
    requires 0 < |message| < Ring.SIZE
    requires Parse(message, own).err == Ok || forall k :: 0 < k < |message| ==> RefusesTail(message, own, k)
    ensures IsClean(Listener(own), message)
  {
    RequestsHaveEightBytes(message, own);
    forall k | 0 < k < |message|
      ensures Ignores(Listener(own), message[k..])
    {
      RequestsHaveEightBytes(message[k..], own);
      assert Parse(message, own).err != Ok ==> RefusesTail(message, own, k);
      RefusedIsIgnored(message[k..], own);
    }
  }

  /** In every conversation of clean messages between pauses, requests or not, the application and
  the replies are what the messages lead to that do not cross the edge of the ring, in order;
  those that do cross it go unheard. */
  lemma {:induction false} RepliesThroughRing(f: Handler, k: Talk, r: Reaction, n: nat, xs: seq<Exchange>)
    requires Matches(k, r, n) && AllClean(f, xs)
    ensures var m, t := Converse(f, k, xs), Replies(f, r, n, xs); m.app == t.app && m.sent == t.sent
    decreases |xs|
  {
    if xs == [] {
    } else {
      TalkStepHears(f, k, r, n, xs[0]);
      RepliesThroughRing(f, TalkStep(f, k, xs[0]), ReplyStep(f, r, n, xs[0]), n + |xs[0].message|, xs[1..]);
    }
  }

  /** The same application and replies, and a line that has received n bytes and is quiet. */
  predicate Matches(k: Talk, r: Reaction, n: nat) {
    && k.app == r.app && k.sent == r.sent
    && LineOf(k).waiting == [] && |LineOf(k).received| == n
  }

  lemma TalkStepHears(f: Handler, k: Talk, r: Reaction, n: nat, x: Exchange)
    requires Matches(k, r, n) && IsClean(f, x.message)
    ensures Matches(TalkStep(f, k, x), ReplyStep(f, r, n, x), n + |x.message|)
  {
    DmaReceiver.MessageAfter(k.events, x.message);
    HeardIffWhole(f, k.app, Ring.Slot(0, n), x.message, x.d);
  }

  lemma HeardIffWhole(f: Handler, a: AppState, at: Ring.Cell, message: seq<byte>, d: Diagnostics)
    requires IsClean(f, message)
    ensures LastHandled(f, a, DmaReceiver.Chunks(at, message), d) ==
      if at + |message| <= Ring.SIZE then f(a, message, d) else Reaction(a, [])
  {
    if at + |message| > Ring.SIZE {
      assert Ignores(f, message[Ring.SIZE - at..]);
    }
  }

  /** After a number of bytes that eight divides, no message of eight bytes is cut; after any other
  number, one in 32 is: the one that starts in the last seven cells of the ring. */
  lemma EightByteMessagesAreWhole(before: nat, k: nat)
    ensures IsWhole(before + 8 * k, 8) <==> (before + 8 * k) % 0x100 <= 248
    ensures before % 8 == 0 ==> IsWhole(before + 8 * k, 8)
    ensures before % 8 != 0 ==> (IsWhole(before + 8 * k, 8) <==> (before / 8 + k) % 32 != 31)
  {
    var q, r := before / 8, before % 8;
    var n := q + k;
    assert before + 8 * k == 8 * n + r;
    EightfoldRemainder(n, r);
  }

  /** What the messages lead to when every one is heard. */
  function AllReplies(f: Handler, r: Reaction, xs: seq<Exchange>): Reaction
    decreases |xs|
  {
    if xs == [] then r
    else
      var s := f(r.app, xs[0].message, xs[0].d);
      AllReplies(f, Reaction(s.app, r.sent + s.sent), xs[1..])
  }

  /** A line that has only ever carried messages of eight bytes, as all requests are, loses none. */
  lemma {:induction false} EveryRequestIsHeard(f: Handler, r: Reaction, before: nat, xs: seq<Exchange>)
    requires before % 8 == 0 && forall i :: 0 <= i < |xs| ==> |xs[i].message| == 8
    ensures Replies(f, r, before, xs) == AllReplies(f, r, xs)
    decreases |xs|
  {
    if xs == [] {
    } else {
      EightByteMessagesAreWhole(before, 0);
      EveryRequestIsHeard(f, ReplyStep(f, r, before, xs[0]), before + 8, xs[1..]);
    }
  }

  lemma EightfoldRemainder(n: nat, r: nat)
    requires r < 8
    ensures (8 * n + r) % 0x100 == 8 * (n % 32) + r
  {
    var q, m := n / 32, n % 32;
    assert 8 * n + r == 8 * m + r + Ring.SIZE * q;
    Ring.Turns(8 * m + r, q);
  }

  // ---------- the task ----------

  class Mcu {
    const app: App.App
    const server: ModbusServer.Server

    /** The register map, overwritten before every request. */
    var regs: Regs

    /** Frames given to the transmitter. */
    var sent: seq<seq<byte>>

    ghost predicate Valid()
      reads this, app, app.ctrl, app.ctrl.filter, app.ctrl.filter.buf, app.store, server, server.buf
    {
      && app.Valid() && server.Valid()
      && server.buf != app.store.mem && (app.ctrl.filter.buf as object) != server.buf
    }

    constructor (app: App.App, server: ModbusServer.Server)
      requires app.Valid() && server.Valid()
      requires server.buf != app.store.mem && (app.ctrl.filter.buf as object) != server.buf
      ensures Valid() && this.app == app && this.server == server && sent == []
    {
      this.app, this.server := app, server;
      regs := Regs(0, 0, 0, false, 0, 0, 0, 500, 700, 1000);
      sent := [];
    }

    /** sync_registers */
    method Sync(d: Diagnostics)
      requires Valid()
      modifies this`regs
      ensures regs == Synced(app.View(), d)
    {
      regs := regs.(
        temp := ToI16(ToU16(app.ctrl.filtered)), humidity := ToU16(app.ctrl.humidity),
        dew := ToI16(ToU16(app.ctrl.dew)), relay := app.ctrl.relayOn, status := StateNumber(app.ctrl.state),
        errors := ToU16(d.faultEvents), uptime := d.uptime);
      regs := regs.(marginOn := app.cfg.marginOn, marginOff := app.cfg.marginOff, period := app.cfg.period);
    }

    /** Function 3: the response is assembled in `buf`. */
    method Read(req: Request, buf: array<byte>) returns (len: nat)
      requires req.func == 3 && buf.Length == RESPONSE_SIZE
      modifies buf
      ensures len <= buf.Length && Sendable(AnswerTo(regs, req)) && buf[..len] == Response(req, AnswerTo(regs, req))
    {
      AnswersAreSendable(regs, req);
      if |req.data| != 4 {
        len := BuildException(req.slave, 3, ILLEGAL_VALUE, buf);
        return;
      }
      var start, quantity := Word(req.data[0], req.data[1]), Word(req.data[2], req.data[3]);
      len := ReadRegisters(req, start, quantity, buf);
    }

    method ReadRegisters(req: Request, start: u16, quantity: u16, buf: array<byte>) returns (len: nat)
      requires req.func == 3 && buf.Length == RESPONSE_SIZE
      modifies buf
      ensures var answer := AnswerRead(regs, start, quantity);
        len <= buf.Length && Sendable(answer) && buf[..len] == Response(req, answer)
    {
      if quantity == 0 || quantity > 125 {
        len := BuildException(req.slave, 3, ILLEGAL_VALUE, buf);
        return;
      }
      var byteCount := 2 * quantity;
      buf[0] := req.slave;
      buf[1] := 3;
      buf[2] := byteCount;
      var ok := ReadInto(regs, start, quantity, buf, 3, byteCount);
      if !ok {
        len := BuildException(req.slave, 3, ILLEGAL_ADDRESS, buf);
        return;
      }
      len := SealRead(buf, req.slave, ReadBytes(regs, start, quantity).value);
    }

    /** The checksum is put behind a read response. */
    method SealRead(buf: array<byte>, addr: byte, ghost bytes: seq<byte>) returns (len: nat)
      requires |bytes| <= 250 && buf.Length == RESPONSE_SIZE
      requires buf[0] == addr && buf[1] == 3 && buf[2] == |bytes| && buf[3..3 + |bytes|] == bytes
      modifies buf
      ensures len == |bytes| + 5 && buf[..len] == Frame(addr, 3, [|bytes|] + bytes)
    {
      var n: nat := 3 + buf[2];
      assert buf[..n] == buf[..3] + buf[3..n];
      len := Seal(buf, n, addr, 3, [|bytes|] + bytes);
    }

    /** apply_modbus_write_to_app: the outcome of saving is logged, not reported. */
    method Apply(addr: u16, value: u16)
      requires Valid() && Writable(addr, value)
      modifies app`cfg, app.ctrl, app.ctrl.filter, app.ctrl.filter.buf, app.store`writes, app.store.mem
      ensures Valid() && app.View() == UpdateConfig(old(app.View()), Changed(old(app.cfg), addr, value)).app
    {
      var tmp := app.cfg;
      if addr == CFG_MARGIN_ON {
        tmp := tmp.(marginOn := ToI16(value));
      } else if addr == CFG_MARGIN_OFF {
        tmp := tmp.(marginOff := ToI16(value));
      } else {
        tmp := tmp.(period := value);
      }
      tmp := Finalize(tmp);
      var err := app.UpdateConfig(tmp);
    }

    /** Function 6. */
    method Write(req: Request, buf: array<byte>) returns (len: nat)
      requires Valid() && req.func == 6 && buf.Length == RESPONSE_SIZE
      requires buf != app.store.mem && buf != server.buf && (app.ctrl.filter.buf as object) != buf
      modifies this`regs, buf
      modifies app`cfg, app.ctrl, app.ctrl.filter, app.ctrl.filter.buf, app.store`writes, app.store.mem
      ensures Valid() && len <= buf.Length
      ensures var answer := AnswerTo(old(regs), req);
        && Sendable(answer) && buf[..len] == Response(req, answer)
        && app.View() == Adopted(old(app.View()), req, answer)
    {
      AnswersAreSendable(regs, req);
      if |req.data| != 4 {
        len := BuildException(req.slave, 6, ILLEGAL_VALUE, buf);
        return;
      }
      var addr, value := Word(req.data[0], req.data[1]), Word(req.data[2], req.data[3]);
      var written := Written(regs, addr, value);
      if written == None {
        len := BuildException(req.slave, 6, ILLEGAL_ADDRESS, buf);
        return;
      }
      len := WriteRegister(req, addr, value, written.value, buf);
    }

    method WriteRegister(req: Request, addr: u16, value: u16, updated: Regs, buf: array<byte>) returns (len: nat)
      requires Valid() && |req.data| == 4 && Writable(addr, value) && buf.Length == RESPONSE_SIZE
      requires buf != app.store.mem && buf != server.buf && (app.ctrl.filter.buf as object) != buf
      modifies this`regs, buf
      modifies app`cfg, app.ctrl, app.ctrl.filter, app.ctrl.filter.buf, app.store`writes, app.store.mem
      ensures Valid() && len <= buf.Length && buf[..len] == Frame(req.slave, 6, req.data)
      ensures app.View() == UpdateConfig(old(app.View()), Changed(old(app.cfg), addr, value)).app
    {
      regs := updated;
      Apply(addr, value);
      len := EchoInto(req, buf);
    }

    method EchoInto(req: Request, buf: array<byte>) returns (len: nat)
      requires |req.data| == 4 && buf.Length == RESPONSE_SIZE
      modifies buf
      ensures len <= buf.Length && buf[..len] == Frame(req.slave, 6, req.data)
    {
      buf[0] := req.slave;
      buf[1] := 6;
      buf[2] := req.data[0];
      buf[3] := req.data[1];
      buf[4] := req.data[2];
      buf[5] := req.data[3];
      assert buf[..6] == [req.slave, 6] + req.data;
      len := Seal(buf, 6, req.slave, 6, req.data);
    }

    /** The request is served into `buf` from the register map as it stands. */
    method ServeInto(req: Request, buf: array<byte>) returns (len: nat)
      requires Valid() && buf.Length == RESPONSE_SIZE
      requires buf != app.store.mem && buf != server.buf && (app.ctrl.filter.buf as object) != buf
      modifies this`regs, buf
      modifies app`cfg, app.ctrl, app.ctrl.filter, app.ctrl.filter.buf, app.store`writes, app.store.mem
      ensures Valid() && len <= buf.Length
      ensures var answer := AnswerTo(old(regs), req);
        && Sendable(answer) && buf[..len] == Response(req, answer)
        && app.View() == Adopted(old(app.View()), req, answer)
    {
      AnswersAreSendable(regs, req);
      if req.func == 3 {
        len := Read(req, buf);
      } else if req.func == 6 {
        len := Write(req, buf);
      } else {
        len := BuildException(req.slave, req.func, ILLEGAL_FUNCTION, buf);
      }
    }

    /** handle_modbus_request */
    method Handle(req: Request, d: Diagnostics)
      requires Valid()
      modifies this`regs, this`sent
      modifies app`cfg, app.ctrl, app.ctrl.filter, app.ctrl.filter.buf, app.store`writes, app.store.mem
      ensures Valid()
      ensures var s := Serve(old(app.View()), req, d);
        app.View() == s.app && sent == old(sent) + [s.response]
    {
      var buf := new byte[RESPONSE_SIZE](_ => 0);
      Sync(d);
      var len := ServeInto(req, buf);
      if len > 0 {
        sent := sent + [buf[..len]];
      }
    }

    /** modbus_task, once the interrupts have left their event: only a request is served, and
    the event is cleared in every case. */
    method Poll(d: Diagnostics)
      requires Valid()
      modifies this`regs, this`sent, server`event, server`parseError
      modifies app`cfg, app.ctrl, app.ctrl.filter, app.ctrl.filter.buf, app.store`writes, app.store.mem
      ensures Valid() && server.event == ModbusServer.NoEvent
      ensures old(server.event) == ModbusServer.RequestReady ==>
        var s := Serve(old(app.View()), old(server.request), d);
        app.View() == s.app && sent == old(sent) + [s.response]
      ensures old(server.event) != ModbusServer.RequestReady ==> app.View() == old(app.View()) && sent == old(sent)
    {
      if server.event == ModbusServer.RequestReady {
        Handle(server.request, d);
      }
      server.ClearEvent();
    }

    /** From the line to the reply: a chunk arrives in the interrupt, the task runs. */
    method OnFrame(frame: seq<byte>, d: Diagnostics)
      requires Valid()
      modifies this`regs, this`sent, server`event, server`parseError, server`request
      modifies server`frameCount, server`errorCount
      modifies app`cfg, app.ctrl, app.ctrl.filter, app.ctrl.filter.buf, app.store`writes, app.store.mem
      ensures Valid() && server.event == ModbusServer.NoEvent
      ensures var r := React(old(app.View()), frame, server.slave, d);
        app.View() == r.app && sent == old(sent) + r.sent
    {
      ghost var before := server.Told();
      server.OnChunk(frame);
      PollParsed(before, Parse(frame, server.slave), d);
    }

    /** The task, after a frame was parsed. */
    method PollParsed(ghost before: ModbusServer.Report, ghost p: Parsed, d: Diagnostics)
      requires Valid() && server.Told() == ModbusServer.Heard(before, p) && (p.err == Ok ==> p.out.Some?)
      modifies this`regs, this`sent, server`event, server`parseError
      modifies app`cfg, app.ctrl, app.ctrl.filter, app.ctrl.filter.buf, app.store`writes, app.store.mem
      ensures Valid() && server.event == ModbusServer.NoEvent
      ensures var r := ReactToParsed(old(app.View()), p, d);
        app.View() == r.app && sent == old(sent) + r.sent
    {
      Poll(d);
    }

    /** All chunks of one interrupt, then the task. */
    method OnChunks(chunks: seq<seq<byte>>, d: Diagnostics)
      requires Valid() && server.event == ModbusServer.NoEvent
      modifies this`regs, this`sent, server`event, server`parseError, server`request
      modifies server`frameCount, server`errorCount
      modifies app`cfg, app.ctrl, app.ctrl.filter, app.ctrl.filter.buf, app.store`writes, app.store.mem
      ensures Valid() && server.event == ModbusServer.NoEvent
      ensures var r := ReactToChunks(old(app.View()), chunks, server.slave, d);
        app.View() == r.app && sent == old(sent) + r.sent
    {
      if chunks == [] {
        Poll(d);
      } else {
        var last := |chunks| - 1;
        for i := 0 to last
          invariant Valid() && app.View() == old(app.View()) && sent == old(sent)
        {
          server.OnChunk(chunks[i]);
        }
        OnFrame(chunks[last], d);
      }
    }
  }
}
