/** The polled Modbus server: bytes are collected until the line falls silent, then handed to
the request parser as one frame (src/service/modbus_server.c). */
module ModbusServer {
  import opened Words
  import opened Lfsr
  import opened Modbus
  import DmaReceiver

  const MAX_FRAME: nat := 256
  const BURST: nat := 16

  // ---------- the frame assembler as a function ----------

  /** Collected bytes, time of the latest, frames handed to the parser, bytes consumed, and
  the number of overflows. */
  datatype Assembly = Assembly(
    pending: seq<byte>, last: u32, frames: seq<seq<byte>>, consumed: seq<byte>, overflows: nat)

  /** (int32_t)(now - last) >= (int32_t)silence */
  predicate SilenceOver(now: u32, last: u32, silence: u32) {
    ToI32(now - last) >= ToI32(silence)
  }

  /** One byte that still fits. */
  function Collect(a: Assembly, b: byte, now: u32): Assembly {
    a.(pending := a.pending + [b], last := now, consumed := a.consumed + [b])
  }

  /** One byte too many: the byte and everything collected so far are dropped. */
  function Overflow(a: Assembly, b: byte): Assembly {
    a.(pending := [], consumed := a.consumed + [b], overflows := a.overflows + 1)
  }

  /** Reading: whether it ended in an overflow, and what it left. */
  function Read(a: Assembly, bytes: seq<byte>, now: u32): (bool, Assembly)
    decreases |bytes|
  {
    if bytes == [] then (false, a)
    else if |a.pending| >= MAX_FRAME then (true, Overflow(a, bytes[0]))
    else Read(Collect(a, bytes[0], now), bytes[1..], now)
  }

  function Offered(available: seq<byte>): seq<byte> {
    if |available| <= BURST then available else available[..BURST]
  }

  function Release(a: Assembly, now: u32, silence: u32): Assembly {
    if a.pending != [] && SilenceOver(now, a.last, silence)
    then a.(frames := a.frames + [a.pending], pending := [])
    else a
  }

  /** modbus_server_task: `available` are the bytes the receive function hands out in this
  poll before it reports that there is none. */
  function Poll(a: Assembly, available: seq<byte>, now: u32, silence: u32): Assembly {
    var (overflow, b) := Read(a, Offered(available), now);
    if overflow then b else Release(b, now, silence)
  }

  datatype PollInput = PollInput(available: seq<byte>, now: u32)

  const EMPTY := Assembly([], 0, [], [], 0)

  function Polls(silence: u32, h: seq<PollInput>): Assembly {
    if h == [] then EMPTY
    else
      var p, e := h[..|h| - 1], h[|h| - 1];
      Poll(Polls(silence, p), e.available, e.now, silence)
  }

  // ---------- conservation ----------

  /** Every byte consumed is in a frame, still pending, or was dropped by an overflow, which
  costs the 256 collected bytes and the one that did not fit; what remains is in the order in
  which it was consumed. */
  predicate Accounted(a: Assembly) {
    && |a.pending| <= MAX_FRAME
    && |DmaReceiver.Flatten(a.frames)| + |a.pending| + (MAX_FRAME + 1) * a.overflows == |a.consumed|
    && (a.overflows == 0 ==> DmaReceiver.Flatten(a.frames) + a.pending == a.consumed)
    && DmaReceiver.Selection(DmaReceiver.Flatten(a.frames) + a.pending, a.consumed)
    && forall i :: 0 <= i < |a.frames| ==> 0 < |a.frames[i]| <= MAX_FRAME
  }

  lemma CollectKeepsAccount(a: Assembly, b: byte, now: u32)
    requires Accounted(a) && |a.pending| < MAX_FRAME
    ensures Accounted(Collect(a, b, now))
  {
    var f := DmaReceiver.Flatten(a.frames);
    assert f + (a.pending + [b]) == (f + a.pending) + [b];
    DmaReceiver.SelectionGrows(f + a.pending, a.consumed, b);
  }

  lemma OverflowKeepsAccount(a: Assembly, b: byte)
    requires Accounted(a) && |a.pending| == MAX_FRAME
    ensures Accounted(Overflow(a, b))
  {
    var f := DmaReceiver.Flatten(a.frames);
    assert f + a.pending == f + a.pending + [];
    DmaReceiver.SelectionShrinks(f + a.pending, a.consumed, f, a.pending, []);
    assert f + [] == f;
    DmaReceiver.SelectionSkips(f, a.consumed, b);
  }

  lemma {:induction false} ReadKeepsAccount(a: Assembly, bytes: seq<byte>, now: u32)
    requires Accounted(a)
    ensures Accounted(Read(a, bytes, now).1)
    ensures Read(a, bytes, now).1.frames == a.frames
    decreases |bytes|
  {
    if bytes == [] {
    } else if |a.pending| >= MAX_FRAME {
      OverflowKeepsAccount(a, bytes[0]);
    } else {
      CollectKeepsAccount(a, bytes[0], now);
      ReadKeepsAccount(Collect(a, bytes[0], now), bytes[1..], now);
    }
  }

  lemma ReleaseKeepsAccount(a: Assembly, now: u32, silence: u32)
    requires Accounted(a)
    ensures Accounted(Release(a, now, silence))
  {
    DmaReceiver.FlattenAppend(a.frames, a.pending);
    var f := DmaReceiver.Flatten(a.frames);
    assert f + a.pending + [] == f + a.pending;
  }

  lemma {:induction false} PollsAccounted(silence: u32, h: seq<PollInput>)
    ensures Accounted(Polls(silence, h))
  {
    if h == [] {
    } else {
      var p, e := h[..|h| - 1], h[|h| - 1];
      PollsAccounted(silence, p);
      ReadKeepsAccount(Polls(silence, p), Offered(e.available), e.now);
      ReleaseKeepsAccount(Read(Polls(silence, p), Offered(e.available), e.now).1, e.now, silence);
    }
  }

  // ---------- which inputs overflow ----------

  /** Bytes offered since the latest release, whether they fitted or not, and the time of the
  latest: a function of the inputs alone. */
  datatype Gathering = Gathering(count: nat, last: u32)

  function Gather(g: Gathering, e: PollInput, silence: u32): Gathering {
    var n := |Offered(e.available)|;
    var count, last := g.count + n, if n > 0 then e.now else g.last;
    if count > 0 && SilenceOver(e.now, last, silence) then Gathering(0, last) else Gathering(count, last)
  }

  function Gathered(silence: u32, h: seq<PollInput>): Gathering {
    if h == [] then Gathering(0, 0) else Gather(Gathered(silence, h[..|h| - 1]), h[|h| - 1], silence)
  }

  /** Never more than 256 bytes are offered without a release. */
  predicate NeverOverfull(silence: u32, h: seq<PollInput>) {
    forall i :: 0 <= i < |h| ==> FitsAt(silence, h, i)
  }

  predicate FitsAt(silence: u32, h: seq<PollInput>, i: nat)
    requires i < |h|
  {
    Gathered(silence, h[..i]).count + |Offered(h[i].available)| <= MAX_FRAME
  }

  lemma {:induction false} ReadOverflowsIff(a: Assembly, bytes: seq<byte>, now: u32)
    requires |a.pending| <= MAX_FRAME
    ensures var (overflow, b) := Read(a, bytes, now);
      && (overflow <==> |a.pending| + |bytes| > MAX_FRAME)
      && b.overflows == a.overflows + (if overflow then 1 else 0)
      && (!overflow ==> |b.pending| == |a.pending| + |bytes| && b.last == if bytes == [] then a.last else now)
    decreases |bytes|
  {
    if bytes == [] || |a.pending| == MAX_FRAME {
    } else {
      ReadOverflowsIff(Collect(a, bytes[0], now), bytes[1..], now);
    }
  }

  lemma PollGathers(a: Assembly, e: PollInput, silence: u32)
    requires |a.pending| <= MAX_FRAME
    ensures var b := Poll(a, e.available, e.now, silence);
      var fits := |a.pending| + |Offered(e.available)| <= MAX_FRAME;
      && b.overflows == a.overflows + (if fits then 0 else 1)
      && (fits ==> Gathering(|b.pending|, b.last) == Gather(Gathering(|a.pending|, a.last), e, silence))
  {
    ReadOverflowsIff(a, Offered(e.available), e.now);
  }

  lemma {:induction false} OverflowsIff(silence: u32, h: seq<PollInput>)
    ensures var a := Polls(silence, h);
      && |a.pending| <= MAX_FRAME
      && (a.overflows == 0 <==> NeverOverfull(silence, h))
      && (a.overflows == 0 ==> Gathered(silence, h) == Gathering(|a.pending|, a.last))
  {
    if h == [] {
    } else {
      var p, e := h[..|h| - 1], h[|h| - 1];
      OverflowsIff(silence, p);
      PollsAccounted(silence, h);
      PollGathers(Polls(silence, p), e, silence);
      OverfullPrefix(silence, h);
    }
  }

  lemma OverfullPrefix(silence: u32, h: seq<PollInput>)
    requires h != []
    ensures NeverOverfull(silence, h) <==> NeverOverfull(silence, h[..|h| - 1]) && FitsAt(silence, h, |h| - 1)
  {
    var p := h[..|h| - 1];
    assert forall i :: 0 <= i < |p| ==> p[..i] == h[..i];
    assert forall i :: 0 <= i < |p| ==> (FitsAt(silence, p, i) <==> FitsAt(silence, h, i));
  }

  /** The frames followed by the pending bytes are the bytes consumed, in order, exactly as
  long as the inputs never bring more than 256 bytes without a release; frames are never
  empty and never over 256 bytes. */
  lemma FramesConserveBytesIff(silence: u32, h: seq<PollInput>)
    ensures var a := Polls(silence, h);
      && (DmaReceiver.Flatten(a.frames) + a.pending == a.consumed <==> NeverOverfull(silence, h))
      && |a.pending| <= MAX_FRAME
      && forall i :: 0 <= i < |a.frames| ==> 0 < |a.frames[i]| <= MAX_FRAME
  {
    PollsAccounted(silence, h);
    OverflowsIff(silence, h);
    var a := Polls(silence, h);
    assert |DmaReceiver.Flatten(a.frames) + a.pending| == |DmaReceiver.Flatten(a.frames)| + |a.pending|;
  }

  // ---------- when a frame is released ----------

  lemma {:induction false} ReadStampsTime(a: Assembly, bytes: seq<byte>, now: u32)
    requires bytes != [] && !Read(a, bytes, now).0
    ensures Read(a, bytes, now).1.last == now && Read(a, bytes, now).1.frames == a.frames
    decreases |bytes|
  {
    if |bytes| == 1 {
    } else {
      ReadStampsTime(Collect(a, bytes[0], now), bytes[1..], now);
    }
  }

  lemma {:induction false} OverflowReleasesNothing(a: Assembly, bytes: seq<byte>, now: u32)
    ensures Read(a, bytes, now).1.frames == a.frames
    decreases |bytes|
  {
    if bytes == [] || |a.pending| >= MAX_FRAME {
    } else {
      OverflowReleasesNothing(Collect(a, bytes[0], now), bytes[1..], now);
    }
  }

  /** With a silence of 1..2^31-1 ms a frame is released exactly by a poll that finds no byte
  to read while something is pending and the silence has lasted; it is everything pending. */
  lemma ReleasedOnlyWhenIdle(a: Assembly, available: seq<byte>, now: u32, silence: u32)
    requires 0 < silence < 0x8000_0000
    ensures var b := Poll(a, available, now, silence);
      && (b.frames != a.frames <==> available == [] && a.pending != [] && SilenceOver(now, a.last, silence))
      && (b.frames != a.frames ==> b.frames == a.frames + [a.pending] && b.pending == [])
  {
    var bytes := Offered(available);
    OverflowReleasesNothing(a, bytes, now);
    if bytes != [] && !Read(a, bytes, now).0 { ReadStampsTime(a, bytes, now); }
  }

  /** On a true clock the test measures the real silence, as long as gaps and silence stay
  below 2^31 ms. */
  lemma SilenceIsTrue(tLast: nat, t: nat, silence: u32)
    requires tLast <= t < tLast + HALF && silence < HALF
    ensures SilenceOver(Wrap(t), Wrap(tLast), silence) <==> t - tLast >= silence
  {
    DifferenceIsTrue(t, tLast);
    SignIsTrue(silence);
  }

  // ---------- the server ----------

  datatype Event = NoEvent | RequestReady | CrcError | AddressError | FunctionError | LengthError | OverflowEvent

  function EventOf(e: ParseErr): Event {
    match e
    case Ok => RequestReady
    case BadCrc => CrcError
    case BadAddr => AddressError
    case UnsupportedFunc => FunctionError
    case ShortFrame => LengthError
    case BadLength => LengthError
  }

  /** What the server tells its caller. */
  datatype Report = Report(event: Event, request: Request, parseError: ParseErr, frames: u32, errors: u32)

  /** After a frame has been parsed. */
  function Heard(r: Report, p: Parsed): Report {
    var request := Filled(p, r.request);
    if p.err == Ok then Report(RequestReady, request, Ok, Wrap(r.frames + 1), r.errors)
    else Report(EventOf(p.err), request, p.err, r.frames, Wrap(r.errors + 1))
  }

  function Overflowed(r: Report): Report {
    r.(event := OverflowEvent, errors := Wrap(r.errors + 1))
  }

  /** What a poll reports: an overflow, the frame it releases, or nothing new. */
  function PollReport(r: Report, a: Assembly, available: seq<byte>, now: u32, silence: u32, slave: byte): Report {
    var (overflow, b) := Read(a, Offered(available), now);
    if overflow then Overflowed(r)
    else if b.pending != [] && SilenceOver(now, b.last, silence) then Heard(r, Parse(b.pending, slave))
    else r
  }

  /** The event a frame leads to, and the counter it advances. */
  lemma EventTells(r: Report, frame: seq<byte>, own: byte)
    ensures var p := Parse(frame, own);
      var s := Heard(r, p);
      && s.parseError == p.err
      && (s.event == RequestReady <==> p.err == Ok) && (s.event == CrcError <==> p.err == BadCrc)
      && (s.event == AddressError <==> p.err == BadAddr) && (s.event == FunctionError <==> p.err == UnsupportedFunc)
      && (s.event == LengthError <==> p.err == ShortFrame || p.err == BadLength)
      && (if p.err == Ok then s.frames == Wrap(r.frames + 1) && s.errors == r.errors
          else s.frames == r.frames && s.errors == Wrap(r.errors + 1))
  {
  }

  /** An overflow is reported as such and counted as an error. */
  lemma OverflowTells(r: Report, a: Assembly, available: seq<byte>, now: u32, silence: u32, slave: byte)
    requires |a.pending| == 256 && available != []
    ensures PollReport(r, a, available, now, silence, slave) ==
      r.(event := OverflowEvent, errors := Wrap(r.errors + 1))
  {
  }

  /** A poll takes at most sixteen of the bytes on offer, all of them if they are fewer, unless the
  buffer of 256 overflows. */
  lemma PollTakesSixteen(a: Assembly, available: seq<byte>, now: u32, silence: u32)
    requires |a.pending| + 16 <= 256
    ensures var n := if |available| <= 16 then |available| else 16;
      Poll(a, available, now, silence).consumed == a.consumed + available[..n]
  {
    ReadTakesAll(a, Offered(available), now);
  }

  lemma {:induction false} ReadTakesAll(a: Assembly, bytes: seq<byte>, now: u32)
    requires |a.pending| + |bytes| <= MAX_FRAME
    ensures var (overflow, b) := Read(a, bytes, now);
      !overflow && b.consumed == a.consumed + bytes && b.pending == a.pending + bytes
    decreases |bytes|
  {
    if bytes == [] {
      assert a.consumed + bytes == a.consumed && a.pending + bytes == a.pending;
    } else {
      ReadTakesAll(Collect(a, bytes[0], now), bytes[1..], now);
      assert a.consumed + [bytes[0]] + bytes[1..] == a.consumed + bytes;
      assert a.pending + [bytes[0]] + bytes[1..] == a.pending + bytes;
    }
  }

  class Server {
    const buf: array<byte>
    const silence: u32
    const slave: byte
    var len: nat
    var lastByte: u32
    var event: Event
    var request: Request
    var parseError: ParseErr
    var frameCount: u32
    var errorCount: u32
    var overflowCount: u32

    ghost var frames: seq<seq<byte>>
    ghost var consumed: seq<byte>
    ghost var overflows: nat

    ghost predicate Valid()
      reads this, buf
    {
      buf.Length == MAX_FRAME && len <= MAX_FRAME && overflowCount == Wrap(overflows)
    }

    ghost function View(): Assembly
      requires Valid()
      reads this, buf
    {
      Assembly(buf[..len], lastByte, frames, consumed, overflows)
    }

    /** modbus_server_init */
    constructor (slave: byte, silence: u32)
      ensures Valid() && fresh(buf) && View() == EMPTY
      ensures this.slave == slave && this.silence == silence && event == NoEvent
    {
      buf := new byte[MAX_FRAME](_ => 0);
      this.slave, this.silence := slave, silence;
      len, lastByte := 0, 0;
      event, request, parseError := NoEvent, Request(0, 0, []), Ok;
      frameCount, errorCount, overflowCount := 0, 0, 0;
      frames, consumed, overflows := [], [], 0;
    }

    ghost function Told(): Report
      reads this
    {
      Report(event, request, parseError, frameCount, errorCount)
    }

    method CountError()
      modifies this`errorCount
      ensures errorCount == Wrap(old(errorCount) + 1)
    {
      errorCount := Wrap(errorCount + 1);
    }

    /** modbus_uart_event_callback, for a received chunk. */
    method OnChunk(data: seq<byte>)
      modifies this`event, this`request, this`parseError, this`frameCount, this`errorCount
      ensures Told() == Heard(old(Told()), Parse(data, slave))
    {
      ghost var before := Told();
      parseError, request := ParseRequest(data, slave, request);
      Classify(before, Parse(data, slave));
    }

    method Classify(ghost before: Report, ghost p: Parsed)
      requires Told() == before.(parseError := p.err, request := Filled(p, before.request))
      modifies this`event, this`frameCount, this`errorCount
      ensures Told() == Heard(before, p)
    {
      match parseError
      case Ok =>
        frameCount := Wrap(frameCount + 1);
        event := RequestReady;
      case BadCrc => Refuse(CrcError);
      case BadAddr => Refuse(AddressError);
      case UnsupportedFunc => Refuse(FunctionError);
      case ShortFrame => Refuse(LengthError);
      case BadLength => Refuse(LengthError);
    }

    method Refuse(e: Event)
      modifies this`event, this`errorCount
      ensures event == e && errorCount == Wrap(old(errorCount) + 1)
    {
      event := e;
      CountError();
    }

    /** modbus_uart_event_callback, for a line error. */
    method OnLineError()
      modifies this`event, this`errorCount
      ensures Told() == old(Told()).(event := CrcError, errors := Wrap(old(errorCount) + 1))
    {
      CountError();
      event := CrcError;
    }

    method StoreByte(b: byte, now: u32)
      requires Valid() && len < MAX_FRAME
      modifies this`len, this`lastByte, this`consumed, buf
      ensures Valid() && View() == Collect(old(View()), b, now)
    {
      buf[len] := b;
      len := len + 1;
      lastByte := now;
      consumed := consumed + [b];
      assert buf[..len] == old(buf[..len]) + [b];
    }

    method DropAll(b: byte)
      requires Valid()
      modifies this`len, this`event, this`errorCount, this`overflowCount, this`overflows, this`consumed
      ensures Valid() && View() == Overflow(old(View()), b) && Told() == Overflowed(old(Told()))
    {
      overflowCount := Wrap(overflowCount + 1);
      overflows := overflows + 1;
      CountError();
      len := 0;
      consumed := consumed + [b];
      event := OverflowEvent;
    }

    /** modbus_server_task: what is read and released, and what is reported, is as specified. */
    method Task(now: u32, available: seq<byte>)
      requires Valid()
      modifies this, buf
      ensures Valid() && View() == Poll(old(View()), available, now, silence)
      ensures Told() == PollReport(old(Told()), old(View()), available, now, silence, slave)
    {
      var overflow := ReadAvailable(now, available);
      if !overflow {
        ReleaseFrame(now);
      }
    }

    /** The reading loop. */
    method ReadAvailable(now: u32, available: seq<byte>) returns (overflow: bool)
      requires Valid()
      modifies this`len, this`lastByte, this`event, this`errorCount
      modifies this`overflowCount, this`overflows, this`consumed, buf
      ensures Valid() && (overflow, View()) == Read(old(View()), Offered(available), now)
      ensures Told() == if overflow then Overflowed(old(Told())) else old(Told())
    {
      var n := if |available| < BURST then |available| else BURST;
      ghost var bytes := Offered(available);
      var i := 0;
      while i < n
        invariant 0 <= i <= n && Valid()
        invariant Read(old(View()), bytes, now) == Read(View(), bytes[i..], now)
        invariant Told() == old(Told())
      {
        if len >= MAX_FRAME {
          DropAll(available[i]);
          return true;
        }
        StoreByte(available[i], now);
        assert bytes[i..][1..] == bytes[i + 1..];
        i := i + 1;
      }
      assert bytes[n..] == [];
      return false;
    }

    /** The silence test. */
    method ReleaseFrame(now: u32)
      requires Valid()
      modifies this`len, this`event, this`request, this`parseError, this`frameCount, this`errorCount, this`frames
      ensures Valid() && View() == Release(old(View()), now, silence)
      ensures Told() ==
        if old(len) > 0 && SilenceOver(now, lastByte, silence)
        then Heard(old(Told()), Parse(old(buf[..len]), slave)) else old(Told())
    {
      if len > 0 && SilenceOver(now, lastByte, silence) {
        var frame := buf[..len];
        len := 0;
        frames := frames + [frame];
        OnChunk(frame);
        assert buf[..0] == [];
      }
    }

    /** modbus_server_clear_event */
    method ClearEvent()
      modifies this`event, this`parseError
      ensures event == NoEvent && parseError == Ok
    {
      event := NoEvent;
      parseError := Ok;
    }
  }

  // ---------- from the line to the event ----------

  /** A request frame damaged in transit, by a burst of up to 16 bits, an odd number of bits,
  or up to three bits, never becomes a request. */
  lemma DamagedFrameIsNoRequest(sent: seq<byte>, received: seq<byte>, own: byte, start: nat, len: nat)
    requires FrameValid(sent) && |received| == |sent| && received != sent
    requires
      || (len <= 16 && AgreeOutside(MessageBits(sent), MessageBits(received), start, len))
      || CountDiff(MessageBits(sent), MessageBits(received)) % 2 == 1
      || (|sent| <= MAX_FRAME && 1 <= CountDiff(MessageBits(sent), MessageBits(received)) <= 3)
    ensures EventOf(Parse(received, own).err) != RequestReady && Parse(received, own).out == None
  {
    if len <= 16 && AgreeOutside(MessageBits(sent), MessageBits(received), start, len) {
      BurstIsDetected(sent, received, start, len);
    } else if CountDiff(MessageBits(sent), MessageBits(received)) % 2 == 1 {
      OddErrorIsDetected(sent, received);
    } else {
      UpToThreeErrorsAreDetected(sent, received);
    }
  }
}
