/** The circular DMA receive buffer and its IDLE-line handler (src/bsp/stm32f1/uart.c:46-50,
172-209).  The DMA counter is an input of the handler; bytes are written by hardware. */
module DmaReceiver {
  import opened Words
  import opened Ring

  function Flatten(chunks: seq<seq<byte>>): seq<byte> {
    if chunks == [] then [] else Flatten(chunks[..|chunks| - 1]) + chunks[|chunks| - 1]
  }

  lemma FlattenAppend(chunks: seq<seq<byte>>, c: seq<byte>)
    ensures Flatten(chunks + [c]) == Flatten(chunks) + c
  {
    assert (chunks + [c])[..|chunks|] == chunks;
  }

  predicate NoneEmpty(chunks: seq<seq<byte>>) {
    forall i :: 0 <= i < |chunks| ==> chunks[i] != []
  }

  /** What the handler can still hand over: a multiple of the ring size is lost. */
  function Survivors(pending: seq<byte>): (s: seq<byte>)
    ensures |s| == |pending| % SIZE
  {
    pending[|pending| - |pending| % SIZE..]
  }

  /** The chunks in which a stretch of fewer than 256 bytes is handed over, when it starts at
  ring position `last`: it is cut where it crosses the edge of the ring. */
  function Chunks(last: Cell, rest: seq<byte>): (c: seq<seq<byte>>) {
    if rest == [] then []
    else if last + |rest| <= SIZE then [rest]
    else [rest[..SIZE - last], rest[SIZE - last..]]
  }

  lemma ChunksJoin(last: Cell, rest: seq<byte>, before: seq<seq<byte>>)
    ensures Flatten(before + Chunks(last, rest)) == Flatten(before) + rest
    ensures |rest| < SIZE ==> NoneEmpty(Chunks(last, rest))
  {
    if rest == [] {
      assert before + Chunks(last, rest) == before;
    } else if last + |rest| <= SIZE {
      FlattenAppend(before, rest);
    } else {
      var head, tail := rest[..SIZE - last], rest[SIZE - last..];
      FlattenAppend(before, head);
      FlattenAppend(before + [head], tail);
      assert before + Chunks(last, rest) == before + [head] + [tail];
      assert Flatten(before) + head + tail == Flatten(before) + (head + tail);
    }
  }

  /** The stretch of the ring from the old position to the new one, cut at the edge. */
  lemma SplitSurvivors(ring: seq<byte>, last: Cell, current: Cell, rest: seq<byte>)
    requires |ring| == SIZE && |rest| < SIZE && current == Slot(last, |rest|)
    requires forall j :: 0 <= j < |rest| ==> ring[Slot(last, j)] == rest[j]
    ensures Chunks(last, rest) ==
      if current == last then []
      else if current > last then [ring[last..current]]
      else if current > 0 then [ring[last..SIZE], ring[0..current]]
      else [ring[last..SIZE]]
  {
    var end := last + |rest|;
    assert current == if end < SIZE then end else end - SIZE;
    forall j | 0 <= j < |rest|
      ensures Slot(last, j) == if last + j < SIZE then last + j else last + j - SIZE
    {
    }
    if current > last {
      assert rest == ring[last..current];
    } else if current < last {
      assert rest[..SIZE - last] == ring[last..SIZE];
      assert rest[SIZE - last..] == ring[0..current];
      assert current == 0 ==> rest == rest[..SIZE - last];
    }
  }

  class Receiver {
    const ring: array<byte>

    /** Where the hardware writes next, and where the handler stopped last. */
    var dmaPos: nat
    var lastPos: Cell

    /** Chunks handed to the callback. */
    var delivered: seq<seq<byte>>

    /** Bytes received since the last handler run. */
    ghost var pending: seq<byte>

    ghost predicate Valid()
      reads this, ring
    {
      && ring.Length == SIZE
      && dmaPos == Slot(lastPos, |pending|)
      && forall k :: 0 <= k < |pending| <= k + SIZE ==> ring[Slot(lastPos, k)] == pending[k]
    }

    constructor ()
      ensures Valid() && fresh(ring) && pending == [] && delivered == [] && lastPos == 0
    {
      ring := new byte[SIZE](_ => 0);
      dmaPos, lastPos, delivered, pending := 0, 0, [], [];
    }

    /** The hardware stores one byte. */
    method Receive(b: byte)
      requires Valid()
      modifies this`dmaPos, this`pending, ring
      ensures Valid() && pending == old(pending) + [b]
    {
      ring[dmaPos] := b;
      ghost var n := |pending|;
      pending := pending + [b];
      dmaPos := if dmaPos + 1 == SIZE then 0 else dmaPos + 1;
      forall k | 0 <= k < n <= k + SIZE - 1
        ensures Slot(lastPos, k) != Slot(lastPos, n)
      {
        SlotsDiffer(lastPos, k, n);
      }
    }

    /** CNDTR5 counts down from the buffer size. */
    function Counter(): nat
      requires Valid()
      reads this, ring
    {
      SIZE - dmaPos
    }

    /** USART1_IRQHandler on an idle line: the bytes since the last run, less a multiple of the
    ring size, in one chunk, or in two where they cross the edge of the ring. */
    method Idle(cndtr: nat)
      requires Valid() && cndtr == Counter()
      modifies this`lastPos, this`delivered, this`pending
      ensures Valid() && pending == [] && lastPos == Slot(old(lastPos), |old(pending)|)
      ensures delivered == old(delivered) + Chunks(old(lastPos), Survivors(old(pending)))
    {
      var current := SIZE - cndtr;
      ghost var rest := Survivors(pending);
      Positions();
      SplitSurvivors(ring[..], lastPos, current, rest);
      HandOver(current);
      lastPos := current;
      pending := [];
    }

    /** The stretches of the ring between the old position and the new one. */
    method HandOver(current: Cell)
      requires Valid()
      modifies this`delivered
      ensures delivered == old(delivered) +
        if current == lastPos then []
        else if current > lastPos then [ring[..][lastPos..current]]
        else if current > 0 then [ring[..][lastPos..SIZE], ring[..][0..current]]
        else [ring[..][lastPos..SIZE]]
    {
      if current != lastPos {
        if current > lastPos {
          Callback(ring[lastPos..current]);
        } else {
          Callback(ring[lastPos..SIZE]);
          if current > 0 {
            Callback(ring[0..current]);
          }
        }
      }
    }

    method Callback(chunk: seq<byte>)
      modifies this`delivered
      ensures delivered == old(delivered) + [chunk]
    {
      delivered := delivered + [chunk];
    }

    /** The survivors lie in the ring from the old position on, wrapping once at most. */
    ghost method Positions()
      requires Valid()
      ensures var rest := Survivors(pending);
        && dmaPos == Slot(lastPos, |rest|)
        && forall j :: 0 <= j < |rest| ==> ring[Slot(lastPos, j)] == rest[j]
    {
      var r := |pending| % SIZE;
      var m := |pending| - r;
      SlotsRepeat(lastPos, m, r);
      forall j | 0 <= j < r
        ensures ring[Slot(lastPos, j)] == Survivors(pending)[j]
      {
        SlotsRepeat(lastPos, m, j);
      }
    }
  }

  // ---------- whole runs ----------

  datatype LineEvent = Byte(b: byte) | IdleLine

  /** Everything received, the bytes since the latest idle line, the stream handed to the
  callback, its chunks, and where in the ring the handler stopped last. */
  datatype Line = Line(
    received: seq<byte>, waiting: seq<byte>, handed: seq<byte>, delivered: seq<seq<byte>>, last: Cell)

  function Step(l: Line, e: LineEvent): Line {
    match e
    case Byte(b) => l.(received := l.received + [b], waiting := l.waiting + [b])
    case IdleLine =>
      var rest := Survivors(l.waiting);
      Line(l.received, [], l.handed + rest, l.delivered + Chunks(l.last, rest), Slot(l.last, |l.waiting|))
  }

  function Run(l: Line, events: seq<LineEvent>): Line {
    if events == [] then l else Step(Run(l, events[..|events| - 1]), events[|events| - 1])
  }

  lemma {:induction false} RunJoins(l: Line, first: seq<LineEvent>, second: seq<LineEvent>)
    ensures Run(l, first + second) == Run(Run(l, first), second)
  {
    if second == [] {
      assert first + second == first;
    } else {
      var p := second[..|second| - 1];
      RunJoins(l, first, p);
      assert (first + second)[..|first + second| - 1] == first + p;
    }
  }

  const QUIET := Line([], [], [], [], 0)

  /** s is what is left of t after some of its elements were taken out. */
  predicate Selection(s: seq<byte>, t: seq<byte>) {
    s == [] || (t != [] && (
      || Selection(s, t[..|t| - 1])
      || (s[|s| - 1] == t[|t| - 1] && Selection(s[..|s| - 1], t[..|t| - 1]))))
  }

  lemma SelectionGrows(s: seq<byte>, t: seq<byte>, b: byte)
    requires Selection(s, t)
    ensures Selection(s + [b], t + [b])
  {
    assert (s + [b])[..|s|] == s && (t + [b])[..|t|] == t;
  }

  lemma SelectionSkips(s: seq<byte>, t: seq<byte>, b: byte)
    requires Selection(s, t)
    ensures Selection(s, t + [b])
  {
    assert (t + [b])[..|t|] == t;
  }

  lemma {:induction false} SelectionShrinks(s: seq<byte>, t: seq<byte>, a: seq<byte>, b: seq<byte>, c: seq<byte>)
    requires s == a + b + c && Selection(s, t)
    ensures Selection(a + c, t)
    decreases |t|
  {
    if t == [] || s == [] {
      assert a + c == [];
    } else {
      var p := t[..|t| - 1];
      if Selection(s, p) {
        SelectionShrinks(s, p, a, b, c);
      } else if c != [] {
        assert s[..|s| - 1] == a + b + c[..|c| - 1];
        SelectionShrinks(s[..|s| - 1], p, a, b, c[..|c| - 1]);
        assert (a + c)[..|a + c| - 1] == a + c[..|c| - 1];
      } else if b != [] {
        assert s[..|s| - 1] == a + b[..|b| - 1] + c;
        SelectionShrinks(s[..|s| - 1], p, a, b[..|b| - 1], c);
      } else {
        assert a + c == s;
      }
    }
  }

  /** Lost or not, what is handed over and still waiting was received, in that order; the
  chunks are that stream; and the ring position counts the bytes received. */
  predicate Consistent(l: Line) {
    && Selection(l.handed + l.waiting, l.received)
    && Flatten(l.delivered) == l.handed
    && Slot(l.last, |l.waiting|) == Slot(0, |l.received|)
  }

  lemma ByteKeepsConsistent(l: Line, b: byte)
    requires Consistent(l)
    ensures Consistent(Step(l, Byte(b)))
  {
    assert l.handed + (l.waiting + [b]) == l.handed + l.waiting + [b];
    SelectionGrows(l.handed + l.waiting, l.received, b);
    NextSlot(l.last, |l.waiting|);
  }

  lemma IdleKeepsConsistent(l: Line)
    requires Consistent(l)
    ensures Consistent(Step(l, IdleLine))
  {
    var h, w := l.handed, l.waiting;
    var cut := |w| - |Survivors(w)|;
    assert h + w == h + w[..cut] + w[cut..];
    SelectionShrinks(h + w, l.received, h, w[..cut], w[cut..]);
    assert h + w[cut..] + [] == h + w[cut..];
    ChunksJoin(l.last, w[cut..], l.delivered);
  }

  lemma {:induction false} RunKeepsConsistent(l: Line, events: seq<LineEvent>)
    requires Consistent(l)
    ensures Consistent(Run(l, events))
  {
    if events == [] {
    } else {
      var p := events[..|events| - 1];
      RunKeepsConsistent(l, p);
      match events[|events| - 1]
      case Byte(b) => ByteKeepsConsistent(Run(l, p), b);
      case IdleLine => IdleKeepsConsistent(Run(l, p));
    }
  }

  lemma QuietIsConsistent()
    ensures Consistent(QUIET)
  {
  }

  /** Every idle line comes before the ring has filled up again. */
  predicate ServedInTime(events: seq<LineEvent>) {
    forall i :: 0 <= i < |events| && events[i] == IdleLine ==> |Run(QUIET, events[..i]).waiting| < SIZE
  }

  lemma ServedPrefix(events: seq<LineEvent>)
    requires events != []
    ensures ServedInTime(events) <==>
      && ServedInTime(events[..|events| - 1])
      && (events[|events| - 1] == IdleLine ==> |Run(QUIET, events[..|events| - 1]).waiting| < SIZE)
  {
    var p := events[..|events| - 1];
    assert forall i :: 0 <= i < |p| ==> p[..i] == events[..i];
  }

  /** Nothing lost, or something lost. */
  predicate Complete(l: Line) { l.handed + l.waiting == l.received }

  predicate Short(l: Line) { |l.handed| + |l.waiting| < |l.received| }

  lemma StepAccounts(l: Line, e: LineEvent)
    ensures Complete(l) && (e == IdleLine ==> |l.waiting| < SIZE) ==> Complete(Step(l, e))
    ensures Complete(l) && e == IdleLine && |l.waiting| >= SIZE ==> Short(Step(l, e))
    ensures Short(l) ==> Short(Step(l, e))
  {
    match e
    case Byte(b) => assert l.handed + (l.waiting + [b]) == l.handed + l.waiting + [b];
    case IdleLine =>
      SurvivorsOf(l.waiting);
      assert |l.handed + l.waiting| == |l.handed| + |l.waiting|;
  }

  lemma SurvivorsOf(pending: seq<byte>)
    ensures |pending| < SIZE ==> Survivors(pending) == pending
    ensures |pending| >= SIZE ==> |Survivors(pending)| < |pending|
  {
  }

  lemma {:induction false} ServedMeansComplete(events: seq<LineEvent>)
    ensures var l := Run(QUIET, events); if ServedInTime(events) then Complete(l) else Short(l)
  {
    if events == [] {
    } else {
      var p := events[..|events| - 1];
      ServedMeansComplete(p);
      ServedPrefix(events);
      StepAccounts(Run(QUIET, p), events[|events| - 1]);
    }
  }

  /** The callback sees exactly the received stream, across ring wrap-arounds, if and only if
  fewer than 256 bytes arrive between any two handler runs; otherwise it sees less, but
  nothing that was not received, and nothing out of order. */
  lemma StreamIntactIff(events: seq<LineEvent>)
    ensures var l := Run(QUIET, events);
      && (Flatten(l.delivered) + l.waiting == l.received <==> ServedInTime(events))
      && Selection(Flatten(l.delivered) + l.waiting, l.received)
  {
    QuietIsConsistent();
    RunKeepsConsistent(QUIET, events);
    ServedMeansComplete(events);
  }

  // ---------- whole bursts and cut ones ----------

  function Burst(bytes: seq<byte>): (e: seq<LineEvent>)
    ensures |e| == |bytes|
  {
    seq(|bytes|, i requires 0 <= i < |bytes| => Byte(bytes[i]))
  }

  lemma {:induction false} BurstWaits(l: Line, bytes: seq<byte>)
    ensures Run(l, Burst(bytes)) == l.(received := l.received + bytes, waiting := l.waiting + bytes)
  {
    if bytes == [] {
    } else {
      var p := bytes[..|bytes| - 1];
      BurstWaits(l, p);
      assert Burst(bytes)[..|bytes| - 1] == Burst(p);
      assert l.received + bytes == l.received + p + [bytes[|bytes| - 1]];
      assert l.waiting + bytes == l.waiting + p + [bytes[|bytes| - 1]];
    }
  }

  /** A burst of bytes, closed by an idle line. */
  function Message(bytes: seq<byte>): seq<LineEvent> { Burst(bytes) + [IdleLine] }

  lemma MessageStep(l: Line, bytes: seq<byte>)
    requires l.waiting == []
    ensures Run(l, Message(bytes)) == Step(l.(received := l.received + bytes, waiting := bytes), IdleLine)
  {
    BurstWaits(l, bytes);
    assert Message(bytes)[..|bytes|] == Burst(bytes);
    assert [] + bytes == bytes;
  }

  /** A burst of fewer than 256 bytes is handed over in one piece exactly when it does not
  cross the edge of the ring, which depends only on how many bytes came before it; otherwise
  it is cut into two pieces at the edge. */
  lemma BurstIsWholeIff(events: seq<LineEvent>, bytes: seq<byte>)
    requires Run(QUIET, events).waiting == [] && 0 < |bytes| < SIZE
    ensures var l := Run(QUIET, events);
      var after, at := Run(l, Message(bytes)), Slot(0, |l.received|);
      && after.waiting == [] && after.received == l.received + bytes
      && after.delivered == l.delivered + Chunks(at, bytes)
      && (after.delivered == l.delivered + [bytes] <==> at + |bytes| <= SIZE)
  {
    QuietIsConsistent();
    RunKeepsConsistent(QUIET, events);
    MessageIsWholeIff(Run(QUIET, events), bytes);
  }

  lemma MessageIsWholeIff(l: Line, bytes: seq<byte>)
    requires Consistent(l) && l.waiting == [] && 0 < |bytes| < SIZE
    ensures var after, at := Run(l, Message(bytes)), Slot(0, |l.received|);
      && Consistent(after) && after.waiting == [] && after.received == l.received + bytes
      && after.delivered == l.delivered + Chunks(at, bytes)
      && (after.delivered == l.delivered + [bytes] <==> at + |bytes| <= SIZE)
  {
    RunKeepsConsistent(l, Message(bytes));
    HandlerPosition(l);
    MessageStep(l, bytes);
    BurstStep(l, bytes);
  }

  /** The line after a message, for a line that was quiet. */
  lemma MessageAfter(events: seq<LineEvent>, bytes: seq<byte>)
    requires Run(QUIET, events).waiting == [] && 0 < |bytes| < SIZE
    ensures var before, after := Run(QUIET, events), Run(QUIET, events + Message(bytes));
      && after.waiting == [] && |after.received| == |before.received| + |bytes|
      && NewChunks(before, after) == Chunks(Slot(0, |before.received|), bytes)
  {
    RunJoins(QUIET, events, Message(bytes));
    BurstIsWholeIff(events, bytes);
    var l, c := Run(QUIET, events), Chunks(Slot(0, |Run(QUIET, events).received|), bytes);
    assert (l.delivered + c)[|l.delivered|..] == c;
  }

  lemma HandlerPosition(l: Line)
    requires Consistent(l) && l.waiting == []
    ensures l.last == Slot(0, |l.received|)
  {
    assert Slot(l.last, 0) == l.last;
  }

  lemma BurstStep(l: Line, bytes: seq<byte>)
    requires 0 < |bytes| < SIZE
    ensures var after := Step(l.(received := l.received + bytes, waiting := bytes), IdleLine);
      && after.waiting == [] && after.received == l.received + bytes
      && after.delivered == l.delivered + Chunks(l.last, bytes)
      && (after.delivered == l.delivered + [bytes] <==> l.last + |bytes| <= SIZE)
  {
    SurvivorsOf(bytes);
    WholeIff(l.delivered, l.last, bytes);
  }

  lemma WholeIff(before: seq<seq<byte>>, at: Cell, bytes: seq<byte>)
    requires bytes != []
    ensures before + Chunks(at, bytes) == before + [bytes] <==> at + |bytes| <= SIZE
  {
    if at + |bytes| > SIZE {
      assert |before + Chunks(at, bytes)| == |before| + 2;
    }
  }

  /** The chunks handed over since then. */
  function NewChunks(before: Line, after: Line): seq<seq<byte>> {
    if |before.delivered| <= |after.delivered| then after.delivered[|before.delivered|..] else []
  }

  /** For example: after 250 bytes an eight-byte request arrives as six bytes and two. */
  lemma RequestIsCut(first: seq<byte>, request: seq<byte>)
    requires |first| == 250 && |request| == 8
    ensures Run(Run(QUIET, Message(first)), Message(request)).delivered == [first, request[..6], request[6..]]
  {
    BurstIsWholeIff([], first);
    BurstIsWholeIff(Message(first), request);
    assert [] + first == first;
  }

  /** The ring with its handler realises all this. */
  method RunLine(events: seq<LineEvent>) returns (r: Receiver)
    ensures r.Valid()
    ensures var l := Run(QUIET, events);
      r.delivered == l.delivered && r.pending == l.waiting && r.lastPos == l.last
  {
    r := new Receiver();
    for i := 0 to |events|
      invariant r.Valid() && fresh(r) && fresh(r.ring)
      invariant var l := Run(QUIET, events[..i]);
        r.delivered == l.delivered && r.pending == l.waiting && r.lastPos == l.last
    {
      assert events[..i + 1][..i] == events[..i];
      match events[i]
      case Byte(b) => r.Receive(b);
      case IdleLine => r.Idle(r.Counter());
    }
    assert events[..|events|] == events;
  }
}
