/** The logger: a ring of 256 characters drained in chunks, and the decimal printers
(src/service/logger.c). */
module Logger {
  import opened Words
  import opened Ring

  const CHUNK: nat := 32

  // ---------- the stream as a value ----------

  /** Characters waiting, characters written out, and how many were dropped. */
  datatype Log = Log(queue: seq<char>, output: seq<char>, dropped: nat)

  /** How many of n characters still fit. */
  function Room(l: Log, n: nat): (k: nat)
    ensures k <= n
  {
    if |l.queue| + n <= SIZE then n else if |l.queue| <= SIZE then SIZE - |l.queue| else 0
  }

  /** A text is offered: what fits is queued, the rest is dropped. */
  function Offer(l: Log, s: seq<char>): Log {
    var k := Room(l, |s|);
    l.(queue := l.queue + s[..k], dropped := l.dropped + (|s| - k))
  }

  function Drain(l: Log, n: nat): Log {
    var k := if n <= |l.queue| then n else |l.queue|;
    l.(queue := l.queue[k..], output := l.output + l.queue[..k])
  }

  /** Offering two texts in turn is offering them joined. */
  lemma OfferJoins(l: Log, a: seq<char>, b: seq<char>)
    requires |l.queue| <= SIZE
    ensures Offer(Offer(l, a), b) == Offer(l, a + b)
  {
    var j, k := Room(l, |a|), Room(Offer(l, a), |b|);
    assert (a + b)[..Room(l, |a + b|)] == a[..j] + b[..k];
    assert l.queue + a[..j] + b[..k] == l.queue + (a[..j] + b[..k]);
  }

  /** The ring holds 256 characters: what does not fit behind those waiting is dropped. */
  lemma RingHolds256(l: Log, s: seq<char>)
    requires |l.queue| <= 256
    ensures var m := Offer(l, s);
      && |m.queue| == (if |l.queue| + |s| <= 256 then |l.queue| + |s| else 256)
      && m.queue == (l.queue + s)[..|m.queue|]
      && m.dropped == l.dropped + (|l.queue| + |s| - |m.queue|)
  {
  }

  /** A call writes 32 characters, or all that wait. */
  lemma TaskWrites32(l: Log)
    ensures var m := Act(l, Task);
      var n := if |l.queue| <= 32 then |l.queue| else 32;
      m.output == l.output + l.queue[..n] && m.queue == l.queue[n..] && m.dropped == l.dropped
  {
  }

  datatype Action = Write(text: seq<char>) | Task | Flush

  function Act(l: Log, a: Action): Log {
    match a
    case Write(s) => Offer(l, s)
    case Task => Drain(l, CHUNK)
    case Flush => Drain(l, |l.queue|)
  }

  const EMPTY := Log([], [], 0)

  function History(h: seq<Action>): Log {
    if h == [] then EMPTY else Act(History(h[..|h| - 1]), h[|h| - 1])
  }

  function OfferedCount(h: seq<Action>): nat {
    if h == [] then 0
    else OfferedCount(h[..|h| - 1]) + match h[|h| - 1] { case Write(s) => |s| case _ => 0 }
  }

  /** The characters accepted, in the order they were offered. */
  function AcceptedText(h: seq<Action>): seq<char> {
    if h == [] then []
    else
      var p := h[..|h| - 1];
      AcceptedText(p) + match h[|h| - 1] { case Write(s) => s[..Room(History(p), |s|)] case _ => [] }
  }

  /** Over any run: output followed by the queue is the accepted text in order, and every
  offered character was written out, is queued, or was counted as dropped. */
  lemma {:induction false} LogConserves(h: seq<Action>)
    ensures var l := History(h);
      && l.output + l.queue == AcceptedText(h)
      && OfferedCount(h) == |l.output| + |l.queue| + l.dropped
      && |l.queue| <= SIZE
  {
    if h == [] {
    } else {
      var p, a := h[..|h| - 1], h[|h| - 1];
      LogConserves(p);
      var l := History(p);
      match a
      case Write(s) =>
        assert l.output + (l.queue + s[..Room(l, |s|)]) == (l.output + l.queue) + s[..Room(l, |s|)];
      case Task => DrainKeepsOrder(l, CHUNK);
      case Flush => DrainKeepsOrder(l, |l.queue|);
    }
  }

  lemma DrainKeepsOrder(l: Log, n: nat)
    ensures Drain(l, n).output + Drain(l, n).queue == l.output + l.queue
    ensures Drain(l, n).dropped == l.dropped && |Drain(l, n).queue| <= |l.queue|
    ensures |Drain(l, n).output| + |Drain(l, n).queue| == |l.output| + |l.queue|
  {
    var k := if n <= |l.queue| then n else |l.queue|;
    assert l.queue == l.queue[..k] + l.queue[k..];
    assert (l.output + l.queue[..k]) + l.queue[k..] == l.output + (l.queue[..k] + l.queue[k..]);
  }

  // ---------- decimal text ----------

  function DigitChar(d: nat): (c: char)
    requires d < 10
    ensures '0' <= c <= '9'
  {
    '0' + d as char
  }

  function DigitValue(c: char): int { c as int - '0' as int }

  /** Decimal digits, most significant first; none for zero. */
  function Digits(x: nat): seq<char> {
    if x == 0 then [] else Digits(x / 10) + [DigitChar(x % 10)]
  }

  function RenderU32(x: nat): seq<char> {
    if x == 0 then ['0'] else Digits(x)
  }

  function RenderI32(x: int): seq<char> {
    if x < 0 then ['-'] + RenderU32(-x) else RenderU32(x)
  }

  /** Hundredths with exactly two decimals. */
  function RenderHundredths(mag: nat): seq<char> {
    RenderU32(mag / 100) + ['.'] + (if mag % 100 < 10 then ['0'] else []) + RenderU32(mag % 100)
  }

  function RenderFixed(x: int): seq<char> {
    if x < 0 then ['-'] + RenderHundredths(-x) else RenderHundredths(x)
  }

  /** Reading decimal digits back. */
  function ReadNat(s: seq<char>): int {
    if s == [] then 0 else 10 * ReadNat(s[..|s| - 1]) + DigitValue(s[|s| - 1])
  }

  function ReadSigned(s: seq<char>): int {
    if s != [] && s[0] == '-' then -ReadNat(s[1..]) else ReadNat(s)
  }

  /** Reading a number with two decimals back, in hundredths. */
  function ReadHundredths(s: seq<char>): int
    requires |s| >= 3
  {
    100 * ReadNat(s[..|s| - 3]) + ReadNat(s[|s| - 2..])
  }

  function ReadFixed(s: seq<char>): int
    requires |s| >= 4
  {
    if s[0] == '-' then -ReadHundredths(s[1..]) else ReadHundredths(s)
  }

  predicate AllDigits(s: seq<char>) {
    forall i :: 0 <= i < |s| ==> '0' <= s[i] <= '9'
  }

  function Power10(n: nat): nat {
    if n == 0 then 1 else 10 * Power10(n - 1)
  }

  lemma {:induction false} ReadDigits(x: nat)
    ensures ReadNat(Digits(x)) == x && AllDigits(Digits(x))
  {
    if x == 0 {
    } else {
      ReadDigits(x / 10);
      assert Digits(x)[..|Digits(x)| - 1] == Digits(x / 10);
    }
  }

  lemma ReadRenderedU32(x: nat)
    ensures ReadNat(RenderU32(x)) == x && AllDigits(RenderU32(x)) && RenderU32(x) != []
  {
    ReadDigits(x);
    assert ReadNat(['0'][..0]) == 0;
  }

  lemma {:induction false} DigitsFit(x: nat, n: nat)
    requires x < Power10(n)
    ensures |Digits(x)| <= n
  {
    if x == 0 {
    } else {
      DigitsFit(x / 10, n - 1);
    }
  }

  /** Every int32, the smallest included, is read back from its text, which is at most a sign
  and ten digits long. */
  lemma SignedRoundTrip(x: int)
    requires InI32(x)
    ensures ReadSigned(RenderI32(x)) == x && |RenderI32(x)| <= 11
  {
    var mag := if x < 0 then -x else x;
    ReadRenderedU32(mag);
    TenDigits(mag);
    if x < 0 { assert RenderI32(x)[1..] == RenderU32(mag); }
  }

  lemma TenDigits(x: nat)
    requires x < 0x1_0000_0000
    ensures |RenderU32(x)| <= 10
  {
    assert Power10(5) == 100000;
    assert Power10(10) == 10000000000;
    DigitsFit(x, 10);
  }

  /** A point, two digits behind it, and the number read back is x. */
  predicate ReadsAs(s: seq<char>, x: int) {
    |s| >= 4 && s[|s| - 3] == '.' && AllDigits(s[|s| - 2..]) && ReadFixed(s) == x
  }

  /** So is every number of hundredths. */
  lemma FixedRoundTrip(x: int)
    requires InI32(x)
    ensures ReadsAs(RenderFixed(x), x)
  {
    var mag := if x < 0 then -x else x;
    HundredthsRoundTrip(mag);
    if x < 0 { MinusSign(RenderHundredths(mag), mag); }
  }

  lemma MinusSign(h: seq<char>, x: int)
    requires ReadsAs(h, x) && h[0] != '-'
    ensures ReadsAs(['-'] + h, -x)
  {
    var s := ['-'] + h;
    assert s[1..] == h && s[|s| - 2..] == h[|h| - 2..];
  }

  lemma HundredthsRoundTrip(mag: nat)
    ensures var h := RenderHundredths(mag);
      ReadsAs(h, mag) && h[0] != '-'
  {
    var whole, frac := RenderU32(mag / 100), (if mag % 100 < 10 then ['0'] else []) + RenderU32(mag % 100);
    ReadRenderedU32(mag / 100);
    TwoDigits(mag % 100);
    var h := RenderHundredths(mag);
    assert h == whole + ['.'] + frac;
    assert h[..|h| - 3] == whole && h[|h| - 2..] == frac;
  }

  lemma TwoDigits(f: nat)
    requires f < 100
    ensures var s := (if f < 10 then ['0'] else []) + RenderU32(f);
      |s| == 2 && AllDigits(s) && ReadNat(s) == f
  {
    var s := (if f < 10 then ['0'] else []) + RenderU32(f);
    ReadRenderedU32(f);
    if f >= 10 {
      assert Digits(f) == Digits(f / 10) + [DigitChar(f % 10)];
      assert Digits(f / 10) == Digits(0) + [DigitChar(f / 10)];
    } else {
      assert f > 0 ==> Digits(f) == Digits(0) + [DigitChar(f)];
      assert |s| == 2 && s[..1] == ['0'];
      assert ReadNat(['0']) == 0 by { assert ReadNat(['0'][..0]) == 0; }
    }
  }

  /** With room in the ring, the characters a number adds to the queue read back as it. */
  lemma NumberSurvivesQueue(l: Log, x: int)
    requires InI32(x) && |l.queue| + 11 <= SIZE
    ensures ReadSigned(Offer(l, RenderI32(x)).queue[|l.queue|..]) == x
  {
    SignedRoundTrip(x);
    TextSurvivesQueue(l, RenderI32(x));
  }

  lemma FixedFits(x: int)
    requires InI32(x)
    ensures |RenderFixed(x)| <= 12
  {
    var mag := if x < 0 then -x else x;
    EightDigits(mag / 100);
    TwoDigits(mag % 100);
  }

  lemma EightDigits(x: nat)
    requires x <= 21474836
    ensures |RenderU32(x)| <= 8
  {
    assert Power10(4) == 10000;
    assert Power10(8) == 100000000;
    DigitsFit(x, 8);
  }

  /** The same for numbers of hundredths. */
  lemma FixedSurvivesQueue(l: Log, x: int)
    requires InI32(x) && |l.queue| + 12 <= SIZE
    ensures ReadsAs(Offer(l, RenderFixed(x)).queue[|l.queue|..], x)
  {
    FixedRoundTrip(x);
    FixedFits(x);
    TextSurvivesQueue(l, RenderFixed(x));
  }

  lemma TextSurvivesQueue(l: Log, s: seq<char>)
    requires |l.queue| + |s| <= SIZE
    ensures Offer(l, s).queue[|l.queue|..] == s
  {
    assert s[..|s|] == s;
    assert (l.queue + s)[|l.queue|..] == s;
  }

  // ---------- the ring ----------

  class Logger {
    const buf: array<char>
    var head: nat
    var tail: nat
    var count: nat
    var dropped: u32

    /** What platform_write received. */
    var output: seq<char>

    ghost var queue: seq<char>
    ghost var droppedTotal: nat

    ghost predicate Valid()
      reads this, buf
    {
      && buf.Length == SIZE && head < SIZE && tail < SIZE && count <= SIZE
      && |queue| == count && head == Slot(tail, count)
      && (forall k :: 0 <= k < count ==> buf[Slot(tail, k)] == queue[k])
      && dropped == droppedTotal % 0x1_0000_0000
    }

    ghost function View(): Log
      reads this
    {
      Log(queue, output, droppedTotal)
    }

    constructor ()
      ensures Valid() && fresh(buf) && View() == EMPTY
    {
      buf := new char[SIZE](_ => ' ');
      head, tail, count, dropped := 0, 0, 0, 0;
      output, queue, droppedTotal := [], [], 0;
    }

    /** logger_push_char */
    method Push(c: char) returns (ok: bool)
      requires Valid()
      modifies this, buf
      ensures Valid() && View() == Offer(old(View()), [c])
      ensures ok <==> |old(queue)| < SIZE
    {
      if count >= SIZE {
        dropped := (dropped + 1) % 0x1_0000_0000;
        droppedTotal := droppedTotal + 1;
        return false;
      }
      forall k | 0 <= k < count
        ensures Slot(tail, k) != head
      {
        SlotsDiffer(tail, k, count);
      }
      buf[head] := c;
      NextSlot(tail, count);
      head := head + 1;
      if head >= SIZE {
        head := 0;
      }
      count := count + 1;
      queue := queue + [c];
      return true;
    }

    /** logger_pop_char */
    method Pop() returns (ok: bool, c: char)
      requires Valid()
      modifies this`tail, this`count, this`queue
      ensures Valid()
      ensures ok <==> old(queue) != []
      ensures ok ==> c == old(queue)[0] && queue == old(queue)[1..]
      ensures !ok ==> queue == old(queue)
    {
      if count == 0 {
        return false, ' ';
      }
      c := buf[tail];
      ghost var t := tail;
      assert buf[Slot(t, 0)] == queue[0];
      SlotFromNext(t, count - 1);
      tail := tail + 1;
      if tail >= SIZE {
        tail := 0;
      }
      count := count - 1;
      queue := queue[1..];
      forall k | 0 <= k < count
        ensures Slot(tail, k) == Slot(t, k + 1)
      {
        SlotFromNext(t, k);
      }
      return true, c;
    }

    /** logger_write_str */
    method WriteStr(s: seq<char>)
      requires Valid()
      modifies this, buf
      ensures Valid() && View() == Offer(old(View()), s)
    {
      for i := 0 to |s|
        invariant Valid() && View() == Offer(old(View()), s[..i])
      {
        OfferJoins(old(View()), s[..i], [s[i]]);
        assert s[..i + 1] == s[..i] + [s[i]];
        var ok := Push(s[i]);
      }
      assert s[..|s|] == s;
    }

    /** logger_write_u32: digits are collected backwards in ten cells, then written. */
    method WriteU32(x: u32)
      requires Valid()
      modifies this, buf
      ensures Valid() && View() == Offer(old(View()), RenderU32(x))
    {
      if x == 0 {
        var ok := Push('0');
        return;
      }
      var tmp, n := CollectDigits(x);
      ghost var text := Digits(x);
      assert text[..0] == [];
      while n > 0
        invariant 0 <= n <= |text| <= tmp.Length
        invariant forall k :: 0 <= k < n ==> tmp[k] == text[|text| - 1 - k]
        invariant Valid() && View() == Offer(old(View()), text[..|text| - n])
      {
        n := n - 1;
        OfferJoins(old(View()), text[..|text| - n - 1], [tmp[n]]);
        assert text[..|text| - n] == text[..|text| - n - 1] + [tmp[n]];
        var ok := Push(tmp[n]);
      }
      assert text[..|text|] == text;
    }

    static method CollectDigits(x: u32) returns (tmp: array<char>, n: nat)
      requires x > 0
      ensures fresh(tmp) && tmp.Length == 10 && n == |Digits(x)| <= 10
      ensures forall k :: 0 <= k < n ==> tmp[k] == Digits(x)[n - 1 - k]
    {
      tmp := new char[10](_ => ' ');
      n := 0;
      var y := x;
      TenDigits(x);
      ghost var text := Digits(x);
      assert text[..|text|] == text;
      while y > 0
        invariant n + |Digits(y)| == |text| && Digits(y) == text[..|text| - n]
        invariant forall k :: 0 <= k < n ==> tmp[k] == text[|text| - 1 - k]
      {
        assert Digits(y)[..|Digits(y)| - 1] == Digits(y / 10);
        assert Digits(y)[|Digits(y)| - 1] == DigitChar(y % 10);
        tmp[n] := DigitChar(y % 10);
        y := y / 10;
        n := n + 1;
      }
    }

    /** logger_write_i32; the magnitude is formed without negating the smallest number. */
    method WriteI32(x: int)
      requires Valid() && InI32(x)
      modifies this, buf
      ensures Valid() && View() == Offer(old(View()), RenderI32(x))
    {
      if x < 0 {
        OfferJoins(View(), ['-'], RenderU32(-x));
        var ok := Push('-');
        assert InI32(-(x + 1));
        WriteU32(-(x + 1) + 1);
      } else {
        WriteU32(x);
      }
    }

    /** logger_write_fixed_mag */
    method WriteFixedMag(mag: u32)
      requires Valid()
      modifies this, buf
      ensures Valid() && View() == Offer(old(View()), RenderHundredths(mag))
    {
      ghost var l := View();
      var whole, frac := mag / 100, mag % 100;
      WriteU32(whole);
      OfferJoins(l, RenderU32(whole), ['.']);
      var ok := Push('.');
      ghost var text := RenderU32(whole) + ['.'];
      if frac < 10 {
        OfferJoins(l, text, ['0']);
        text := text + ['0'];
        ok := Push('0');
      } else {
        assert text + [] == text;
      }
      OfferJoins(l, text, RenderU32(frac));
      WriteU32(frac);
    }

    /** logger_write_fixed_cd */
    method WriteFixedCd(x: int)
      requires Valid() && InI32(x)
      modifies this, buf
      ensures Valid() && View() == Offer(old(View()), RenderFixed(x))
    {
      if x < 0 {
        OfferJoins(View(), ['-'], RenderHundredths(-x));
        var ok := Push('-');
        WriteFixedMag(-(x + 1) + 1);
      } else {
        WriteFixedMag(x);
      }
    }

    /** logger_task: at most one chunk goes out. */
    method Task()
      requires Valid()
      modifies this
      ensures Valid() && View() == Drain(old(View()), CHUNK)
    {
      var chunk: seq<char> := [];
      ghost var q := queue;
      var ok, c := true, ' ';
      while |chunk| < CHUNK && ok
        invariant Valid() && output == old(output) && droppedTotal == old(droppedTotal)
        invariant |chunk| <= CHUNK && |chunk| <= |q| && chunk == q[..|chunk|] && queue == q[|chunk|..]
        invariant !ok ==> queue == []
        decreases ok, CHUNK - |chunk|
      {
        ok, c := Pop();
        if ok {
          chunk := chunk + [c];
        }
      }
      if |chunk| > 0 {
        output := output + chunk;
      }
    }

    /** logger_flush: terminates with an empty queue. */
    method Flush()
      requires Valid()
      modifies this
      ensures Valid() && View() == Drain(old(View()), |old(queue)|)
      ensures queue == []
    {
      while count > 0
        invariant Valid() && droppedTotal == old(droppedTotal)
        invariant output + queue == old(output) + old(queue)
        decreases count
      {
        DrainKeepsOrder(View(), CHUNK);
        Task();
      }
      assert old(queue)[..|old(queue)|] == old(queue);
    }
  }
}
