/** Reflected shift-register codes, parametric in register width and feedback polynomial.

The firmware computes two checksums with the same loop: the 16-bit Modbus RTU CRC
(polynomial 0xA001) and a 32-bit CRC over the stored configuration (0xEDB88320).
The reference definition here is bit-serial: one message bit enters the register, the
register is shifted once.  A register is the sequence of its bits, lowest bit first; a
code is its feedback word `p`, whose length is the register width.  The byte-at-a-time
loops of the firmware are proved equal to this definition in `Modbus` and `Storage`. */
module Lfsr {

  /** The feedback word feeds the highest register bit. */
  predicate IsCode(p: seq<bool>) {
    |p| > 0 && p[|p| - 1]
  }

  function Zeros(n: nat): (z: seq<bool>)
    ensures |z| == n && forall i :: 0 <= i < n ==> !z[i]
  {
    seq(n, _ => false)
  }

  function Xor(a: seq<bool>, b: seq<bool>): (r: seq<bool>)
    requires |a| == |b|
    ensures |r| == |a| && forall i :: 0 <= i < |a| ==> r[i] == (a[i] != b[i])
  {
    seq(|a|, i requires 0 <= i < |a| => a[i] != b[i])
  }

  /** One turn of the register: shift down, feed back if a one falls out. */
  function Shift(p: seq<bool>, s: seq<bool>): (r: seq<bool>)
    requires |s| == |p|
    ensures |r| == |s|
  {
    seq(|s|, i requires 0 <= i < |s| => (i + 1 < |s| && s[i + 1]) != (s[0] && p[i]))
  }

  function Shifts(p: seq<bool>, n: nat, s: seq<bool>): (r: seq<bool>)
    requires |s| == |p|
    ensures |r| == |s|
  {
    if n == 0 then s else Shifts(p, n - 1, Shift(p, s))
  }

  /** One message bit enters at the low end and the register turns. */
  function Enter(p: seq<bool>, s: seq<bool>, bit: bool): (r: seq<bool>)
    requires |s| == |p| > 0
    ensures |r| == |s|
  {
    Shift(p, s[0 := s[0] != bit])
  }

  /** The register after all message bits entered, first bit first. */
  function Feed(p: seq<bool>, s: seq<bool>, bits: seq<bool>): (r: seq<bool>)
    requires |s| == |p| > 0
    ensures |r| == |s|
    decreases |bits|
  {
    if bits == [] then s else Feed(p, Enter(p, s, bits[0]), bits[1..])
  }

  // ---------- one turn ----------

  lemma ShiftIsLinear(p: seq<bool>, s: seq<bool>, t: seq<bool>)
    requires |s| == |t| == |p|
    ensures Shift(p, Xor(s, t)) == Xor(Shift(p, s), Shift(p, t))
  {
  }

  /** A turn forgets nothing, because the feedback word sets the highest bit. */
  lemma ShiftIsInjective(p: seq<bool>, s: seq<bool>, t: seq<bool>)
    requires IsCode(p) && |s| == |t| == |p|
    requires Shift(p, s) == Shift(p, t)
    ensures s == t
  {
    var top := |p| - 1;
    assert Shift(p, s)[top] == s[0] && Shift(p, t)[top] == t[0];
    forall i | 0 < i <= top
      ensures s[i] == t[i]
    {
      assert Shift(p, s)[i - 1] == Shift(p, t)[i - 1];
    }
  }

  lemma {:induction false} ShiftsIsLinear(p: seq<bool>, n: nat, s: seq<bool>, t: seq<bool>)
    requires |s| == |t| == |p|
    ensures Shifts(p, n, Xor(s, t)) == Xor(Shifts(p, n, s), Shifts(p, n, t))
  {
    if n == 0 {
    } else {
      ShiftIsLinear(p, s, t);
      ShiftsIsLinear(p, n - 1, Shift(p, s), Shift(p, t));
    }
  }

  lemma {:induction false} ShiftsIsInjective(p: seq<bool>, n: nat, s: seq<bool>, t: seq<bool>)
    requires IsCode(p) && |s| == |t| == |p|
    requires Shifts(p, n, s) == Shifts(p, n, t)
    ensures s == t
  {
    if n == 0 {
    } else {
      ShiftsIsInjective(p, n - 1, Shift(p, s), Shift(p, t));
      ShiftIsInjective(p, s, t);
    }
  }

  lemma {:induction false} ShiftsAdd(p: seq<bool>, m: nat, n: nat, s: seq<bool>)
    requires |s| == |p|
    ensures Shifts(p, m + n, s) == Shifts(p, n, Shifts(p, m, s))
  {
    if m == 0 {
    } else {
      ShiftsAdd(p, m - 1, n, Shift(p, s));
    }
  }

  lemma {:induction false} ShiftsOfZero(p: seq<bool>, n: nat)
    ensures Shifts(p, n, Zeros(|p|)) == Zeros(|p|)
  {
    if n == 0 {
    } else {
      assert Shift(p, Zeros(|p|)) == Zeros(|p|);
      ShiftsOfZero(p, n - 1);
    }
  }

  // ---------- feeding a message ----------

  lemma {:induction false} FeedAppend(p: seq<bool>, s: seq<bool>, a: seq<bool>, b: seq<bool>)
    requires |s| == |p| > 0
    ensures Feed(p, s, a + b) == Feed(p, Feed(p, s, a), b)
    decreases |a|
  {
    if a == [] {
      assert a + b == b;
    } else {
      assert (a + b)[1..] == a[1..] + b;
      FeedAppend(p, Enter(p, s, a[0]), a[1..], b);
    }
  }

  /** Different registers stay different under the same message. */
  lemma {:induction false} FeedIsInjective(p: seq<bool>, s: seq<bool>, t: seq<bool>, bits: seq<bool>)
    requires IsCode(p) && |s| == |t| == |p|
    requires Feed(p, s, bits) == Feed(p, t, bits)
    ensures s == t
    decreases |bits|
  {
    if bits == [] {
    } else {
      var u, v := s[0 := s[0] != bits[0]], t[0 := t[0] != bits[0]];
      FeedIsInjective(p, Shift(p, u), Shift(p, v), bits[1..]);
      ShiftIsInjective(p, u, v);
      assert forall i :: 0 < i < |p| ==> u[i] == s[i] && v[i] == t[i];
      assert u[0] == v[0];
    }
  }

  /** Two registers under one message differ by the turned difference they started with. */
  lemma {:induction false} FeedDifference(p: seq<bool>, s: seq<bool>, t: seq<bool>, bits: seq<bool>)
    requires |s| == |t| == |p| > 0
    ensures Xor(Feed(p, s, bits), Feed(p, t, bits)) == Shifts(p, |bits|, Xor(s, t))
    decreases |bits|
  {
    if bits == [] {
    } else {
      var u, v := s[0 := s[0] != bits[0]], t[0 := t[0] != bits[0]];
      assert Xor(u, v) == Xor(s, t);
      ShiftIsLinear(p, u, v);
      FeedDifference(p, Shift(p, u), Shift(p, v), bits[1..]);
    }
  }

  /** XORing a whole word in and turning |w| times is the same as feeding its bits one by
  one: the step from the byte-wise loops to the bit-serial register. */
  lemma {:induction false} LoadAhead(p: seq<bool>, s: seq<bool>, w: seq<bool>)
    requires |s| == |p| > 0 && |w| <= |p|
    ensures Feed(p, s, w) == Shifts(p, |w|, Xor(s, w + Zeros(|p| - |w|)))
    decreases |w|
  {
    if w == [] {
      assert Xor(s, w + Zeros(|p|)) == s;
    } else {
      var loaded := Xor(s, w + Zeros(|p| - |w|));
      var rest := Xor(Enter(p, s, w[0]), w[1..] + Zeros(|p| - |w[1..]|));
      assert Shift(p, loaded) == rest;
      LoadAhead(p, Enter(p, s, w[0]), w[1..]);
    }
  }

  /** A code word followed by its own register clears the register, and nothing else does. */
  lemma OwnRegisterClears(p: seq<bool>, s: seq<bool>, w: seq<bool>)
    requires IsCode(p) && |s| == |w| == |p|
    ensures Feed(p, s, w) == Zeros(|p|) <==> w == s
  {
    LoadAhead(p, s, w);
    var d := Xor(s, w);
    assert w + Zeros(0) == w;
    ShiftsOfZero(p, |p|);
    if Feed(p, s, w) == Zeros(|p|) {
      ShiftsIsInjective(p, |p|, d, Zeros(|p|));
      assert forall i :: 0 <= i < |p| ==> !d[i];
    }
    if w == s {
      assert d == Zeros(|p|);
    }
  }

  // ---------- bursts ----------

  /** The two messages agree outside the `len` positions from `start`. */
  predicate AgreeOutside(a: seq<bool>, b: seq<bool>, start: nat, len: nat) {
    |a| == |b| && forall i :: 0 <= i < |a| && !(start <= i < start + len) ==> a[i] == b[i]
  }

  /** Messages of equal length that differ only inside a run no longer than the register
  leave different registers. */
  lemma BurstChangesRegister(p: seq<bool>, s: seq<bool>, a: seq<bool>, b: seq<bool>, start: nat, len: nat)
    requires IsCode(p) && |s| == |p|
    requires AgreeOutside(a, b, start, len) && len <= |p|
    requires Feed(p, s, a) == Feed(p, s, b)
    ensures a == b
  {
    var from := if start < |a| then start else |a|;
    var to := if start + len < |a| then start + len else |a|;
    CutWindow(a, from, to);
    CutWindow(b, from, to);
    assert b[..from] == a[..from];
    assert b[to..] == a[to..];
    SplicedWindow(p, s, a[..from], a[from..to], b[from..to], a[to..]);
  }

  lemma CutWindow(a: seq<bool>, from: nat, to: nat)
    requires from <= to <= |a|
    ensures a == a[..from] + a[from..to] + a[to..]
  {
  }

  lemma SplicedWindow(p: seq<bool>, s: seq<bool>, head: seq<bool>, wa: seq<bool>, wb: seq<bool>, tail: seq<bool>)
    requires IsCode(p) && |s| == |p| && |wa| == |wb| <= |p|
    requires Feed(p, s, head + wa + tail) == Feed(p, s, head + wb + tail)
    ensures wa == wb
  {
    FeedAppend(p, s, head + wa, tail);
    FeedAppend(p, s, head + wb, tail);
    FeedIsInjective(p, Feed(p, s, head + wa), Feed(p, s, head + wb), tail);
    FeedAppend(p, s, head, wa);
    FeedAppend(p, s, head, wb);
    WindowIsInjective(p, Feed(p, s, head), wa, wb);
  }

  lemma WindowIsInjective(p: seq<bool>, s: seq<bool>, a: seq<bool>, b: seq<bool>)
    requires IsCode(p) && |s| == |p| && |a| == |b| <= |p|
    requires Feed(p, s, a) == Feed(p, s, b)
    ensures a == b
  {
    var z := Zeros(|p| - |a|);
    var u, v := Xor(s, a + z), Xor(s, b + z);
    LoadAhead(p, s, a);
    LoadAhead(p, s, b);
    ShiftsIsInjective(p, |a|, u, v);
    forall i | 0 <= i < |a|
      ensures a[i] == b[i]
    {
      assert u[i] == (s[i] != (a + z)[i]) && v[i] == (s[i] != (b + z)[i]);
    }
  }

  /** Zeros entering merely turn the register. */
  lemma {:induction false} FeedZeros(p: seq<bool>, s: seq<bool>, n: nat)
    requires |s| == |p| > 0
    ensures Feed(p, s, Zeros(n)) == Shifts(p, n, s)
    decreases n
  {
    if n == 0 {
    } else {
      assert Zeros(n)[1..] == Zeros(n - 1);
      assert s[0 := s[0] != false] == s;
      FeedZeros(p, Shift(p, s), n - 1);
    }
  }

  // ---------- parity ----------

  function OddOnes(s: seq<bool>): bool {
    s != [] && s[0] != OddOnes(s[1..])
  }

  /** The number of positions where two messages of equal length differ. */
  function CountDiff(a: seq<bool>, b: seq<bool>): nat
    requires |a| == |b|
  {
    if a == [] then 0 else (if a[0] != b[0] then 1 else 0) + CountDiff(a[1..], b[1..])
  }

  lemma {:induction false} CountDiffParity(a: seq<bool>, b: seq<bool>)
    requires |a| == |b|
    ensures CountDiff(a, b) % 2 == 1 <==> OddOnes(a) != OddOnes(b)
    decreases |a|
  {
    if a == [] {
    } else {
      CountDiffParity(a[1..], b[1..]);
    }
  }

  lemma {:induction false} OddOnesXor(a: seq<bool>, b: seq<bool>)
    requires |a| == |b|
    ensures OddOnes(Xor(a, b)) == (OddOnes(a) != OddOnes(b))
    decreases |a|
  {
    if a == [] {
    } else {
      assert Xor(a, b)[1..] == Xor(a[1..], b[1..]);
      OddOnesXor(a[1..], b[1..]);
    }
  }

  lemma {:induction false} OddOnesAppendZero(s: seq<bool>)
    ensures OddOnes(s + [false]) == OddOnes(s)
    decreases |s|
  {
    if s == [] {
      assert s + [false] == [false];
      assert !OddOnes([false][1..]);
    } else {
      assert (s + [false])[1..] == s[1..] + [false];
      OddOnesAppendZero(s[1..]);
    }
  }

  /** A turn keeps the parity of the register when the feedback word has odd weight. */
  lemma ShiftKeepsParity(p: seq<bool>, s: seq<bool>)
    requires |s| == |p| > 0 && OddOnes(p)
    ensures OddOnes(Shift(p, s)) == OddOnes(s)
  {
    var down := s[1..] + [false];
    OddOnesAppendZero(s[1..]);
    if s[0] {
      assert Shift(p, s) == Xor(down, p);
      OddOnesXor(down, p);
    } else {
      assert Shift(p, s) == down;
    }
  }

  lemma {:induction false} FeedParity(p: seq<bool>, s: seq<bool>, bits: seq<bool>)
    requires |s| == |p| > 0 && OddOnes(p)
    ensures OddOnes(Feed(p, s, bits)) == (OddOnes(s) != OddOnes(bits))
    decreases |bits|
  {
    if bits == [] {
    } else {
      var u := s[0 := s[0] != bits[0]];
      assert u[1..] == s[1..];
      ShiftKeepsParity(p, u);
      FeedParity(p, Shift(p, u), bits[1..]);
    }
  }

  /** With a feedback word of odd weight, an odd number of changed bits always shows. */
  lemma OddErrorsChangeRegister(p: seq<bool>, s: seq<bool>, a: seq<bool>, b: seq<bool>)
    requires |s| == |p| > 0 && OddOnes(p) && |a| == |b|
    requires Feed(p, s, a) == Feed(p, s, b)
    ensures CountDiff(a, b) % 2 == 0
  {
    FeedParity(p, s, a);
    FeedParity(p, s, b);
    CountDiffParity(a, b);
  }
}
