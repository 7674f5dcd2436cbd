/** Two changed bits: they cancel in a shift register exactly when the register, started with a
single one, comes back to that one after as many turns as the bits are apart
(src/service/modbus.c:18-29). */
module DoubleErrors {
  import opened Lfsr
  import opened ModbusPeriod

  predicate DifferExactlyAt(a: seq<bool>, b: seq<bool>, i: nat, j: nat) {
    && |a| == |b|
    && forall k :: 0 <= k < |a| ==> (a[k] != b[k] <==> k == i || k == j)
  }

  /** Two changed bits go unnoticed exactly if the single one recurs after their distance. */
  lemma CancellingPair(p: seq<bool>, s: seq<bool>, a: seq<bool>, b: seq<bool>, i: nat, j: nat)
    requires IsCode(p) && |s| == |p|
    requires i < j < |a| && DifferExactlyAt(a, b, i, j)
    ensures Feed(p, s, a) == Feed(p, s, b) <==> Shifts(p, j - i, Single(|p|)) == Single(|p|)
  {
    PairSplits(a, b, i, j);
    PairInParts(p, s, a[..i], a[i], b[i], a[i + 1..], b[i + 1..], j - i - 1);
  }

  lemma PairInParts(
      p: seq<bool>, s: seq<bool>, head: seq<bool>, x: bool, y: bool, a: seq<bool>, b: seq<bool>, d: nat)
    requires IsCode(p) && |s| == |p| && y == !x && d < |a| && DifferExactlyAt(a, b, d, d)
    ensures Feed(p, s, head + ([x] + a)) == Feed(p, s, head + ([y] + b)) <==>
      Shifts(p, d + 1, Single(|p|)) == Single(|p|)
  {
    FeedAppend(p, s, head, [x] + a);
    FeedAppend(p, s, head, [y] + b);
    FeedNext(p, Feed(p, s, head), x, a);
    FeedNext(p, Feed(p, s, head), y, b);
    AfterFirst(p, Feed(p, s, head), x, y, a, b, d);
  }

  lemma FeedNext(p: seq<bool>, s: seq<bool>, x: bool, a: seq<bool>)
    requires |s| == |p| > 0
    ensures Feed(p, s, [x] + a) == Feed(p, Enter(p, s, x), a)
  {
    assert ([x] + a)[1..] == a;
  }

  lemma AfterFirst(p: seq<bool>, t: seq<bool>, x: bool, y: bool, a: seq<bool>, b: seq<bool>, d: nat)
    requires IsCode(p) && |t| == |p| && y == !x && d < |a| && DifferExactlyAt(a, b, d, d)
    ensures Feed(p, Enter(p, t, x), a) == Feed(p, Enter(p, t, y), b) <==>
      Shifts(p, d + 1, Single(|p|)) == Single(|p|)
  {
    FirstDifference(p, t, x);
    SecondCancels(p, Enter(p, t, x), Enter(p, t, y), a, b, d);
  }

  /** Before the first changed bit the messages agree, behind it they differ only in the second. */
  lemma PairSplits(a: seq<bool>, b: seq<bool>, i: nat, j: nat)
    requires i < j < |a| && DifferExactlyAt(a, b, i, j)
    ensures b[i] == !a[i]
    ensures a == a[..i] + ([a[i]] + a[i + 1..]) && b == a[..i] + ([b[i]] + b[i + 1..])
    ensures var x, y := a[i + 1..], b[i + 1..];
      DifferExactlyAt(x, y, j - i - 1, j - i - 1)
  {
  }

  lemma SecondCancels(p: seq<bool>, u: seq<bool>, v: seq<bool>, a: seq<bool>, b: seq<bool>, d: nat)
    requires IsCode(p) && |u| == |v| == |p|
    requires d < |a| && DifferExactlyAt(a, b, d, d)
    ensures Feed(p, u, a) == Feed(p, v, b) <==> Shifts(p, d, Xor(u, v)) == Single(|p|)
  {
    assert a[..d] == b[..d] && a[d + 1..] == b[d + 1..];
    FeedThrough(p, u, a, d);
    FeedThrough(p, v, b, d);
    LastCancels(p, Feed(p, u, a[..d]), Feed(p, v, a[..d]), a[d], b[d], a[d + 1..]);
    FeedDifference(p, u, v, a[..d]);
  }

  lemma FeedThrough(p: seq<bool>, s: seq<bool>, a: seq<bool>, i: nat)
    requires |s| == |p| > 0 && i < |a|
    ensures Feed(p, s, a) == Feed(p, Enter(p, Feed(p, s, a[..i]), a[i]), a[i + 1..])
  {
    assert a == a[..i] + a[i..];
    FeedAppend(p, s, a[..i], a[i..]);
    assert a[i..][1..] == a[i + 1..];
  }

  lemma FirstDifference(p: seq<bool>, t: seq<bool>, x: bool)
    requires IsCode(p) && |t| == |p|
    ensures Xor(Enter(p, t, x), Enter(p, t, !x)) == Shift(p, Single(|p|))
  {
    var u, v := t[0 := t[0] != x], t[0 := t[0] != !x];
    assert Xor(u, v) == Single(|p|);
    ShiftIsLinear(p, u, v);
  }

  lemma LastCancels(p: seq<bool>, u: seq<bool>, v: seq<bool>, x: bool, y: bool, tail: seq<bool>)
    requires IsCode(p) && |u| == |v| == |p| && x != y
    ensures Feed(p, Enter(p, u, x), tail) == Feed(p, Enter(p, v, y), tail) <==> Xor(u, v) == Single(|p|)
  {
    if Feed(p, Enter(p, u, x), tail) == Feed(p, Enter(p, v, y), tail) {
      FeedIsInjective(p, Enter(p, u, x), Enter(p, v, y), tail);
      ShiftIsInjective(p, u[0 := u[0] != x], v[0 := v[0] != y]);
    }
    FlippedBit(u, v, x);
  }

  lemma FlippedBit(u: seq<bool>, v: seq<bool>, x: bool)
    requires |u| == |v| > 0
    ensures u[0 := u[0] != x] == v[0 := v[0] != !x] <==> Xor(u, v) == Single(|u|)
  {
    var u', v' := u[0 := u[0] != x], v[0 := v[0] != !x];
    if u' == v' {
      assert forall k :: 0 < k < |u| ==> u[k] == u'[k] && v[k] == v'[k];
      assert u'[0] == v'[0];
    }
    if Xor(u, v) == Single(|u|) {
      forall k | 0 <= k < |u|
        ensures u[k] != v[k] <==> k == 0
      {
        assert Xor(u, v)[k] == Single(|u|)[k];
      }
    }
  }

  /** Two changed bits cancel in the Modbus register exactly when they are a multiple of 32767
  bits apart. */
  lemma PairCancelsIff(s: seq<bool>, a: seq<bool>, b: seq<bool>, i: nat, j: nat)
    requires |s| == 16 && i < j < |a| && DifferExactlyAt(a, b, i, j)
    ensures Feed(MODBUS_POLY, s, a) == Feed(MODBUS_POLY, s, b) <==> (j - i) % 32767 == 0
  {
    ModbusPoly();
    CancellingPair(MODBUS_POLY, s, a, b, i, j);
    SingleRecursIff(j - i);
  }
}
