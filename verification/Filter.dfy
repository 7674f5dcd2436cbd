/** Moving average over the last five values (src/core/filter.c): a ring of five cells with
a running sum.  The ring is proved to hold a sliding window of everything it was given. */
module Filter {
  import opened Words

  const SIZE: nat := 5

  function Sum(s: seq<int>): int {
    if s == [] then 0 else s[0] + Sum(s[1..])
  }

  lemma {:induction false} SumAppend(s: seq<int>, x: int)
    ensures Sum(s + [x]) == Sum(s) + x
  {
    if s == [] {
      assert [] + [x] == [x];
      assert [x][1..] == [];
    } else {
      assert (s + [x])[1..] == s[1..] + [x];
      SumAppend(s[1..], x);
    }
  }

  /** The window after one more value: the oldest leaves once it is full. */
  function Pushed(w: seq<int>, x: int): (r: seq<int>)
    ensures |w| <= SIZE ==> |r| <= SIZE && r != []
  {
    (if |w| < SIZE then w else w[1..]) + [x]
  }

  /** The last five values of a sequence, or all of it. */
  function LastFive(h: seq<int>): (r: seq<int>)
    ensures |r| <= SIZE
  {
    if |h| <= SIZE then h else h[|h| - SIZE..]
  }

  /** Pushing keeps the window equal to the last five of all values pushed so far. */
  lemma PushedIsLastFive(h: seq<int>, x: int)
    ensures LastFive(h + [x]) == Pushed(LastFive(h), x)
  {
  }

  function Average(w: seq<int>): int {
    if w == [] then 0 else TruncDiv(Sum(w), |w|)
  }

  /** a is s / n, rounded toward zero. */
  predicate IsQuotient(a: int, s: int, n: nat) {
    if s >= 0 then 0 <= s - a * n < n else 0 <= a * n - s < n
  }

  /** The average is the sum divided by the number of values, rounded toward zero. */
  lemma AverageIsMean(w: seq<int>)
    requires w != []
    ensures IsQuotient(Average(w), Sum(w), |w|)
  {
    var s, n := Sum(w), |w|;
    var q := if s >= 0 then s / n else -s / n;
    if s >= 0 {
      assert s == n * q + s % n && n * q == q * n;
    } else {
      assert -s == n * q + -s % n && n * q == q * n && (-q) * n == -(q * n);
    }
  }

  lemma SumOfFive(w: seq<int>)
    requires |w| == 5
    ensures Sum(w) == w[0] + w[1] + w[2] + w[3] + w[4]
  {
    var w1 := w[1..];
    var w2 := w1[1..];
    var w3 := w2[1..];
    var w4 := w3[1..];
    assert w1[0] == w[1] && w2[0] == w[2] && w3[0] == w[3] && w4[0] == w[4];
    assert Sum(w4) == w4[0] + Sum([]) by { assert w4[1..] == []; }
    assert Sum(w2) == w2[0] + (w3[0] + Sum(w4));
    assert Sum(w) == w[0] + (w1[0] + Sum(w2));
  }

  /** For a full window: the sum of its five values, divided by five. */
  lemma AverageOfFive(w: seq<int>)
    requires |w| == 5
    ensures IsQuotient(Average(w), w[0] + w[1] + w[2] + w[3] + w[4], 5)
  {
    AverageIsMean(w);
    SumOfFive(w);
  }

  lemma WindowMean(w: seq<int>)
    requires w != []
    ensures IsQuotient(Average(w), Sum(w), |w|)
    ensures |w| == 5 ==> IsQuotient(Average(w), w[0] + w[1] + w[2] + w[3] + w[4], 5)
  {
    AverageIsMean(w);
    if |w| == 5 { AverageOfFive(w); }
  }

  lemma {:induction false} SumWithout(w: seq<int>, i: nat)
    requires i < |w|
    ensures Sum(w) == w[i] + Sum(w[..i] + w[i + 1..])
    decreases |w|
  {
    if i == 0 {
      assert w[..0] + w[1..] == w[1..];
    } else {
      SumWithout(w[1..], i - 1);
      var rest := w[..i] + w[i + 1..];
      assert rest[1..] == w[1..][..i - 1] + w[1..][i..];
    }
  }

  lemma MultisetWithout(b: seq<int>, i: nat)
    requires i < |b|
    ensures multiset(b[..i] + b[i + 1..]) == multiset(b) - multiset{b[i]}
  {
    assert b == b[..i] + ([b[i]] + b[i + 1..]);
  }

  lemma StillPermuted(a: seq<int>, b: seq<int>, i: nat)
    requires multiset(a) == multiset(b) && a != [] && i < |b| && b[i] == a[0]
    ensures multiset(a[1..]) == multiset(b[..i] + b[i + 1..])
  {
    MultisetWithout(a, 0);
    MultisetWithout(b, i);
    assert a[..0] + a[1..] == a[1..];
  }

  lemma {:induction false} SumPermuted(a: seq<int>, b: seq<int>)
    requires multiset(a) == multiset(b)
    ensures Sum(a) == Sum(b) && |a| == |b|
    decreases |a|
  {
    if a == [] {
      assert |multiset(b)| == |b|;
    } else {
      assert a[0] in multiset(b);
      var i :| 0 <= i < |b| && b[i] == a[0];
      StillPermuted(a, b, i);
      SumPermuted(a[1..], b[..i] + b[i + 1..]);
      SumWithout(b, i);
    }
  }

  /** The order of the samples in the window does not matter. */
  lemma AveragePermuted(a: seq<int>, b: seq<int>)
    requires multiset(a) == multiset(b)
    ensures Average(a) == Average(b)
  {
    SumPermuted(a, b);
  }

  /** A spike of d in one of five samples moves the average by at most a fifth of it, and one for
  rounding. */
  lemma SpikeIsDamped(w: seq<int>, i: nat, x: int)
    requires |w| == 5 && i < 5
    ensures var d := if x >= w[i] then x - w[i] else w[i] - x;
      -(d / 5 + 1) <= Average(w[i := x]) - Average(w) <= d / 5 + 1
  {
    AverageOfFive(w);
    AverageOfFive(w[i := x]);
  }

  predicate AllWithin(w: seq<int>, lo: int, hi: int) {
    forall i :: 0 <= i < |w| ==> lo <= w[i] <= hi
  }

  lemma {:induction false} SumWithin(w: seq<int>, lo: int, hi: int)
    requires AllWithin(w, lo, hi)
    ensures lo * |w| <= Sum(w) <= hi * |w|
  {
    if w == [] {
    } else {
      SumWithin(w[1..], lo, hi);
      assert lo * |w| == lo * |w[1..]| + lo && hi * |w| == hi * |w[1..]| + hi;
    }
  }

  /** The truncated average lies between any bounds, straddling zero, of the values. */
  lemma AverageWithin(w: seq<int>, lo: int, hi: int)
    requires AllWithin(w, lo, hi) && lo <= 0 <= hi
    ensures lo <= Average(w) <= hi
  {
    if w != [] {
      SumWithin(w, lo, hi);
      QuotientWithin(Sum(w), |w|, lo, hi);
    }
  }

  lemma QuotientWithin(n: int, d: int, lo: int, hi: int)
    requires d > 0 && lo <= 0 <= hi && lo * d <= n <= hi * d
    ensures lo <= TruncDiv(n, d) <= hi
  {
    if n >= 0 {
      FloorWithin(n, d, hi);
    } else {
      assert (-lo) * d == -(lo * d);
      FloorWithin(-n, d, -lo);
    }
  }

  lemma FloorWithin(n: int, d: int, hi: int)
    requires d > 0 && 0 <= n <= hi * d
    ensures 0 <= n / d <= hi
  {
    var q := n / d;
    assert n == d * q + n % d && d * q == q * d;
    if q > hi { Scale(hi + 1, q, d); }
  }

  /** Every sum ma_update forms, for values of sensor size: the running sum, the sum without
  the leaving value, and the new sum. */
  lemma SumsFitInt32(w: seq<int>, x: int)
    requires |w| <= SIZE && AllWithin(w, -4000, 8500) && -4000 <= x <= 8500
    ensures InI32(Sum(w)) && InI32(Sum(Pushed(w, x)))
    ensures |w| == SIZE ==> InI32(Sum(w) - w[0]) && Sum(w) - w[0] + x == Sum(Pushed(w, x))
    ensures |w| < SIZE ==> Sum(w) + x == Sum(Pushed(w, x))
    ensures AllWithin(Pushed(w, x), -4000, 8500)
  {
    SumWithin(w, -4000, 8500);
    SumWithin(Pushed(w, x), -4000, 8500);
    if |w| < SIZE { SumAppend(w, x); } else { SumAppend(w[1..], x); }
  }

  /** Overwriting the oldest cell of a full ring slides the window. */
  lemma RotatedPush(b: seq<int>, h: nat, x: int)
    requires h < |b|
    ensures b[h := x][h + 1..] + b[h := x][..h + 1] == (b[h..] + b[..h])[1..] + [x]
  {
  }

  /** Filling the next cell of a ring that is not full yet extends it. */
  lemma AppendedPush(b: seq<int>, h: nat, x: int)
    requires h < |b|
    ensures b[h := x][..h + 1] == b[..h] + [x]
  {
  }

  class MaFilter {
    const buf: array<int>
    var sum: int
    var head: nat
    var count: nat

    /** The values held, oldest first. */
    ghost var window: seq<int>

    ghost predicate Valid()
      reads this, buf
    {
      && buf.Length == SIZE && head < SIZE && count <= SIZE
      && (count < SIZE ==> head == count)
      && window == (if count < SIZE then buf[..count] else buf[head..] + buf[..head])
      && sum == Sum(window)
    }

    constructor ()
      ensures Valid() && window == [] && fresh(buf)
    {
      buf := new int[SIZE];
      new;
      Init();
    }

    /** ma_init */
    method Init()
      requires buf.Length == SIZE
      modifies this, buf
      ensures Valid() && window == []
      ensures forall i :: 0 <= i < SIZE ==> buf[i] == 0
    {
      for i := 0 to SIZE
        invariant forall k :: 0 <= k < i ==> buf[k] == 0
      {
        buf[i] := 0;
      }
      sum, head, count := 0, 0, 0;
      window := [];
    }

    /** ma_update; `warm` stands for ERR_OK, its absence for ERR_WARMUP. */
    method Update(x: int) returns (avg: int, warm: bool)
      requires Valid()
      modifies this, buf
      ensures Valid() && window == Pushed(old(window), x)
      ensures avg == Average(window) && IsQuotient(avg, Sum(window), |window|)
      ensures |window| == 5 ==> IsQuotient(avg, window[0] + window[1] + window[2] + window[3] + window[4], 5)
      ensures warm <==> |window| == SIZE
    {
      if count < SIZE {
        AppendedPush(buf[..], head, x);
        buf[head] := x;
        sum := sum + x;
        count := count + 1;
        SumAppend(window, x);
      } else {
        RotatedPush(buf[..], head, x);
        sum := sum - buf[head];
        buf[head] := x;
        sum := sum + x;
        SumAppend(window[1..], x);
      }
      window := Pushed(window, x);
      head := head + 1;
      if head >= SIZE {
        head := 0;
      }
      avg := TruncDiv(sum, count);
      warm := count >= SIZE;
      WindowMean(window);
    }
  }
}
