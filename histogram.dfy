/** The histogram of stopping times: the clamp that picks a bin, and the
    histogram a set of start values should produce, with the facts about it
    that the worker loop relies on. */
module Histogram {
  import opened Collatz

  /** Number of bins: indices 0 to 1000. */
  const Size: nat := 1001

  /** The last bin, which collects every step count of 1000 or more. */
  const Overflow: nat := 1000

  /** The bin of a step count: the count itself, clamped to the overflow bin.
      It is min(steps, 1000) and always a valid index of the histogram. */
  function Bin(steps: nat): (b: nat)
    ensures b < Size
    ensures b <= steps && b <= Overflow
    ensures b == steps || b == Overflow
  {
    if steps > Overflow then Overflow else steps
  }

  /** The histogram right after the reset: every bin 0. */
  function Zeros(): (h: seq<nat>)
    ensures |h| == Size && forall b :: 0 <= b < Size ==> h[b] == 0
  {
    seq(Size, _ => 0)
  }

  /** The smaller of two numbers. */
  function Min(a: int, b: int): int {
    if a <= b then a else b
  }

  /** The sum of all bins. */
  function Sum(h: seq<nat>): nat {
    if |h| == 0 then 0 else h[0] + Sum(h[1..])
  }

  /** `k` lies between `lo` and `hi`, both included. */
  predicate Within(lo: nat, hi: nat, k: nat) {
    lo <= k <= hi
  }

  /** The start values from `lo` to `hi`, both included. */
  function Range(lo: nat, hi: nat): set<nat> {
    set k: nat | k <= hi && Within(lo, hi, k)
  }

  /** There are hi - lo + 1 start values from `lo` to `hi`. */
  lemma {:induction false} RangeSize(lo: nat, hi: nat)
    ensures |Range(lo, hi)| == if lo <= hi then hi + 1 - lo else 0
    decreases hi + 1 - lo
  {
    if lo > hi {
      assert Range(lo, hi) == {};
    } else {
      RangeSize(lo + 1, hi);
      assert Range(lo, hi) == {lo} + Range(lo + 1, hi);
    }
  }

  /** The range up to `hi` is the range up to `hi - 1` with `hi` added. */
  lemma RangeSnoc(lo: nat, hi: nat)
    requires lo <= hi && hi >= 1
    ensures hi !in Range(lo, hi - 1) && Range(lo, hi) == Range(lo, hi - 1) + {hi}
  {
  }

  /** Every value of `s` has a meaningful stopping time. */
  ghost predicate AllDefined(s: set<nat>) {
    forall k :: k in s ==> Defined(k)
  }

  /** 1 when `k` reaches 1 and its clamped stopping time is `b`, otherwise 0. */
  ghost function InBin(k: nat, b: int): nat {
    if Defined(k) && Bin(StoppingTime(k)) == b then 1 else 0
  }

  /** How many values of `s` that reach 1 fall into bin `b`, counted one
      element at a time. */
  ghost function Count(s: set<nat>, b: int): nat
    decreases |s|
  {
    if s == {} then 0
    else
      var m :| m in s;
      Count(s - {m}, b) + InBin(m, b)
  }

  /** Any element can be the one counted last. */
  lemma {:induction false} CountRemove(s: set<nat>, x: nat, b: int)
    requires x in s
    ensures Count(s, b) == Count(s - {x}, b) + InBin(x, b)
    decreases |s|
  {
    var m :| m in s && Count(s, b) == Count(s - {m}, b) + InBin(m, b);
    if m != x {
      CountRemove(s - {m}, x, b);
      CountRemove(s - {x}, m, b);
      assert s - {m} - {x} == s - {x} - {m};
    }
  }

  /** The count is the number of values of `s` in bin `b`. */
  lemma {:induction false} CountIsCardinality(s: set<nat>, b: int)
    ensures Count(s, b) == |set k | k in s && Defined(k) && Bin(StoppingTime(k)) == b|
    decreases |s|
  {
    var inBin := set k | k in s && Defined(k) && Bin(StoppingTime(k)) == b;
    if s == {} {
      assert inBin == {};
    } else {
      var x :| x in s;
      var rest := set k | k in s - {x} && Defined(k) && Bin(StoppingTime(k)) == b;
      CountRemove(s, x, b);
      CountIsCardinality(s - {x}, b);
      if InBin(x, b) == 1 {
        assert inBin == rest + {x};
      } else {
        assert inBin == rest;
      }
    }
  }

  /** The histogram of the set `s`: bin `b` holds the number of values in `s`
      whose clamped stopping time is `b`. (A value that never reaches 1 would
      not be counted; every theorem below is about sets of values that do.) */
  ghost function Tally(s: set<nat>): (h: seq<nat>)
    ensures |h| == Size
  {
    seq(Size, b => Count(s, b))
  }

  /** Adding one to one bin adds one to the sum. */
  lemma {:induction false} SumIncrement(h: seq<nat>, i: nat)
    requires i < |h|
    ensures Sum(h[i := h[i] + 1]) == Sum(h) + 1
  {
    if i > 0 {
      assert h[i := h[i] + 1][1..] == h[1..][i - 1 := h[i] + 1];
      SumIncrement(h[1..], i - 1);
    } else {
      assert h[i := h[i] + 1][1..] == h[1..];
    }
  }

  /** The all-zero histogram sums to 0. */
  lemma {:induction false} SumZeros(h: seq<nat>)
    requires forall b :: 0 <= b < |h| ==> h[b] == 0
    ensures Sum(h) == 0
  {
    if |h| > 0 {
      SumZeros(h[1..]);
    }
  }

  /** Nothing counted yet: the histogram of no values is the reset histogram. */
  lemma TallyEmpty()
    ensures Tally({}) == Zeros()
  {
    forall b | 0 <= b < Size
      ensures Tally({})[b] == 0
    {
    }
  }

  /** Counting one more value `m` adds one to its bin and changes no other bin. */
  lemma TallyInsert(s: set<nat>, m: nat)
    requires Defined(m) && m !in s
    ensures Tally(s + {m}) == Tally(s)[Bin(StoppingTime(m)) := Tally(s)[Bin(StoppingTime(m))] + 1]
  {
    var t := s + {m};
    var bin := Bin(StoppingTime(m));
    forall b | 0 <= b < Size
      ensures Tally(t)[b] == Tally(s)[bin := Tally(s)[bin] + 1][b]
    {
      CountInsert(s, m, b);
    }
  }

  /** One bin of `TallyInsert`: adding `m` changes the count of bin `b` by one
      exactly when `b` is the bin of `m`. */
  lemma CountInsert(s: set<nat>, m: nat, b: nat)
    requires Defined(m) && m !in s
    ensures Count(s + {m}, b) == Count(s, b) + (if b == Bin(StoppingTime(m)) then 1 else 0)
  {
    CountRemove(s + {m}, m, b);
    assert (s + {m}) - {m} == s;
  }

  /** The histogram of 1..m is that of 1..m-1 with the bin of m incremented. */
  lemma TallyNext(m: nat)
    requires m >= 1 && Defined(m)
    ensures Tally(Range(1, m))
         == Tally(Range(1, m - 1))[Bin(StoppingTime(m)) := Tally(Range(1, m - 1))[Bin(StoppingTime(m))] + 1]
  {
    RangeSnoc(1, m);
    TallyInsert(Range(1, m - 1), m);
  }

  /** Recording the stopping time of m into the histogram of 1..m-1 gives the
      histogram of 1..m. */
  lemma RecordNext(before: seq<nat>, m: nat, steps: nat)
    requires m >= 1 && Defined(m)
    requires before == Tally(Range(1, m - 1))
    requires steps == StoppingTime(m)
    ensures before[Bin(steps) := before[Bin(steps)] + 1] == Tally(Range(1, m))
  {
    TallyNext(m);
    assert Bin(steps) == Bin(StoppingTime(m));
  }

  /** The histogram of `s` sums to the number of values in `s`. */
  lemma {:induction false} TallySum(s: set<nat>)
    requires AllDefined(s)
    ensures Sum(Tally(s)) == |s|
    decreases |s|
  {
    if s == {} {
      TallyEmpty();
      SumZeros(Zeros());
    } else {
      var m :| m in s;
      var rest := s - {m};
      assert rest + {m} == s;
      TallySum(rest);
      TallyInsert(rest, m);
      SumIncrement(Tally(rest), Bin(StoppingTime(m)));
    }
  }

  /** The histogram of the start values 1..N: its bins sum to N, and each bin
      counts exactly the k in [1, N] whose clamped stopping time is that bin. */
  lemma HistogramOfRange(n: nat)
    requires forall k :: 1 <= k <= n ==> Defined(k)
    ensures Sum(Tally(Range(1, n))) == n
    ensures forall b :: 0 <= b < Size ==>
      Tally(Range(1, n))[b] == |set k | 1 <= k <= n && Bin(StoppingTime(k)) == b|
  {
    assert AllDefined(Range(1, n));
    TallySum(Range(1, n));
    RangeSize(1, n);
    forall b | 0 <= b < Size
      ensures Tally(Range(1, n))[b] == |set k | 1 <= k <= n && Bin(StoppingTime(k)) == b|
    {
      CountIsCardinality(Range(1, n), b);
      assert (set k | k in Range(1, n) && Defined(k) && Bin(StoppingTime(k)) == b)
          == (set k | 1 <= k <= n && Bin(StoppingTime(k)) == b);
    }
  }
}
