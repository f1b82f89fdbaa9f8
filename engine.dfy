/** The shared state of a run and the worker loop, executed serially: one
    worker's loop runs to its end before the next one starts. */
module Engine {
  import opened Collatz
  import opened Histogram

  /** The shared cursor over the work range: the next start value to hand out. */
  class Cursor {
    var next: nat

    /** The cursor starts at 1. */
    constructor ()
      ensures next == 1
    {
      next := 1;
    }

    /** Sets the cursor (the reset of a run stores 1). */
    method Store(v: nat)
      modifies this
      ensures next == v
    {
      next := v;
    }

    /** Claims a work item: returns the current cursor value and advances the
        cursor by exactly 1 (an atomic fetch-and-add). */
    method Claim() returns (n: nat)
      modifies this
      ensures n == old(next)
      ensures next == old(next) + 1
    {
      n := next;
      next := next + 1;
    }
  }

  /** The shared histogram: a fixed array of 1001 counters. */
  class Bins {
    const counts: array<nat>

    ghost predicate Valid()
      reads this
    {
      counts.Length == Size
    }

    /** A fresh histogram with every counter 0. */
    constructor ()
      ensures Valid() && fresh(counts)
      ensures counts[..] == Zeros()
    {
      counts := new nat[Size](_ => 0);
    }

    /** Sets every counter to 0. */
    method Reset()
      requires Valid()
      modifies counts
      ensures counts[..] == Zeros()
    {
      var i := 0;
      while i < counts.Length
        invariant 0 <= i <= counts.Length
        invariant forall j :: 0 <= j < i ==> counts[j] == 0
      {
        counts[i] := 0;
        i := i + 1;
      }
    }

    /** Records one observation: the counter of `bin` grows by one and no other
        counter changes. */
    method Record(bin: nat)
      requires Valid() && bin < Size
      modifies counts
      ensures counts[..] == old(counts[..])[bin := old(counts[..])[bin] + 1]
    {
      counts[bin] := counts[bin] + 1;
    }
  }

  function Max(a: int, b: int): int {
    if a <= b then b else a
  }

  /** The consecutive values from `lo` to `hi`, in order. */
  function Ascending(lo: nat, hi: nat): (s: seq<nat>)
    ensures |s| == if lo <= hi then hi + 1 - lo else 0
    decreases hi + 1 - lo
  {
    if lo > hi then [] else [lo] + Ascending(lo + 1, hi)
  }

  /** Entry `i` of `Ascending(lo, hi)` is lo + i. */
  lemma {:induction false} AscendingAt(lo: nat, hi: nat, i: nat)
    requires i < |Ascending(lo, hi)|
    ensures Ascending(lo, hi)[i] == lo + i
    decreases hi + 1 - lo
  {
    if i > 0 {
      AscendingAt(lo + 1, hi, i - 1);
    }
  }

  /** The values up to `hi` are the values up to `hi - 1`, then `hi`. */
  lemma {:induction false} AscendingSnoc(lo: nat, hi: nat)
    requires lo <= hi && hi >= 1
    ensures Ascending(lo, hi) == Ascending(lo, hi - 1) + [hi]
    decreases hi + 1 - lo
  {
    if lo < hi {
      AscendingSnoc(lo + 1, hi);
    }
  }

  /** The state the serialized protocol keeps between two claims: the
      histogram holds exactly the values below the cursor that are at most `n`. */
  ghost predicate Consistent(n: nat, cursor: Cursor, bins: Bins)
    reads cursor, bins, bins.counts
  {
    && bins.Valid()
    && cursor.next >= 1
    && bins.counts[..] == Tally(Range(1, Min(cursor.next - 1, n)))
  }

  /** One pass of the worker's loop body: claim a value and, when it is at
      most `n`, compute its stopping time, clamp it and record it. The claimed
      value is the old cursor; the histogram gains exactly that value when it
      is in range and is unchanged otherwise. */
  method Serve(n: nat, cursor: Cursor, bins: Bins) returns (myN: nat)
    requires forall k :: 1 <= k <= n ==> Defined(k)
    requires Consistent(n, cursor, bins)
    modifies cursor, bins.counts
    ensures myN == old(cursor.next) && cursor.next == myN + 1
    ensures Consistent(n, cursor, bins)
    ensures myN > n ==> bins.counts[..] == old(bins.counts[..])
  {
    myN := cursor.Claim();
    ghost var before := bins.counts[..];
    assert before == old(bins.counts[..]);
    if myN > n {
      assert Min(cursor.next - 1, n) == Min(myN - 1, n);
      return;
    }
    var steps := ComputeStoppingTime(myN);
    var bin := Bin(steps);
    RecordNext(before, myN, steps);
    bins.Record(bin);
    assert Min(cursor.next - 1, n) == myN;
  }

  /** One worker's loop: claim a value, stop once it exceeds `n`, otherwise
      compute its stopping time, clamp it and record it. In serial execution
      the worker claims old(cursor.next), old(cursor.next) + 1, ... and records
      exactly the claimed values up to `n`, in that order; the claim that
      exceeds `n` is not recorded. */
  method Worker(n: nat, cursor: Cursor, bins: Bins) returns (ghost recorded: seq<nat>)
    requires forall k :: 1 <= k <= n ==> Defined(k)
    requires Consistent(n, cursor, bins)
    modifies cursor, bins.counts
    ensures Consistent(n, cursor, bins)
    ensures cursor.next == Max(old(cursor.next), n + 1) + 1
    ensures bins.counts[..] == Tally(Range(1, n))
    ensures recorded == Ascending(old(cursor.next), n)
  {
    recorded := [];
    ghost var first := cursor.next;
    while true
      invariant first <= cursor.next <= Max(first, n + 1)
      invariant Consistent(n, cursor, bins)
      invariant recorded == Ascending(first, cursor.next - 1)
      decreases n + 1 - cursor.next
    {
      var myN := Serve(n, cursor, bins);
      if myN > n {
        assert recorded == Ascending(first, myN - 1);
        assert Ascending(first, myN - 1) == Ascending(first, n) by {
          if first > n {
            assert |Ascending(first, myN - 1)| == 0 == |Ascending(first, n)|;
          } else {
            assert myN - 1 == n;
          }
        }
        assert Min(cursor.next - 1, n) == n;
        break;
      }
      AscendingSnoc(first, myN);
      recorded := recorded + [myN];
    }
  }

  /** A whole run, serialized: reset the shared state, then run the `t`
      workers one after the other. The histogram sums to `n`, each bin counts
      exactly the start values in [1, n] whose clamped stopping time is that
      bin, the values recorded are 1, 2, ..., n, and every worker makes exactly
      one claim beyond `n`. */
  method Run(n: nat, t: nat, cursor: Cursor, bins: Bins) returns (ghost recorded: seq<nat>)
    requires t >= 1 && bins.Valid()
    requires forall k :: 1 <= k <= n ==> Defined(k)
    modifies cursor, bins.counts
    ensures bins.counts[..] == Tally(Range(1, n))
    ensures Sum(bins.counts[..]) == n
    ensures forall b :: 0 <= b < Size ==>
      bins.counts[b] == |set k | 1 <= k <= n && Bin(StoppingTime(k)) == b|
    ensures recorded == Ascending(1, n)
    ensures cursor.next == n + 1 + t
  {
    bins.Reset();
    cursor.Store(1);
    TallyEmpty();
    recorded := [];
    for i := 0 to t
      invariant Consistent(n, cursor, bins)
      invariant i == 0 ==> cursor.next == 1 && recorded == []
      invariant i > 0 ==> cursor.next == n + 1 + i && recorded == Ascending(1, n)
    {
      var more := Worker(n, cursor, bins);
      assert i > 0 ==> more == [];
      recorded := recorded + more;
    }
    HistogramOfRange(n);
  }
}
