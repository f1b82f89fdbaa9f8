/** The elapsed time of a run, from two clock readings, with the borrow that
    keeps the nanosecond part in [0, 10^9). */
module Timing {

  const NanosPerSecond: int := 1_000_000_000

  /** A clock reading: seconds and nanoseconds. */
  datatype Timespec = Timespec(sec: int, nsec: int)

  /** The reading as a single count of nanoseconds. */
  function TotalNanos(t: Timespec): int {
    t.sec * NanosPerSecond + t.nsec
  }

  /** The nanosecond part lies in [0, 10^9), as the clock delivers it. */
  predicate Normalized(t: Timespec) {
    0 <= t.nsec < NanosPerSecond
  }

  /** The difference `end - start`, seconds and nanoseconds subtracted
      separately, with one second borrowed when the nanoseconds went negative.
      The result always stands for the difference in nanoseconds; for two
      normalized readings it is normalized too, and it is not negative when
      the end is not before the start. */
  function Elapsed(start: Timespec, end: Timespec): (d: Timespec)
    ensures TotalNanos(d) == TotalNanos(end) - TotalNanos(start)
    ensures Normalized(start) && Normalized(end) ==> Normalized(d)
    ensures Normalized(start) && Normalized(end) && TotalNanos(start) <= TotalNanos(end) ==>
      d.sec >= 0
  {
    var sec := end.sec - start.sec;
    var nsec := end.nsec - start.nsec;
    if nsec < 0 then Timespec(sec - 1, nsec + NanosPerSecond) else Timespec(sec, nsec)
  }

  /** A normalized reading is determined by its count of nanoseconds. */
  lemma NormalizedUnique(a: Timespec, b: Timespec)
    requires Normalized(a) && Normalized(b) && TotalNanos(a) == TotalNanos(b)
    ensures a == b
  {
  }

  /** For normalized readings the elapsed time is the difference in
      nanoseconds split into whole seconds and the remainder. */
  lemma ElapsedIsDivision(start: Timespec, end: Timespec)
    requires Normalized(start) && Normalized(end)
    ensures var diff := TotalNanos(end) - TotalNanos(start);
      Elapsed(start, end) == Timespec(diff / NanosPerSecond, diff % NanosPerSecond)
  {
    var diff := TotalNanos(end) - TotalNanos(start);
    var q := Timespec(diff / NanosPerSecond, diff % NanosPerSecond);
    assert TotalNanos(q) == diff;
    NormalizedUnique(Elapsed(start, end), q);
  }
}
