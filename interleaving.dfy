/** The locked mode with `t` workers, as a state machine over values: every
    step is one worker's atomic claim (under the cursor lock) or atomic record
    (under the histogram lock), and a schedule says which worker moves next.
    Whatever the schedule, once every worker has stopped the histogram is the
    one the serialized run produces. */
module Interleaving {
  import opened Collatz
  import opened Histogram

  /** Where a worker is in its loop: about to claim, holding a claimed value
      whose stopping time it still has to record, or stopped. */
  datatype Phase = Claiming | Holding(value: nat) | Done

  /** The shared cursor, the shared histogram and the phase of each worker. */
  datatype State = State(cursor: nat, hist: seq<nat>, phases: seq<Phase>)

  /** The state after the reset with `t` workers launched. */
  function Start(t: nat): (s: State)
    ensures s.cursor == 1 && s.hist == Zeros()
    ensures |s.phases| == t && forall w :: 0 <= w < t ==> s.phases[w] == Claiming
  {
    State(1, Zeros(), seq(t, _ => Claiming))
  }

  /** Every start value the run can record has a stopping time. */
  ghost predicate Terminates(n: nat) {
    forall k :: 1 <= k <= n ==> Defined(k)
  }

  /** The values workers have claimed but not yet recorded. */
  function Held(phases: seq<Phase>): set<nat> {
    set w | 0 <= w < |phases| && phases[w].Holding? :: phases[w].value
  }

  /** No value is held by two workers. */
  ghost predicate HeldOnce(phases: seq<Phase>) {
    forall w1, w2 ::
      0 <= w1 < |phases| && 0 <= w2 < |phases| && w1 != w2 &&
      phases[w1].Holding? && phases[w2].Holding? ==>
        phases[w1].value != phases[w2].value
  }

  /** What one worker holds, as a set. */
  function HeldBy(p: Phase): set<nat> {
    if p.Holding? then {p.value} else {}
  }

  /** Changing the phase of worker `w` removes what it held and adds what it
      now holds. */
  lemma HeldUpdate(ps: seq<Phase>, w: nat, p: Phase)
    requires w < |ps| && HeldOnce(ps)
    ensures Held(ps[w := p]) == (Held(ps) - HeldBy(ps[w])) + HeldBy(p)
  {
    var qs := ps[w := p];
    forall x | x in Held(qs)
      ensures x in (Held(ps) - HeldBy(ps[w])) + HeldBy(p)
    {
      var i :| 0 <= i < |qs| && qs[i].Holding? && qs[i].value == x;
      if i != w {
        assert ps[i].Holding? && ps[i].value == x;
      }
    }
    forall x | x in (Held(ps) - HeldBy(ps[w])) + HeldBy(p)
      ensures x in Held(qs)
    {
      if x in HeldBy(p) {
        assert qs[w].Holding? && qs[w].value == x;
      } else {
        var i :| 0 <= i < |ps| && ps[i].Holding? && ps[i].value == x;
        assert i != w;
        assert qs[i].Holding? && qs[i].value == x;
      }
    }
  }

  /** How many workers have stopped. */
  function DoneCount(phases: seq<Phase>): nat {
    if phases == [] then 0
    else (if phases[0].Done? then 1 else 0) + DoneCount(phases[1..])
  }

  /** The invariant of the locked protocol for the work range [1, n]:
      claimed values are below the cursor; a held value is in [1, n] and held
      by one worker only; a worker stops only after the cursor passed n + 1;
      every claim beyond n stopped exactly one worker; and the histogram holds
      exactly the claimed values up to n that are no longer held. */
  ghost predicate Inv(n: nat, s: State) {
    && s.cursor >= 1
    && |s.hist| == Size
    && PhasesOk(n, s.cursor, s.phases)
    && s.cursor - 1 == Min(s.cursor - 1, n) + DoneCount(s.phases)
    && s.hist == Tally(Recorded(n, s))
  }

  /** The part of the invariant about the workers' phases alone. */
  ghost predicate PhasesOk(n: nat, cursor: nat, phases: seq<Phase>) {
    && (forall w :: 0 <= w < |phases| && phases[w].Holding? ==>
          1 <= phases[w].value <= n && phases[w].value < cursor)
    && HeldOnce(phases)
    && (forall w :: 0 <= w < |phases| && phases[w].Done? ==> cursor > n + 1)
  }

  /** The values that have been claimed, are at most n and are no longer held:
      those the histogram should already count. */
  function Recorded(n: nat, s: State): (r: set<nat>)
    requires s.cursor >= 1
    ensures forall k :: k in r ==> 1 <= k <= n
  {
    Range(1, Min(s.cursor - 1, n)) - Held(s.phases)
  }

  /** One atomic step of worker `w`. A claiming worker takes the cursor value
      and advances the cursor; it stops if the value exceeds n. A holding
      worker adds one to the bin of its value's clamped stopping time and goes
      back to claiming. A stopped worker does nothing. */
  ghost function Act(n: nat, s: State, w: nat): (r: State)
    requires Terminates(n) && Inv(n, s) && w < |s.phases|
    ensures |r.phases| == |s.phases|
  {
    match s.phases[w]
    case Claiming =>
      if s.cursor > n then s.(cursor := s.cursor + 1, phases := s.phases[w := Done])
      else s.(cursor := s.cursor + 1, phases := s.phases[w := Holding(s.cursor)])
    case Holding(m) =>
      var b := Bin(StoppingTime(m));
      s.(hist := s.hist[b := s.hist[b] + 1], phases := s.phases[w := Claiming])
    case Done => s
  }

  /** Replacing one phase changes the number of stopped workers accordingly. */
  lemma {:induction false} DoneCountUpdate(ps: seq<Phase>, w: nat, p: Phase)
    requires w < |ps|
    ensures DoneCount(ps[w := p]) + (if ps[w].Done? then 1 else 0)
         == DoneCount(ps) + (if p.Done? then 1 else 0)
  {
    if w > 0 {
      assert ps[w := p][1..] == ps[1..][w - 1 := p];
      DoneCountUpdate(ps[1..], w - 1, p);
    } else {
      assert ps[w := p][1..] == ps[1..];
    }
  }

  /** When every worker has stopped, all of them are counted. */
  lemma {:induction false} DoneCountAll(ps: seq<Phase>)
    requires forall w :: 0 <= w < |ps| ==> ps[w].Done?
    ensures DoneCount(ps) == |ps|
  {
    if ps != [] {
      DoneCountAll(ps[1..]);
    }
  }

  /** No worker has stopped yet. */
  lemma {:induction false} DoneCountNone(ps: seq<Phase>)
    requires forall w :: 0 <= w < |ps| ==> !ps[w].Done?
    ensures DoneCount(ps) == 0
  {
    if ps != [] {
      DoneCountNone(ps[1..]);
    }
  }

  /** The state after the reset satisfies the invariant. */
  lemma StartInv(n: nat, t: nat)
    requires Terminates(n)
    ensures Inv(n, Start(t))
  {
    var s := Start(t);
    DoneCountNone(s.phases);
    assert Held(s.phases) == {};
    assert Range(1, 0) == {};
    TallyEmpty();
  }

  /** The phases after a claim within [1, n]: the new value is held once. */
  lemma ClaimInRangePhases(n: nat, c: nat, phases: seq<Phase>, w: nat)
    requires PhasesOk(n, c, phases) && w < |phases| && phases[w] == Claiming
    requires 1 <= c <= n
    ensures PhasesOk(n, c + 1, phases[w := Holding(c)])
    ensures forall i :: 0 <= i < |phases| ==> !phases[i].Done?
  {
    var ps := phases[w := Holding(c)];
    forall i | 0 <= i < |ps| && ps[i].Holding?
      ensures 1 <= ps[i].value <= n && ps[i].value < c + 1
    {
      if i != w {
        assert ps[i] == phases[i];
      }
    }
    forall i, j | 0 <= i < |ps| && 0 <= j < |ps| && i != j && ps[i].Holding? && ps[j].Holding?
      ensures ps[i].value != ps[j].value
    {
      if i != w && j != w {
        assert ps[i] == phases[i] && ps[j] == phases[j];
      } else if i == w {
        assert ps[j] == phases[j];
      } else {
        assert ps[i] == phases[i];
      }
    }
    forall i | 0 <= i < |ps|
      ensures !ps[i].Done?
    {
      if i != w {
        assert ps[i] == phases[i];
      }
    }
  }

  /** Claiming c adds c both to the claimed range and to the held values. */
  lemma ClaimInRangeSets(c: nat, held: set<nat>)
    requires c >= 1 && c !in held
    ensures Range(1, c) - (held + {c}) == Range(1, c - 1) - held
  {
    assert Range(1, c) == Range(1, c - 1) + {c};
  }

  /** A worker's claim that stays within [1, n] keeps the invariant. */
  lemma ClaimInRangeInv(n: nat, s: State, w: nat)
    requires Terminates(n) && Inv(n, s) && w < |s.phases|
    requires s.phases[w] == Claiming && s.cursor <= n
    ensures Inv(n, Act(n, s, w))
  {
    var c := s.cursor;
    var ps := s.phases[w := Holding(c)];
    var r := Act(n, s, w);
    assert r == State(c + 1, s.hist, ps);
    ClaimInRangePhases(n, c, s.phases, w);
    DoneCountUpdate(s.phases, w, Holding(c));
    DoneCountNone(s.phases);
    HeldUpdate(s.phases, w, Holding(c));
    assert Held(ps) == Held(s.phases) + {c};
    assert c !in Held(s.phases);
    ClaimInRangeSets(c, Held(s.phases));
    assert Recorded(n, r) == Range(1, c) - Held(ps);
    assert Recorded(n, s) == Range(1, c - 1) - Held(s.phases);
  }

  /** A worker's claim beyond n stops it and keeps the invariant. */
  lemma ClaimBeyondInv(n: nat, s: State, w: nat)
    requires Terminates(n) && Inv(n, s) && w < |s.phases|
    requires s.phases[w] == Claiming && s.cursor > n
    ensures Inv(n, Act(n, s, w))
  {
    var r := s.(cursor := s.cursor + 1, phases := s.phases[w := Done]);
    assert Act(n, s, w) == r;
    ClaimBeyondPhases(n, s.cursor, s.phases, w);
    DoneCountUpdate(s.phases, w, Done);
    HeldUpdate(s.phases, w, Done);
    assert Held(r.phases) == Held(s.phases);
    assert Min(r.cursor - 1, n) == Min(s.cursor - 1, n) == n;
  }

  /** The phases after a claim beyond n: the worker has stopped. */
  lemma ClaimBeyondPhases(n: nat, c: nat, phases: seq<Phase>, w: nat)
    requires PhasesOk(n, c, phases) && w < |phases| && phases[w] == Claiming && c > n
    ensures PhasesOk(n, c + 1, phases[w := Done])
  {
    var ps := phases[w := Done];
    forall i | 0 <= i < |ps| && ps[i].Holding?
      ensures 1 <= ps[i].value <= n && ps[i].value < c + 1
    {
      assert i != w && ps[i] == phases[i];
    }
    forall i, j | 0 <= i < |ps| && 0 <= j < |ps| && i != j && ps[i].Holding? && ps[j].Holding?
      ensures ps[i].value != ps[j].value
    {
      assert ps[i] == phases[i] && ps[j] == phases[j];
    }
  }

  /** The phases after worker w records: w is claiming again. */
  lemma RecordPhases(n: nat, c: nat, phases: seq<Phase>, w: nat)
    requires PhasesOk(n, c, phases) && w < |phases| && phases[w].Holding?
    ensures PhasesOk(n, c, phases[w := Claiming])
  {
    var ps := phases[w := Claiming];
    forall i | 0 <= i < |ps| && ps[i].Holding?
      ensures 1 <= ps[i].value <= n && ps[i].value < c
    {
      assert i != w && ps[i] == phases[i];
    }
    forall i, j | 0 <= i < |ps| && 0 <= j < |ps| && i != j && ps[i].Holding? && ps[j].Holding?
      ensures ps[i].value != ps[j].value
    {
      assert ps[i] == phases[i] && ps[j] == phases[j];
    }
    forall i | 0 <= i < |ps| && ps[i].Done?
      ensures c > n + 1
    {
      assert ps[i] == phases[i];
    }
  }

  /** Recording a held value keeps the invariant. */
  lemma RecordInv(n: nat, s: State, w: nat)
    requires Terminates(n) && Inv(n, s) && w < |s.phases| && s.phases[w].Holding?
    ensures Inv(n, Act(n, s, w))
  {
    var m := s.phases[w].value;
    var b := Bin(StoppingTime(m));
    var r := s.(hist := s.hist[b := s.hist[b] + 1], phases := s.phases[w := Claiming]);
    assert Act(n, s, w) == r;
    RecordRecorded(n, s, w);
    TallyInsert(Recorded(n, s), m);
    RecordPhases(n, s.cursor, s.phases, w);
    DoneCountUpdate(s.phases, w, Claiming);
  }

  /** Once worker w records its held value, that value counts as recorded. */
  lemma RecordRecorded(n: nat, s: State, w: nat)
    requires Terminates(n) && Inv(n, s) && w < |s.phases| && s.phases[w].Holding?
    ensures s.phases[w].value !in Recorded(n, s)
    ensures Recorded(n, s.(phases := s.phases[w := Claiming]))
         == Recorded(n, s) + {s.phases[w].value}
  {
    var m := s.phases[w].value;
    var ps := s.phases[w := Claiming];
    HeldUpdate(s.phases, w, Claiming);
    assert m in Held(s.phases);
    assert Held(ps) == Held(s.phases) - {m};
    RecordSets(Range(1, Min(s.cursor - 1, n)), Held(s.phases), m);
  }

  /** Releasing a held value m that lies in the claimed range adds it to the
      recorded values. */
  lemma RecordSets(claimed: set<nat>, held: set<nat>, m: nat)
    requires m in claimed && m in held
    ensures m !in claimed - held
    ensures claimed - (held - {m}) == (claimed - held) + {m}
  {
  }

  /** Every atomic step keeps the invariant. */
  lemma ActInv(n: nat, s: State, w: nat)
    requires Terminates(n) && Inv(n, s) && w < |s.phases|
    ensures Inv(n, Act(n, s, w))
  {
    match s.phases[w]
    case Claiming =>
      if s.cursor > n {
        ClaimBeyondInv(n, s, w);
      } else {
        ClaimInRangeInv(n, s, w);
      }
    case Holding(_) =>
      RecordInv(n, s, w);
    case Done =>
  }

  /** Every entry of the schedule names one of the workers. */
  ghost predicate ValidSchedule(schedule: seq<nat>, t: nat) {
    forall i :: 0 <= i < |schedule| ==> schedule[i] < t
  }

  /** The state after the workers move in the order the schedule gives. */
  ghost function Execute(n: nat, s: State, schedule: seq<nat>): (r: State)
    requires Terminates(n) && Inv(n, s) && ValidSchedule(schedule, |s.phases|)
    ensures Inv(n, r) && |r.phases| == |s.phases|
    decreases |schedule|
  {
    if schedule == [] then s
    else
      ActInv(n, s, schedule[0]);
      Execute(n, Act(n, s, schedule[0]), schedule[1..])
  }

  /** Every worker has stopped. */
  predicate AllDone(s: State) {
    forall w :: 0 <= w < |s.phases| ==> s.phases[w].Done?
  }

  /** The state after a run of `t` workers, from the reset, under `schedule`. */
  ghost function RunSchedule(n: nat, t: nat, schedule: seq<nat>): (r: State)
    requires Terminates(n) && ValidSchedule(schedule, t)
    ensures Inv(n, r) && |r.phases| == t
  {
    StartInv(n, t);
    Execute(n, Start(t), schedule)
  }

  /** Under any schedule of t >= 1 workers after which every worker has
      stopped, the histogram is the histogram of [1, n] (so it sums to n and
      each bin counts exactly the values whose clamped stopping time it is),
      and the cursor ends at n + 1 + t: each worker made exactly one claim
      beyond n. */
  lemma AnySchedule(n: nat, t: nat, schedule: seq<nat>)
    requires Terminates(n) && t >= 1 && ValidSchedule(schedule, t)
    requires AllDone(RunSchedule(n, t, schedule))
    ensures RunSchedule(n, t, schedule).hist == Tally(Range(1, n))
    ensures Sum(RunSchedule(n, t, schedule).hist) == n
    ensures RunSchedule(n, t, schedule).cursor == n + 1 + t
  {
    var r := RunSchedule(n, t, schedule);
    assert r.phases[0].Done?;
    DoneCountAll(r.phases);
    assert Held(r.phases) == {};
    assert Range(1, n) - {} == Range(1, n);
    HistogramOfRange(n);
  }

  /** The final histogram does not depend on the interleaving: two schedules,
      for any numbers of workers, that both run every worker to its end give
      the same histogram. */
  lemma ScheduleIndependent(n: nat, t1: nat, s1: seq<nat>, t2: nat, s2: seq<nat>)
    requires Terminates(n) && t1 >= 1 && t2 >= 1
    requires ValidSchedule(s1, t1) && ValidSchedule(s2, t2)
    requires AllDone(RunSchedule(n, t1, s1)) && AllDone(RunSchedule(n, t2, s2))
    ensures RunSchedule(n, t1, s1).hist == RunSchedule(n, t2, s2).hist
  {
    AnySchedule(n, t1, s1);
    AnySchedule(n, t2, s2);
  }

  /** `k` moves of worker 0. */
  function Solo(k: nat): (schedule: seq<nat>)
    ensures |schedule| == k && forall i :: 0 <= i < k ==> schedule[i] == 0
  {
    seq(k, _ => 0)
  }

  /** One move each of workers `w`, w + 1, ..., t - 1, in that order. */
  function Each(w: nat, t: nat): (schedule: seq<nat>)
    requires w <= t
    ensures |schedule| == t - w && forall i :: 0 <= i < t - w ==> schedule[i] == w + i
  {
    seq(t - w, i => w + i)
  }

  /** Every worker is about to claim. */
  ghost predicate AllClaiming(phases: seq<Phase>) {
    forall w :: 0 <= w < |phases| ==> phases[w] == Claiming
  }

  /** Worker 0, moving alone from cursor c <= n + 1 while the others wait to
      claim, has claimed and recorded every value from c to n after
      2(n + 1 - c) moves, and stops with one more claim. The cursor is then
      n + 2 and no other worker has moved. */
  lemma {:induction false} SoloRuns(n: nat, s: State)
    requires Terminates(n) && Inv(n, s)
    requires |s.phases| >= 1 && AllClaiming(s.phases) && s.cursor <= n + 1
    ensures Execute(n, s, Solo(2 * (n + 1 - s.cursor) + 1)).phases == s.phases[0 := Done]
    ensures Execute(n, s, Solo(2 * (n + 1 - s.cursor) + 1)).cursor == n + 2
    decreases n + 1 - s.cursor
  {
    var k := 2 * (n + 1 - s.cursor) + 1;
    if s.cursor <= n {
      var s2 := SoloRound(n, s, k);
      var rest := 2 * (n + 1 - s2.cursor) + 1;
      assert rest == k - 2;
      SoloRuns(n, s2);
    } else {
      SoloLast(n, s);
    }
  }

  /** Worker 0's claim of a value within [1, n] and the record that follows:
      two moves, after which it claims again at the next value. */
  lemma SoloRound(n: nat, s: State, k: nat) returns (s2: State)
    requires Terminates(n) && Inv(n, s)
    requires |s.phases| >= 1 && AllClaiming(s.phases) && s.cursor <= n && k >= 2
    ensures Inv(n, s2) && s2.phases == s.phases && s2.cursor == s.cursor + 1
    ensures Execute(n, s, Solo(k)) == Execute(n, s2, Solo(k - 2))
  {
    var s1 := SoloMove(n, s, k);
    assert s1.phases == s.phases[0 := Holding(s.cursor)] && s1.cursor == s.cursor + 1;
    s2 := SoloMove(n, s1, k - 1);
    assert s2.phases == s.phases[0 := Holding(s.cursor)][0 := Claiming];
  }

  /** One move of worker 0, then the rest of its moves. */
  lemma SoloMove(n: nat, s: State, k: nat) returns (s1: State)
    requires Terminates(n) && Inv(n, s) && |s.phases| >= 1 && k >= 1
    ensures s1 == Act(n, s, 0) && Inv(n, s1)
    ensures Execute(n, s, Solo(k)) == Execute(n, s1, Solo(k - 1))
  {
    s1 := Act(n, s, 0);
    assert Solo(k)[0] == 0 && Solo(k)[1..] == Solo(k - 1);
    ExecuteStep(n, s, Solo(k));
  }

  /** Worker 0's claim beyond n stops it. */
  lemma SoloLast(n: nat, s: State)
    requires Terminates(n) && Inv(n, s)
    requires |s.phases| >= 1 && AllClaiming(s.phases) && s.cursor == n + 1
    ensures Execute(n, s, Solo(1)).phases == s.phases[0 := Done]
    ensures Execute(n, s, Solo(1)).cursor == n + 2
  {
    ExecuteStep(n, s, Solo(1));
    assert Solo(1)[1..] == [];
  }

  /** Executing a non-empty schedule is one step, then the rest. */
  lemma ExecuteStep(n: nat, s: State, schedule: seq<nat>)
    requires Terminates(n) && Inv(n, s) && ValidSchedule(schedule, |s.phases|)
    requires schedule != []
    ensures Inv(n, Act(n, s, schedule[0]))
    ensures ValidSchedule(schedule[1..], |s.phases|)
    ensures Execute(n, s, schedule) == Execute(n, Act(n, s, schedule[0]), schedule[1..])
  {
    ActInv(n, s, schedule[0]);
  }

  /** Running one schedule and then another is running the two one after
      the other. */
  lemma {:induction false} ExecuteAppend(n: nat, s: State, a: seq<nat>, b: seq<nat>)
    requires Terminates(n) && Inv(n, s)
    requires ValidSchedule(a, |s.phases|) && ValidSchedule(b, |s.phases|)
    ensures ValidSchedule(a + b, |s.phases|)
    ensures Execute(n, s, a + b) == Execute(n, Execute(n, s, a), b)
    decreases |a|
  {
    ScheduleAppend(a, b, |s.phases|);
    if a != [] {
      ExecuteStep(n, s, a);
      ExecuteStep(n, s, a + b);
      ExecuteAppend(n, Act(n, s, a[0]), a[1..], b);
    }
  }

  /** How a concatenated schedule starts and goes on. */
  lemma ScheduleAppend(a: seq<nat>, b: seq<nat>, t: nat)
    requires ValidSchedule(a, t) && ValidSchedule(b, t)
    ensures ValidSchedule(a + b, t)
    ensures a == [] ==> a + b == b
    ensures a != [] ==> (a + b)[0] == a[0] && (a + b)[1..] == a[1..] + b
  {
    if a == [] {
      assert a + b == b;
    } else {
      assert (a + b)[1..] == a[1..] + b;
    }
  }

  /** Once the cursor has passed n, workers w, ..., t - 1, all about to
      claim, each stop with one move, so that every worker has stopped. */
  lemma {:induction false} OthersStop(n: nat, s: State, w: nat)
    requires Terminates(n) && Inv(n, s) && s.cursor > n && w <= |s.phases|
    requires forall i :: 0 <= i < w ==> s.phases[i].Done?
    requires forall i :: w <= i < |s.phases| ==> s.phases[i] == Claiming
    ensures AllDone(Execute(n, s, Each(w, |s.phases|)))
    decreases |s.phases| - w
  {
    var schedule := Each(w, |s.phases|);
    if w < |s.phases| {
      ExecuteStep(n, s, schedule);
      var s1 := Act(n, s, w);
      assert s1.phases == s.phases[w := Done] && s1.cursor == s.cursor + 1;
      assert schedule[1..] == Each(w + 1, |s.phases|);
      OthersStop(n, s1, w + 1);
    } else {
      assert schedule == [];
    }
  }

  /** A schedule for t workers: worker 0 handles every value alone, then each
      other worker makes its one claim, which is beyond n. */
  function Handoff(n: nat, t: nat): (schedule: seq<nat>)
    requires t >= 1
    ensures |schedule| == 2 * n + t
    ensures forall i :: 0 <= i < |schedule| ==> schedule[i] < t
  {
    Solo(2 * n + 1) + Each(1, t)
  }

  /** For every t >= 1 some schedule runs all t workers to their end, so the
      premise of `AnySchedule` can be met. */
  lemma ScheduleExists(n: nat, t: nat)
    requires Terminates(n) && t >= 1
    ensures ValidSchedule(Handoff(n, t), t)
    ensures AllDone(RunSchedule(n, t, Handoff(n, t)))
  {
    var s := Start(t);
    StartInv(n, t);
    SoloRuns(n, s);
    var r := Execute(n, s, Solo(2 * n + 1));
    ExecuteAppend(n, s, Solo(2 * n + 1), Each(1, t));
    OthersStop(n, r, 1);
  }

  /** One worker alone, moving 2n + 1 times, runs to its end, so every
      schedule of t workers that runs them all to their end gives the
      single worker's histogram. */
  lemma SingleWorker(n: nat, t: nat, schedule: seq<nat>)
    requires Terminates(n)
    ensures AllDone(RunSchedule(n, 1, Solo(2 * n + 1)))
    ensures t >= 1 && ValidSchedule(schedule, t) && AllDone(RunSchedule(n, t, schedule)) ==>
      RunSchedule(n, t, schedule).hist == RunSchedule(n, 1, Solo(2 * n + 1)).hist
  {
    StartInv(n, 1);
    SoloRuns(n, Start(1));
    assert Start(1).phases[0 := Done] == [Done];
    if t >= 1 && ValidSchedule(schedule, t) && AllDone(RunSchedule(n, t, schedule)) {
      ScheduleIndependent(n, t, schedule, 1, Solo(2 * n + 1));
    }
  }
}
