/** The Collatz stopping time: how many applications of the rule
    n -> n/2 (n even), n -> 3n+1 (n odd) take a start value to 1.

    Whether every start value reaches 1 is the open Collatz conjecture, so
    nothing here claims termination: the executable loop takes as its
    precondition that the start value reaches 1 (`Defined`), and every
    property is stated about a step count that is known to exist. */
module Collatz {

  datatype Option<T> = None | Some(value: T)

  /** One application of the Collatz rule (the 128-bit intermediate of the
      implementation is modelled by an unbounded natural number). An even
      value is halved; an odd value rises to an even one. The rule never
      takes a positive value to 0. */
  function Step(n: nat): (m: nat)
    ensures n % 2 == 0 ==> 2 * m == n
    ensures n % 2 == 1 ==> m > n && m % 2 == 0
    ensures n >= 1 ==> m >= 1
  {
    if n % 2 == 0 then n / 2 else 3 * n + 1
  }

  /** The value reached from `n` after `k` applications of the rule. */
  function Iterate(n: nat, k: nat): nat
    decreases k
  {
    if k == 0 then n else Iterate(Step(n), k - 1)
  }

  /** `n` reaches 1 after some number of steps. */
  ghost predicate ReachesOne(n: nat) {
    exists k :: Iterate(n, k) == 1
  }

  /** The stopping time of `n` is meaningful: either the guard for 0 and 1
      answers at once, or the sequence from `n` reaches 1. */
  ghost predicate Defined(n: nat) {
    n <= 1 || ReachesOne(n)
  }

  /** `k` steps take `n` to 1 for the first time. */
  ghost predicate FirstArrival(n: nat, k: nat) {
    Iterate(n, k) == 1 && forall j :: 0 <= j < k ==> Iterate(n, j) != 1
  }

  /** `k` is the stopping time of `start`: 0 for 0 and 1, otherwise the number
      of steps after which the sequence first equals 1. */
  ghost predicate IsStoppingTime(start: nat, k: nat) {
    if start <= 1 then k == 0 else FirstArrival(start, k)
  }

  /** Applying the rule once more at the end is the same as once more at the front. */
  lemma {:induction false} IterateSnoc(n: nat, k: nat)
    ensures Iterate(n, k + 1) == Step(Iterate(n, k))
    decreases k
  {
    if k > 0 {
      IterateSnoc(Step(n), k - 1);
    }
  }

  /** The step recurrence: for n >= 2 the stopping time of n is one more than
      that of n/2 (n even) or of 3n+1 (n odd). */
  lemma {:induction false} Recurrence(n: nat, k: nat)
    requires n >= 2
    ensures n % 2 == 0 ==> (IsStoppingTime(n, k) <==> k >= 1 && IsStoppingTime(n / 2, k - 1))
    ensures n % 2 == 1 ==> (IsStoppingTime(n, k) <==> k >= 1 && IsStoppingTime(3 * n + 1, k - 1))
  {
    var m := Step(n);
    if IsStoppingTime(n, k) {
      assert k >= 1 by { assert Iterate(n, 0) == n; }
      forall j | 0 <= j < k - 1
        ensures Iterate(m, j) != 1
      {
        assert Iterate(n, j + 1) != 1;
      }
      if m == 1 {
        assert k - 1 == 0 by { assert Iterate(n, 1) == 1; }
      }
    }
    if k >= 1 && IsStoppingTime(m, k - 1) {
      assert FirstArrival(m, k - 1) by {
        if m == 1 { assert k - 1 == 0; }
      }
      forall j | 0 <= j < k
        ensures Iterate(n, j) != 1
      {
        if j > 0 {
          assert Iterate(n, j) == Iterate(m, j - 1);
        }
      }
    }
  }

  /** The stopping time is unique. */
  lemma StoppingTimeUnique(n: nat, k1: nat, k2: nat)
    requires IsStoppingTime(n, k1) && IsStoppingTime(n, k2)
    ensures k1 == k2
  {
  }

  /** The loop of the implementation run from the state (`n`, `steps`) for
      at most `fuel` more iterations: the final step count, or `None` when the
      value has not reached 1 by then. It runs at most `fuel` iterations.
      The guard `n <= 1` joins the early return for 0 and 1 with the loop's
      test for 1; the two agree because the rule never takes a positive
      value to 0 (`Step`). */
  function StepsWithin(n: nat, fuel: nat, steps: nat): (r: Option<nat>)
    ensures r.Some? ==> steps <= r.value <= steps + fuel
    decreases fuel
  {
    if n <= 1 then Some(steps)
    else if fuel == 0 then None
    else StepsWithin(Step(n), fuel - 1, steps + 1)
  }

  /** A step count the bounded loop returns is the stopping time, counted on
      from `steps`. */
  lemma {:induction false} StepsWithinSound(n: nat, fuel: nat, steps: nat)
    requires StepsWithin(n, fuel, steps).Some?
    ensures IsStoppingTime(n, StepsWithin(n, fuel, steps).value - steps)
    ensures StepsWithin(n, fuel, steps).value - steps <= fuel
    decreases fuel
  {
    if n > 1 {
      var r := StepsWithin(Step(n), fuel - 1, steps + 1);
      StepsWithinSound(Step(n), fuel - 1, steps + 1);
      Recurrence(n, r.value - steps);
    }
  }

  /** Enough fuel always yields the stopping time: if `fuel` steps take `n`
      to 1, the bounded loop does not run out. */
  lemma {:induction false} FuelSuffices(n: nat, fuel: nat, steps: nat)
    requires n >= 1 && Iterate(n, fuel) == 1
    ensures StepsWithin(n, fuel, steps).Some?
    decreases fuel
  {
    if n > 1 {
      assert fuel > 0;
      FuelSuffices(Step(n), fuel - 1, steps + 1);
    }
  }

  /** The stopping time as a (ghost) function of its argument: the bounded
      loop, given as many iterations as some path to 1 takes. What it computes
      is stated by `StoppingTimeSpec`. */
  ghost function StoppingTime(n: nat): nat
    requires Defined(n)
  {
    if n <= 1 then 0
    else
      FuelExists(n);
      var fuel :| StepsWithin(n, fuel, 0).Some?;
      StepsWithin(n, fuel, 0).value
  }

  /** A start value that reaches 1 has a bound under which the loop ends. */
  lemma FuelExists(n: nat)
    requires Defined(n)
    ensures exists fuel :: StepsWithin(n, fuel, 0).Some?
  {
    if n <= 1 {
      assert StepsWithin(n, 0, 0).Some?;
    } else {
      var fuel :| Iterate(n, fuel) == 1;
      FuelSuffices(n, fuel, 0);
    }
  }

  /** The stopping time function yields the stopping time. */
  lemma StoppingTimeSpec(n: nat)
    requires Defined(n)
    ensures IsStoppingTime(n, StoppingTime(n))
  {
    if n > 1 {
      var fuel :| StepsWithin(n, fuel, 0) == Some(StoppingTime(n));
      StepsWithinSound(n, fuel, 0);
    }
  }

  /** The recurrence on the stopping time function itself. */
  lemma StoppingTimeStep(n: nat)
    requires n >= 2 && Defined(n)
    ensures Defined(Step(n))
    ensures StoppingTime(n) == 1 + StoppingTime(Step(n))
  {
    var k := StoppingTime(n);
    StoppingTimeSpec(n);
    Recurrence(n, k);
    var m := Step(n);
    if m > 1 {
      assert Iterate(m, k - 1) == 1;
    }
    StoppingTimeSpec(m);
    StoppingTimeUnique(m, k - 1, StoppingTime(m));
  }

  /** The implementation's loop: count rule applications until the value is 1.
      Values 0 and 1 answer 0 without entering the loop. */
  method ComputeStoppingTime(start: nat) returns (steps: nat)
    requires Defined(start)
    ensures IsStoppingTime(start, steps)
    ensures steps == StoppingTime(start)
  {
    if start <= 1 {
      return 0;
    }
    ghost var bound: nat :| Iterate(start, bound) == 1;
    steps := 0;
    var n := start;
    while n != 1
      invariant n == Iterate(start, steps)
      invariant steps <= bound
      invariant forall j :: 0 <= j < steps ==> Iterate(start, j) != 1
      decreases bound - steps
    {
      if steps == bound {
        assert false;
      }
      IterateSnoc(start, steps);
      n := if n % 2 == 0 then n / 2 else 3 * n + 1;
      steps := steps + 1;
    }
    StoppingTimeSpec(start);
    StoppingTimeUnique(start, steps, StoppingTime(start));
  }
}
