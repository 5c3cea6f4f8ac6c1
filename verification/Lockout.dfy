/** How many failures a counter with a lock lets through in a window of time: exactly as
    many as `Budget` says, whatever else happens in between. */
module Lockout {
  import opened Users

  /** What a counter sees of a request: nothing, or a failure that was let through at
      `check` and counted at `at`. */
  datatype Act = Quiet(at: Time) | Failure(check: Time, at: Time)

  /** Requests one after the other between `lo` and `hi`, failures only while unlocked. */
  predicate Admissible(l: Lock, acts: seq<Act>, max: nat, lo: Time, hi: Time)
    decreases acts
  {
    acts == [] || (
      match acts[0]
      case Quiet(at) => lo <= at <= hi && Admissible(l, acts[1..], max, at, hi)
      case Failure(check, at) =>
        lo <= check <= at <= hi && !Locked(l, check) && Admissible(Failed(l, max, at), acts[1..], max, at, hi))
  }

  function Failures(acts: seq<Act>): nat {
    if acts == [] then 0 else (if acts[0].Failure? then 1 else 0) + Failures(acts[1..])
  }

  /** The first time from `lo` on at which the counter is not locked. */
  function NextFree(l: Lock, lo: Time): Time {
    if Locked(l, lo) then l.until.value else lo
  }

  function Max(a: int, b: int): int { if a >= b then a else b }

  /** The failures the window has room for: those left before the first lock, at least one,
      and one more for every further full lock time. */
  function Budget(l: Lock, max: nat, lo: Time, hi: Time): int {
    var free := NextFree(l, lo);
    if free > hi then 0 else Max(1, max - l.attempts) + (hi - free) / LOCK_TIME
  }

  lemma BudgetStep(l: Lock, max: nat, lo: Time, hi: Time, check: Time, at: Time)
    requires lo <= check <= at <= hi && !Locked(l, check)
    ensures 1 + Budget(Failed(l, max, at), max, at, hi) <= Budget(l, max, lo, hi)
  {
    var free := NextFree(l, lo);
    assert free <= check;
    assert (hi - at) / LOCK_TIME <= (hi - free) / LOCK_TIME;
    if l.attempts + 1 >= max && at + LOCK_TIME <= hi {
      assert (hi - (at + LOCK_TIME)) / LOCK_TIME == (hi - at) / LOCK_TIME - 1;
    }
  }

  lemma BudgetShrinks(l: Lock, max: nat, lo: Time, later: Time, hi: Time)
    requires lo <= later
    ensures Budget(l, max, later, hi) <= Budget(l, max, lo, hi)
  {
    var a, b := NextFree(l, lo), NextFree(l, later);
    assert a <= b;
    if b <= hi {
      assert (hi - b) / LOCK_TIME <= (hi - a) / LOCK_TIME;
    }
  }

  /** No admissible sequence of requests fits more failures into the window. */
  lemma {:induction false} FailuresWithinBudget(l: Lock, acts: seq<Act>, max: nat, lo: Time, hi: Time)
    requires Admissible(l, acts, max, lo, hi)
    ensures Failures(acts) <= Budget(l, max, lo, hi)
    decreases acts
  {
    if acts != [] {
      match acts[0]
      case Quiet(at) =>
        FailuresWithinBudget(l, acts[1..], max, at, hi);
        BudgetShrinks(l, max, lo, at, hi);
      case Failure(check, at) =>
        FailuresWithinBudget(Failed(l, max, at), acts[1..], max, at, hi);
        BudgetStep(l, max, lo, hi, check, at);
    }
  }

  /** Failing again as soon as the counter lets it. */
  function Eager(l: Lock, max: nat, lo: Time, hi: Time): seq<Act>
    decreases Max(0, max - l.attempts), hi - NextFree(l, lo)
  {
    var t := NextFree(l, lo);
    if t > hi then [] else [Failure(t, t)] + Eager(Failed(l, max, t), max, t, hi)
  }

  /** A failure at the first free time spends exactly one of the budget. */
  lemma BudgetSpent(l: Lock, max: nat, lo: Time, hi: Time)
    requires NextFree(l, lo) <= hi
    ensures var t := NextFree(l, lo); Budget(l, max, lo, hi) == 1 + Budget(Failed(l, max, t), max, t, hi)
  {
    var t := NextFree(l, lo);
    if l.attempts + 1 >= max {
      assert (hi - (t + LOCK_TIME)) / LOCK_TIME == (hi - t) / LOCK_TIME - 1;
    }
  }

  /** And the budget is reached: it is the exact maximum. */
  lemma {:induction false} BudgetIsReached(l: Lock, max: nat, lo: Time, hi: Time)
    ensures Admissible(l, Eager(l, max, lo, hi), max, lo, hi)
    ensures Failures(Eager(l, max, lo, hi)) == Budget(l, max, lo, hi)
    decreases Max(0, max - l.attempts), hi - NextFree(l, lo)
  {
    var t := NextFree(l, lo);
    if t <= hi {
      var next := Failed(l, max, t);
      BudgetIsReached(next, max, t, hi);
      BudgetSpent(l, max, lo, hi);
      assert Eager(l, max, lo, hi)[1..] == Eager(next, max, t, hi);
    }
  }

  /** The bound in terms of the window's length. */
  lemma RateBound(l: Lock, acts: seq<Act>, max: nat, lo: Time, hi: Time)
    requires lo <= hi && Admissible(l, acts, max, lo, hi)
    ensures Failures(acts) <= Max(1, max - l.attempts) + (hi - lo) / LOCK_TIME
  {
    FailuresWithinBudget(l, acts, max, lo, hi);
    var free := NextFree(l, lo);
    if free <= hi {
      assert (hi - free) / LOCK_TIME <= (hi - lo) / LOCK_TIME;
    }
  }
}
