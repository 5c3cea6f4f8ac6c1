/** A counter with a lock when up to `m` requests are in flight: each is let through by the
    row as it was when loaded, and saves its failure over whatever the row has become. The
    counter can then be set back again and again. It is also set back by wrong answers at the
    verify endpoints, which save the whole row as they loaded it. */
module InFlight {
  import opened Option
  import opened Users
  import opened Lockout
  import I = Interleaving

  /** A login is let through with a copy of the counter, or the one in a slot saves its
      failure; a wrong answer to MFA loads a copy, or the one in a slot writes its copy back. */
  datatype Move =
    | Admit(check: Time)
    | Save(slot: nat, at: Time)
    | Load(at: Time)
    | Restore(slot: nat, at: Time)

  /** The counter as stored, and the copies that logins and wrong MFA answers hold. */
  datatype State = State(stored: Lock, held: seq<Lock>, kept: seq<Lock>)

  function TimeOf(a: Move): Time { if a.Admit? then a.check else a.at }

  function Without<X>(held: seq<X>, i: nat): (r: seq<X>)
    requires i < |held|
    ensures |r| == |held| - 1
    ensures forall k | 0 <= k < |r| :: r[k] == held[if k < i then k else k + 1]
  {
    held[..i] + held[i + 1..]
  }

  /** At most `m` logins are in flight; nothing bounds the wrong MFA answers. */
  predicate Possible(s: State, a: Move, m: nat) {
    match a
    case Admit(check) => |s.held| < m && !Locked(s.stored, check)
    case Save(slot, _) => slot < |s.held|
    case Load(_) => true
    case Restore(slot, _) => slot < |s.kept|
  }

  function Step(s: State, a: Move, max: nat, m: nat): State
    requires Possible(s, a, m)
  {
    match a
    case Admit(_) => s.(held := s.held + [s.stored])
    case Save(slot, at) => s.(stored := Failed(s.held[slot], max, at), held := Without(s.held, slot))
    case Load(_) => s.(kept := s.kept + [s.stored])
    case Restore(slot, _) => s.(stored := s.kept[slot], kept := Without(s.kept, slot))
  }

  predicate Admissible(s: State, moves: seq<Move>, max: nat, m: nat, lo: Time, hi: Time)
    decreases moves
  {
    moves == [] || (
      var a := moves[0];
      && lo <= TimeOf(a) <= hi && Possible(s, a, m)
      && Admissible(Step(s, a, max, m), moves[1..], max, m, TimeOf(a), hi))
  }

  function Saved(moves: seq<Move>): nat
    decreases moves
  {
    if moves == [] then 0 else (if moves[0].Save? then 1 else 0) + Saved(moves[1..])
  }

  function Restored(moves: seq<Move>): nat
    decreases moves
  {
    if moves == [] then 0 else (if moves[0].Restore? then 1 else 0) + Restored(moves[1..])
  }

  // -------------------------------------------------- what can still get through

  /** The failures that `j` free slots let through once the counter stands at `v`: one slot
      keeps its copy while the others go on, then saves it. */
  function Most(max: nat, j: nat, v: nat): nat
    decreases j, max - v
  {
    if j == 0 || v >= max then 0 else Most(max, j - 1, v) + 1 + Most(max, j, v + 1)
  }

  /** What standing at `v` and not one higher is worth to `j` slots. */
  function Gain(max: nat, j: nat, v: nat): nat
    requires v < max
  {
    if j == 0 then 0 else Most(max, j - 1, v) + 1
  }

  lemma GainIsDifference(max: nat, j: nat, v: nat)
    requires v < max
    ensures Most(max, j, v) == Gain(max, j, v) + Most(max, j, v + 1)
  {
  }

  lemma {:induction false} MostGrows(max: nat, j: nat, k: nat, v: nat)
    requires j <= k
    ensures Most(max, j, v) <= Most(max, k, v)
    decreases k
  {
    if j < k { MostGrows(max, j, k - 1, v); }
  }

  lemma GainGrows(max: nat, j: nat, k: nat, v: nat)
    requires v < max && j <= k
    ensures Gain(max, j, v) <= Gain(max, k, v)
  {
    if j > 0 { MostGrows(max, j - 1, k - 1, v); }
  }

  /** Locked for the whole lock time from `start` on. */
  predicate Dead(l: Lock, start: Time) { l.until.Some? && l.until.value >= start + LOCK_TIME }

  /** Where a counter stands: at its count, at the last one before locking when its lock is over,
      and past all when it is locked for the rest of the lock time. */
  function Level(max: nat, l: Lock, start: Time): nat
    requires max > 0
  {
    if Dead(l, start) then max else if l.attempts < max then l.attempts else max - 1
  }

  /** A copy that was let through stands at its count. */
  function CopyLevel(max: nat, l: Lock): nat
    requires max > 0
  {
    if l.attempts < max then l.attempts else max - 1
  }

  function AtLeast(max: nat, held: seq<Lock>, c: nat): (n: nat)
    requires max > 0
    ensures n <= |held|
  {
    if held == [] then 0
    else AtLeast(max, held[..|held| - 1], c) + (if CopyLevel(max, held[|held| - 1]) >= c then 1 else 0)
  }

  /** The slots, free ones and copies, that stand at `c` or higher. */
  function Standing(max: nat, m: nat, s: State, start: Time, c: nat): (n: nat)
    requires max > 0 && |s.held| <= m
    ensures n <= m
  {
    AtLeast(max, s.held, c) + (if Level(max, s.stored, start) >= c then m - |s.held| else 0)
  }

  /** What is lost for slots that stand higher than 0, level by level from `c` on. */
  function Lost(max: nat, m: nat, s: State, start: Time, c: nat): nat
    requires max > 0 && |s.held| <= m && c > 0
    decreases max + 1 - c
  {
    if c > max then 0 else Gain(max, Standing(max, m, s, start, c), c - 1) + Lost(max, m, s, start, c + 1)
  }

  /** The most that one lock time lets through. */
  function Full(max: nat, m: nat): nat { Most(max, m, 0) }

  /** What can still get through within the lock time. */
  function Potential(max: nat, m: nat, s: State, start: Time): int
    requires max > 0 && |s.held| <= m
  {
    Full(max, m) - Lost(max, m, s, start, 1)
  }

  lemma {:induction false} AtLeastWithout(max: nat, held: seq<Lock>, i: nat, c: nat)
    requires max > 0 && i < |held|
    ensures AtLeast(max, Without(held, i), c) + (if CopyLevel(max, held[i]) >= c then 1 else 0) == AtLeast(max, held, c)
  {
    var n := |held| - 1;
    if i == n {
      assert Without(held, i) == held[..n];
    } else {
      AtLeastWithout(max, held[..n], i, c);
      WithoutFront(held, i);
    }
  }

  lemma WithoutFront<X>(held: seq<X>, i: nat)
    requires i < |held| - 1
    ensures var r, n := Without(held, i), |held| - 1;
            r[..n - 1] == Without(held[..n], i) && r[n - 1] == held[n]
  {
    var r, n := Without(held, i), |held| - 1;
    var q := Without(held[..n], i);
    assert |q| == n - 1 && forall k | 0 <= k < n - 1 :: r[..n - 1][k] == q[k];
  }

  /** The lost worth depends on where the slots stand only, and more when more stand higher. */
  lemma {:induction false} LostGrows(max: nat, m: nat, s: State, t: State, start: Time, c: nat)
    requires max > 0 && |s.held| <= m && |t.held| <= m && c > 0
    requires forall d | c <= d <= max :: Standing(max, m, s, start, d) <= Standing(max, m, t, start, d)
    ensures Lost(max, m, s, start, c) <= Lost(max, m, t, start, c)
    decreases max + 1 - c
  {
    if c <= max {
      GainGrows(max, Standing(max, m, s, start, c), Standing(max, m, t, start, c), c - 1);
      LostGrows(max, m, s, t, start, c + 1);
    }
  }

  /** When no more than `a` slots stand at `c` or higher, no more is lost there than the `a`
      slots could have let through. */
  lemma {:induction false} LostWithin(max: nat, m: nat, s: State, start: Time, c: nat, a: nat)
    requires max > 0 && |s.held| <= m && c > 0
    requires forall d | c <= d <= max :: Standing(max, m, s, start, d) <= a
    ensures Lost(max, m, s, start, c) <= Most(max, a, c - 1)
    decreases max + 1 - c
  {
    if c <= max {
      GainGrows(max, Standing(max, m, s, start, c), a, c - 1);
      GainIsDifference(max, a, c - 1);
      LostWithin(max, m, s, start, c + 1, a);
    }
  }

  lemma StandingFalls(max: nat, m: nat, s: State, start: Time, c: nat, d: nat)
    requires max > 0 && |s.held| <= m && c <= d
    ensures Standing(max, m, s, start, d) <= Standing(max, m, s, start, c)
  {
    AtLeastFalls(max, s.held, c, d);
  }

  lemma {:induction false} AtLeastFalls(max: nat, held: seq<Lock>, c: nat, d: nat)
    requires max > 0 && c <= d
    ensures AtLeast(max, held, d) <= AtLeast(max, held, c)
  {
    if held != [] { AtLeastFalls(max, held[..|held| - 1], c, d); }
  }

  // ------------------------------------------------------------------- the four moves

  lemma PotentialBounds(max: nat, m: nat, s: State, start: Time)
    requires max > 0 && |s.held| <= m
    ensures 0 <= Potential(max, m, s, start) <= Full(max, m)
  {
    LostWithin(max, m, s, start, 1, m);
  }

  /** Being let through takes a free slot with its standing into the copy. */
  lemma AdmitKeeps(max: nat, m: nat, s: State, check: Time, start: Time)
    requires max > 0 && |s.held| < m && !Locked(s.stored, check) && check < start + LOCK_TIME
    ensures Potential(max, m, s.(held := s.held + [s.stored]), start) == Potential(max, m, s, start)
  {
    var t := s.(held := s.held + [s.stored]);
    assert t.held[..|s.held|] == s.held;
    LostGrows(max, m, s, t, start, 1);
    LostGrows(max, m, t, s, start, 1);
  }

  /** Another copy of the row changes nothing. */
  lemma KeptIsNothing(max: nat, m: nat, s: State, t: State, start: Time)
    requires max > 0 && |s.held| <= m && t.held == s.held && t.stored == s.stored
    ensures Potential(max, m, t, start) == Potential(max, m, s, start)
  {
    LostGrows(max, m, s, t, start, 1);
    LostGrows(max, m, t, s, start, 1);
  }

  /** How a saved failure changes where the slots stand: all free slots and its own now stand
      one above its copy. */
  lemma SaveStanding(max: nat, m: nat, s: State, i: nat, at: Time, start: Time)
    requires max > 0 && i < |s.held| <= m && start <= at
    ensures var t, k := s.(stored := Failed(s.held[i], max, at), held := Without(s.held, i)), CopyLevel(max, s.held[i]);
            && (forall c | 0 < c <= k :: Standing(max, m, s, start, c) <= Standing(max, m, t, start, c))
            && Standing(max, m, s, start, k + 1) + 1 <= Standing(max, m, t, start, k + 1)
  {
    var t, k := s.(stored := Failed(s.held[i], max, at), held := Without(s.held, i)), CopyLevel(max, s.held[i]);
    assert Level(max, t.stored, start) >= k + 1;
    forall c | 0 < c <= k + 1
      ensures AtLeast(max, t.held, c) + (if k >= c then 1 else 0) == AtLeast(max, s.held, c)
    {
      AtLeastWithout(max, s.held, i, c);
    }
  }

  lemma LostFrom(max: nat, m: nat, s: State, t: State, start: Time, c: nat, k: nat, extra: int)
    requires max > 0 && |s.held| <= m && |t.held| <= m && 0 < c <= k + 1 <= max
    requires forall d | c <= d <= k :: Standing(max, m, s, start, d) <= Standing(max, m, t, start, d)
    requires Lost(max, m, s, start, k + 1) + extra <= Lost(max, m, t, start, k + 1)
    ensures Lost(max, m, s, start, c) + extra <= Lost(max, m, t, start, c)
    decreases k + 1 - c
  {
    if c <= k {
      GainGrows(max, Standing(max, m, s, start, c), Standing(max, m, t, start, c), c - 1);
      LostFrom(max, m, s, t, start, c + 1, k, extra);
    }
  }

  /** A failure that is saved uses up at least its own. */
  lemma SaveSpends(max: nat, m: nat, s: State, i: nat, at: Time, start: Time)
    requires max > 0 && i < |s.held| <= m && start <= at
    ensures var t := s.(stored := Failed(s.held[i], max, at), held := Without(s.held, i));
            Potential(max, m, t, start) + 1 <= Potential(max, m, s, start)
  {
    var t, k := s.(stored := Failed(s.held[i], max, at), held := Without(s.held, i)), CopyLevel(max, s.held[i]);
    SaveStanding(max, m, s, i, at, start);
    LevelSpends(max, m, s, t, start, k);
    LostFrom(max, m, s, t, start, 1, k, 1);
  }

  /** At the level the copy moves up to, one slot more is lost than all that was lost above. */
  lemma LevelSpends(max: nat, m: nat, s: State, t: State, start: Time, k: nat)
    requires max > 0 && |s.held| <= m && |t.held| <= m && k < max
    requires Standing(max, m, s, start, k + 1) + 1 <= Standing(max, m, t, start, k + 1)
    ensures Lost(max, m, s, start, k + 1) + 1 <= Lost(max, m, t, start, k + 1)
  {
    var a := Standing(max, m, s, start, k + 1);
    GainGrows(max, a + 1, Standing(max, m, t, start, k + 1), k);
    forall d | k + 2 <= d <= max ensures Standing(max, m, s, start, d) <= a {
      StandingFalls(max, m, s, start, k + 1, d);
    }
    LostWithin(max, m, s, start, k + 2, a);
    GainIsDifference(max, a, k);
  }

  // ---------------------------------------------------------------------------- the bound

  lemma Times(m: nat, a: int, b: int)
    requires a <= b
    ensures m * a <= m * b
  {
  }

  lemma NextLockTime(full: nat, start: Time, t: Time, hi: Time, r: nat)
    requires start + LOCK_TIME <= t <= hi
    ensures full + full * ((hi - t) / LOCK_TIME + r) <= full * ((hi - start) / LOCK_TIME + r)
  {
    var n := (hi - t) / LOCK_TIME + r;
    assert (hi - start) / LOCK_TIME + r >= 1 + n;
    assert full + full * n == full * (1 + n);
    Times(full, 1 + n, (hi - start) / LOCK_TIME + r);
  }

  lemma OneMore(full: nat, n: int)
    ensures full + full * n == full * (n + 1)
  {
  }

  /** Within any window, with at most `m` logins in flight and whatever is in flight when it
      begins, the failures saved are at most those of one lock time for every lock time begun
      and every wrong MFA answer saved. */
  lemma {:induction false} SavedWithin(s: State, moves: seq<Move>, max: nat, m: nat, start: Time, lo: Time, hi: Time)
    requires max > 0 && |s.held| <= m && start <= lo <= hi && Admissible(s, moves, max, m, lo, hi)
    ensures Saved(moves) <= Potential(max, m, s, start)
                            + Full(max, m) * ((hi - start) / LOCK_TIME + Restored(moves))
    decreases moves, if moves != [] && TimeOf(moves[0]) >= start + LOCK_TIME then 1 else 0
  {
    PotentialBounds(max, m, s, start);
    if moves == [] {
      Times(Full(max, m), 0, (hi - start) / LOCK_TIME);
    } else {
      var a, rest := moves[0], moves[1..];
      var t := TimeOf(a);
      if t >= start + LOCK_TIME {
        SavedWithin(s, moves, max, m, t, t, hi);
        PotentialBounds(max, m, s, t);
        NextLockTime(Full(max, m), start, t, hi, Restored(moves));
      } else {
        var next := Step(s, a, max, m);
        SavedWithin(next, rest, max, m, start, t, hi);
        match a
        case Admit(check) => AdmitKeeps(max, m, s, check, start);
        case Save(slot, at) => SaveSpends(max, m, s, slot, at, start);
        case Load(_) => KeptIsNothing(max, m, s, next, start);
        case Restore(_, _) =>
          PotentialBounds(max, m, next, start);
          OneMore(Full(max, m), (hi - start) / LOCK_TIME + Restored(rest));
      }
    }
  }

  /** The number of ways to choose `k` of `n`. */
  function Choose(n: nat, k: nat): nat {
    if k == 0 then 1 else if n == 0 then 0 else Choose(n - 1, k - 1) + Choose(n - 1, k)
  }

  lemma {:induction false} ChooseAll(n: nat)
    ensures Choose(n, n) == 1
    ensures forall k | k > n :: Choose(n, k) == 0
  {
    if n > 0 { ChooseAll(n - 1); }
  }

  lemma {:induction false} MostIsChoose(max: nat, j: nat, v: nat)
    requires v <= max
    ensures Most(max, j, v) + 1 == Choose(j + max - v, max - v)
    decreases j, max - v
  {
    if j == 0 {
      ChooseAll(max - v);
    } else if v < max {
      MostIsChoose(max, j - 1, v);
      MostIsChoose(max, j, v + 1);
    }
  }

  /** In numbers: with at most `m` logins in flight and `r` wrong MFA answers saved, at most
      `C(m + 5, 5) - 1` wrong passwords for each of these and for each 15 minutes begun. */
  lemma PasswordsInFlight(s: State, moves: seq<Move>, m: nat, lo: Time, hi: Time)
    requires |s.held| <= m && lo <= hi && Admissible(s, moves, MAX_LOGIN_ATTEMPTS, m, lo, hi)
    ensures Saved(moves) <= (Choose(m + 5, 5) - 1) * (1 + (hi - lo) / LOCK_TIME + Restored(moves))
  {
    SavedWithin(s, moves, 5, m, lo, lo, hi);
    PotentialBounds(5, m, s, lo);
    MostIsChoose(5, m, 0);
    OneMore(Full(5, m), (hi - lo) / LOCK_TIME + Restored(moves));
  }

  // ------------------------------------------------------------------ the bound is reached

  function AfterMoves(s: State, moves: seq<Move>, max: nat, m: nat, lo: Time, hi: Time): State
    requires Admissible(s, moves, max, m, lo, hi)
    decreases moves
  {
    if moves == [] then s else AfterMoves(Step(s, moves[0], max, m), moves[1..], max, m, TimeOf(moves[0]), hi)
  }

  /** Moves at one time that lead from one state to another. */
  predicate Leads(s: State, moves: seq<Move>, t: State, max: nat, m: nat, at: Time) {
    Admissible(s, moves, max, m, at, at) && AfterMoves(s, moves, max, m, at, at) == t
  }

  lemma {:induction false} LeadsOn(s: State, a: seq<Move>, t: State, b: seq<Move>, u: State, max: nat, m: nat, at: Time)
    requires Leads(s, a, t, max, m, at) && Leads(t, b, u, max, m, at)
    ensures Leads(s, a + b, u, max, m, at)
    ensures Saved(a + b) == Saved(a) + Saved(b) && Restored(a + b) == Restored(a) + Restored(b)
    decreases a
  {
    if a == [] {
      assert a + b == b;
    } else {
      assert (a + b)[1..] == a[1..] + b;
      LeadsOn(Step(s, a[0], max, m), a[1..], t, b, u, max, m, at);
    }
  }

  lemma OneMove(s: State, a: Move, max: nat, m: nat, at: Time)
    requires TimeOf(a) == at && Possible(s, a, m)
    ensures Leads(s, [a], Step(s, a, max, m), max, m, at)
    ensures Saved([a]) == (if a.Save? then 1 else 0) && Restored([a]) == (if a.Restore? then 1 else 0)
  {
    assert [a][1..] == [];
  }

  /** The counter after `v` failures at time `at`. */
  function After(max: nat, v: nat, at: Time): Lock {
    Lock(v, if v >= max then Some(at + LOCK_TIME) else None)
  }

  /** With `h` slots taken and `j` free: one more keeps a copy while the others go on, then
      saves it, and all go on from there. */
  function Play(max: nat, j: nat, v: nat, h: nat, at: Time): seq<Move>
    decreases j, max - v
  {
    if j == 0 || v >= max then []
    else [Admit(at)] + (Play(max, j - 1, v, h + 1, at) + ([Save(h, at)] + Play(max, j, v + 1, h, at)))
  }

  lemma {:induction false} PlayReaches(max: nat, m: nat, j: nat, v: nat, s: State, at: Time)
    requires v <= max && |s.held| + j <= m && s.stored == After(max, v, at)
    ensures var moves := Play(max, j, v, |s.held|, at);
            && Leads(s, moves, s.(stored := After(max, if j == 0 then v else max, at)), max, m, at)
            && Saved(moves) == Most(max, j, v) && Restored(moves) == 0
    decreases j, max - v
  {
    if j > 0 && v < max {
      var h := |s.held|;
      var s1 := s.(held := s.held + [s.stored]);
      var s2 := s1.(stored := After(max, if j == 1 then v else max, at));
      var s3 := s.(stored := After(max, v + 1, at));
      var inner, rest := Play(max, j - 1, v, h + 1, at), Play(max, j, v + 1, h, at);
      OneMove(s, Admit(at), max, m, at);
      PlayReaches(max, m, j - 1, v, s1, at);
      assert Without(s2.held, h) == s.held;
      OneMove(s2, Save(h, at), max, m, at);
      PlayReaches(max, m, j, v + 1, s3, at);
      Round(s, Admit(at), s1, inner, s2, Save(h, at), s3, rest, s.(stored := After(max, max, at)), max, m, at);
    }
  }

  lemma Round(s: State, a: Move, s1: State, inner: seq<Move>, s2: State, b: Move, s3: State, rest: seq<Move>,
              last: State, max: nat, m: nat, at: Time)
    requires Leads(s, [a], s1, max, m, at) && Leads(s1, inner, s2, max, m, at)
    requires Leads(s2, [b], s3, max, m, at) && Leads(s3, rest, last, max, m, at)
    ensures var moves := [a] + (inner + ([b] + rest));
            && Leads(s, moves, last, max, m, at)
            && Saved(moves) == Saved([a]) + Saved(inner) + Saved([b]) + Saved(rest)
            && Restored(moves) == Restored([a]) + Restored(inner) + Restored([b]) + Restored(rest)
  {
    LeadsOn(s2, [b], s3, rest, last, max, m, at);
    LeadsOn(s1, inner, s2, [b] + rest, last, max, m, at);
    LeadsOn(s, [a], s1, inner + ([b] + rest), last, max, m, at);
  }

  /** So `C(m + 5, 5) - 1` is the exact maximum for logins within a lock time: that many get
      through at one and the same time, from a counter at 0. */
  lemma MaximumIsReached(m: nat, at: Time)
    ensures var s, moves := State(Lock(0, None), [], []), Play(MAX_LOGIN_ATTEMPTS, m, 0, 0, at);
            && Admissible(s, moves, MAX_LOGIN_ATTEMPTS, m, at, at)
            && Saved(moves) == Choose(m + 5, 5) - 1 && Restored(moves) == 0
  {
    PlayReaches(5, m, m, 0, State(Lock(0, None), [], []), at);
    MostIsChoose(5, m, 0);
  }

  // ------------------------------------------------ wrong MFA answers set the counter back

  /** `n` logins one after the other. */
  function Singles(n: nat, at: Time): seq<Move> {
    if n == 0 then [] else Singles(n - 1, at) + ([Admit(at)] + [Save(0, at)])
  }

  lemma {:induction false} SinglesCount(s: State, n: nat, max: nat, m: nat, at: Time)
    requires s.held == [] && s.stored == Lock(0, None) && n <= max && max > 0 && m > 0
    ensures Leads(s, Singles(n, at), s.(stored := After(max, n, at)), max, m, at)
    ensures Saved(Singles(n, at)) == n && Restored(Singles(n, at)) == 0
  {
    if n > 0 {
      var s1 := s.(stored := After(max, n - 1, at));
      var s2 := s1.(held := [s1.stored]);
      var s3 := s.(stored := After(max, n, at));
      SinglesCount(s, n - 1, max, m, at);
      assert s1.held + [s1.stored] == [s1.stored] && Without(s2.held, 0) == [];
      OneMove(s1, Admit(at), max, m, at);
      OneMove(s2, Save(0, at), max, m, at);
      LeadsOn(s1, [Admit(at)], s2, [Save(0, at)], s3, max, m, at);
      LeadsOn(s, Singles(n - 1, at), s1, [Admit(at)] + [Save(0, at)], s3, max, m, at);
    }
  }

  /** A wrong MFA answer that loads the row before all but the last failure and saves it after
      them, `r` times, and then as many logins as the counter lets through. */
  function SetBack(r: nat, max: nat, at: Time): seq<Move>
    requires max > 0
  {
    if r == 0 then Singles(max, at)
    else Once(max, at) + SetBack(r - 1, max, at)
  }

  function Once(max: nat, at: Time): seq<Move>
    requires max > 0
  {
    [Load(at)] + (Singles(max - 1, at) + [Restore(0, at)])
  }

  lemma {:induction false} SetBackCounts(r: nat, max: nat, m: nat, at: Time)
    requires max > 0 && m > 0
    ensures var s := State(Lock(0, None), [], []);
            && Leads(s, SetBack(r, max, at), s.(stored := After(max, max, at)), max, m, at)
            && Saved(SetBack(r, max, at)) == (max - 1) * r + max && Restored(SetBack(r, max, at)) == r
  {
    var s := State(Lock(0, None), [], []);
    if r == 0 {
      SinglesCount(s, max, max, m, at);
    } else {
      OneSetBack(max, m, at);
      SetBackCounts(r - 1, max, m, at);
      LeadsOn(s, Once(max, at), s, SetBack(r - 1, max, at), s.(stored := After(max, max, at)), max, m, at);
      OneMore(max - 1, r - 1);
    }
  }

  lemma OneSetBack(max: nat, m: nat, at: Time)
    requires max > 0 && m > 0
    ensures var s, once := State(Lock(0, None), [], []), Once(max, at);
            Leads(s, once, s, max, m, at) && Saved(once) == max - 1 && Restored(once) == 1
  {
    var s, n := State(Lock(0, None), [], []), max - 1;
    var s1 := s.(kept := [s.stored]);
    var s2 := s1.(stored := After(max, n, at));
    assert s.kept + [s.stored] == [s.stored] && Without(s2.kept, 0) == [];
    assert Step(s, Load(at), max, m) == s1 && Step(s2, Restore(0, at), max, m) == s;
    OneMove(s, Load(at), max, m, at);
    SinglesCount(s1, n, max, m, at);
    OneMove(s2, Restore(0, at), max, m, at);
    LeadsOn(s1, Singles(n, at), s2, [Restore(0, at)], s, max, m, at);
    LeadsOn(s, [Load(at)], s1, Singles(n, at) + [Restore(0, at)], s, max, m, at);
  }

  /** With one login in flight at a time and one wrong MFA answer, nine wrong passwords get
      through at one time where five would; with `r` such answers, `4 * r + 5`. */
  lemma NinePasswords(r: nat, at: Time)
    ensures var s, moves := State(Lock(0, None), [], []), SetBack(r, MAX_LOGIN_ATTEMPTS, at);
            && Admissible(s, moves, MAX_LOGIN_ATTEMPTS, 1, at, at)
            && Saved(moves) == 4 * r + 5 && Restored(moves) == r
    ensures Saved(SetBack(1, MAX_LOGIN_ATTEMPTS, at)) == 9 && Full(5, 1) == 5
  {
    SetBackCounts(r, 5, 1, at);
    SetBackCounts(1, 5, 1, at);
    MostIsChoose(5, 1, 0);
  }

  // ------------------------------------------------------------ the rows and their copies

  predicate Distinct(slots: seq<nat>) { forall i, j | 0 <= i < j < |slots| :: slots[i] != slots[j] }

  /** The requests in flight for a row, logins in `slots` and wrong MFA answers in `others`:
      all hold copies of it. */
  predicate Holding(s: I.Shared, id: Id, slots: seq<nat>, others: seq<nat>) {
    && id in s.rows && s.rows[id].id == id && Distinct(slots + others)
    && forall i | 0 <= i < |slots + others| :: (slots + others)[i] in s.copies && s.copies[(slots + others)[i]].id == id
  }

  function CountersOf(s: I.Shared, slots: seq<nat>): (r: seq<Lock>)
    requires forall i | 0 <= i < |slots| :: slots[i] in s.copies
    ensures |r| == |slots| && forall i | 0 <= i < |slots| :: r[i] == LoginLock(s.copies[slots[i]])
  {
    if slots == [] then [] else CountersOf(s, slots[..|slots| - 1]) + [LoginLock(s.copies[slots[|slots| - 1]])]
  }

  function Seen(s: I.Shared, id: Id, slots: seq<nat>, others: seq<nat>): State
    requires Holding(s, id, slots, others)
  {
    HeldByBoth(s, id, slots, others);
    State(LoginLock(s.rows[id]), CountersOf(s, slots), CountersOf(s, others))
  }

  lemma HeldByBoth(s: I.Shared, id: Id, slots: seq<nat>, others: seq<nat>)
    requires Holding(s, id, slots, others)
    ensures forall i | 0 <= i < |slots| :: slots[i] in s.copies && s.copies[slots[i]].id == id
    ensures forall i | 0 <= i < |others| :: others[i] in s.copies && s.copies[others[i]].id == id
    ensures forall i, j | 0 <= i < |slots| && 0 <= j < |others| :: slots[i] != others[j]
    ensures Distinct(slots) && Distinct(others)
  {
    var all := slots + others;
    assert forall i | 0 <= i < |slots| :: all[i] == slots[i];
    assert forall j | 0 <= j < |others| :: all[|slots| + j] == others[j];
  }

  lemma HeldIfBoth(s: I.Shared, id: Id, slots: seq<nat>, others: seq<nat>)
    requires id in s.rows && s.rows[id].id == id && Distinct(slots) && Distinct(others)
    requires forall i | 0 <= i < |slots| :: slots[i] in s.copies && s.copies[slots[i]].id == id
    requires forall i | 0 <= i < |others| :: others[i] in s.copies && s.copies[others[i]].id == id
    requires forall i, j | 0 <= i < |slots| && 0 <= j < |others| :: slots[i] != others[j]
    ensures Holding(s, id, slots, others)
  {
  }

  lemma SameCounters(s: I.Shared, t: I.Shared, slots: seq<nat>)
    requires forall i | 0 <= i < |slots| :: slots[i] in s.copies && slots[i] in t.copies
    requires forall i | 0 <= i < |slots| :: LoginLock(s.copies[slots[i]]) == LoginLock(t.copies[slots[i]])
    ensures CountersOf(s, slots) == CountersOf(t, slots)
  {
    var a, b := CountersOf(s, slots), CountersOf(t, slots);
    assert forall i | 0 <= i < |slots| :: a[i] == b[i];
  }

  /** Loading a row that is not locked is being let through. */
  lemma LoadIsAdmit(s: I.Shared, id: Id, slots: seq<nat>, others: seq<nat>, slot: nat, check: Time, m: nat)
    requires Holding(s, id, slots, others) && slot !in slots && slot !in others
    requires |slots| < m && !Locked(LoginLock(s.rows[id]), check)
    ensures var t := I.Next(s, I.Load(slot, id));
            && Holding(t, id, slots + [slot], others)
            && Possible(Seen(s, id, slots, others), Admit(check), m)
            && Seen(t, id, slots + [slot], others)
               == Step(Seen(s, id, slots, others), Admit(check), MAX_LOGIN_ATTEMPTS, m)
  {
    var t := I.Next(s, I.Load(slot, id));
    HeldByBoth(s, id, slots, others);
    HeldIfBoth(t, id, slots + [slot], others);
    SameCounters(s, t, slots);
    SameCounters(s, t, others);
    assert (slots + [slot])[..|slots|] == slots;
  }

  /** Loading it for a wrong MFA answer keeps a copy. */
  lemma LoadIsLoad(s: I.Shared, id: Id, slots: seq<nat>, others: seq<nat>, slot: nat, at: Time, m: nat)
    requires Holding(s, id, slots, others) && slot !in slots && slot !in others
    ensures var t := I.Next(s, I.Load(slot, id));
            && Holding(t, id, slots, others + [slot])
            && Seen(t, id, slots, others + [slot])
               == Step(Seen(s, id, slots, others), Load(at), MAX_LOGIN_ATTEMPTS, m)
  {
    var t := I.Next(s, I.Load(slot, id));
    HeldByBoth(s, id, slots, others);
    HeldIfBoth(t, id, slots, others + [slot]);
    SameCounters(s, t, slots);
    SameCounters(s, t, others);
    assert (others + [slot])[..|others|] == others;
  }

  /** The copies of the other slots stay. */
  lemma OthersStay(s: I.Shared, t: I.Shared, slots: seq<nat>, i: nat)
    requires i < |slots| && Distinct(slots) && forall k | 0 <= k < |slots| :: slots[k] in s.copies
    requires forall x | x in s.copies && x != slots[i] :: x in t.copies && t.copies[x] == s.copies[x]
    ensures var rest := Without(slots, i);
            && Distinct(rest) && (forall k | 0 <= k < |rest| :: rest[k] != slots[i] && rest[k] in t.copies)
            && CountersOf(t, rest) == Without(CountersOf(s, slots), i)
  {
    var rest := Without(slots, i);
    OthersDiffer(slots, i);
    var l, r := CountersOf(t, rest), Without(CountersOf(s, slots), i);
    forall k | 0 <= k < |rest| ensures l[k] == r[k] {
      assert rest[k] == slots[if k < i then k else k + 1];
    }
  }

  lemma OthersDiffer(slots: seq<nat>, i: nat)
    requires i < |slots| && Distinct(slots)
    ensures var rest := Without(slots, i);
            Distinct(rest) && forall k | 0 <= k < |rest| :: rest[k] != slots[i] && rest[k] in slots
  {
    var rest := Without(slots, i);
    forall k | 0 <= k < |rest| ensures rest[k] != slots[i] && rest[k] in slots {
      assert rest[k] == slots[if k < i then k else k + 1];
    }
  }

  /** Saving a stale copy with one more failure is the save of its slot. */
  lemma SaveIsSave(s: I.Shared, id: Id, slots: seq<nat>, others: seq<nat>, i: nat, at: Time, m: nat)
    requires Holding(s, id, slots, others) && i < |slots|
    ensures var t := I.Next(s, I.SaveFailure(slots[i], at));
            && Holding(t, id, Without(slots, i), others)
            && Possible(Seen(s, id, slots, others), Save(i, at), m)
            && Seen(t, id, Without(slots, i), others)
               == Step(Seen(s, id, slots, others), Save(i, at), MAX_LOGIN_ATTEMPTS, m)
  {
    var t := I.Next(s, I.SaveFailure(slots[i], at));
    HeldByBoth(s, id, slots, others);
    OthersStay(s, t, slots, i);
    HeldIfBoth(t, id, Without(slots, i), others);
    SameCounters(s, t, others);
  }

  /** Saving a stale copy with one more MFA failure writes its login counter back. */
  lemma SaveMfaIsRestore(s: I.Shared, id: Id, slots: seq<nat>, others: seq<nat>, i: nat, at: Time, m: nat)
    requires Holding(s, id, slots, others) && i < |others|
    ensures var t := I.Next(s, I.SaveMfaFailure(others[i], at));
            && Holding(t, id, slots, Without(others, i))
            && Possible(Seen(s, id, slots, others), Restore(i, at), m)
            && Seen(t, id, slots, Without(others, i))
               == Step(Seen(s, id, slots, others), Restore(i, at), MAX_LOGIN_ATTEMPTS, m)
  {
    var t := I.Next(s, I.SaveMfaFailure(others[i], at));
    HeldByBoth(s, id, slots, others);
    OthersStay(s, t, others, i);
    HeldIfBoth(t, id, slots, Without(others, i));
    SameCounters(s, t, slots);
  }
}
