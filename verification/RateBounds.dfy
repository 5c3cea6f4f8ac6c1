/** How often a password or an MFA answer can be wrong: the bounds of `Lockout`, carried
    over to every run of the service. */
module RateBounds {
  import opened JsText
  import opened Option
  import opened Users
  import opened Lockout
  import opened AuthEvents
  import S = Sessions

  lemma {:induction false} AdmissibleAppend(l: Lock, acts: seq<Act>, a: Act, max: nat, lo: Time, hi: Time)
    requires Admissible(l, acts, max, lo, hi)
    requires ActClock(acts, lo) <= (if a.Failure? then a.check else a.at)
    requires a.Failure? ==> a.check <= a.at && !Locked(LockAfter(l, acts, max), a.check)
    requires a.at <= hi
    ensures Admissible(l, acts + [a], max, lo, hi)
    ensures LockAfter(l, acts + [a], max)
         == if a.Failure? then Failed(LockAfter(l, acts, max), max, a.at) else LockAfter(l, acts, max)
    ensures ActClock(acts + [a], lo) == a.at
    ensures Failures(acts + [a]) == Failures(acts) + (if a.Failure? then 1 else 0)
    decreases acts
  {
    var all := acts + [a];
    if acts == [] {
      assert all == [a] && all[1..] == [];
    } else {
      assert all[1..] == acts[1..] + [a];
      assert ActClock(acts, lo) == ActClock(acts[1..], acts[0].at);
      var next := if acts[0].Failure? then Failed(l, max, acts[0].at) else l;
      AdmissibleAppend(next, acts[1..], a, max, acts[0].at, hi);
    }
  }

  function ActClock(acts: seq<Act>, lo: Time): Time {
    if acts == [] then lo else acts[|acts| - 1].at
  }

  function LockAfter(l: Lock, acts: seq<Act>, max: nat): Lock
    decreases acts
  {
    if acts == [] then l
    else LockAfter(if acts[0].Failure? then Failed(l, max, acts[0].at) else l, acts[1..], max)
  }

  // ----------------------------------------------------------- the two counters of a row

  /** The counter of wrong passwords, and the one the three MFA endpoints share. */
  datatype Counter = LoginCounter | MfaCounter

  function LockOf(c: Counter, u: User): Lock { if c.LoginCounter? then LoginLock(u) else MfaLock(u) }

  function MaxOf(c: Counter): nat { if c.LoginCounter? then MAX_LOGIN_ATTEMPTS else MAX_MFA_ATTEMPTS }

  /** The event is a wrong answer this counter counts for this user. */
  predicate IsWrong(c: Counter, ev: Event, user: Id) {
    (if c.LoginCounter? then ev.LoginWrong? else ev.MfaWrong?) && ev.user == user
  }

  /** The event sets this counter of this user back. */
  predicate Clears(c: Counter, ev: Event, user: Id) {
    (if c.LoginCounter? then ev.LoginPending? || ev.LoginDone? || ev.UnlockedByAdmin? || ev.ResetByAdmin?
     else ev.MfaDone? || ev.MfaDisabled? || ev.UnlockedByAdmin? || ev.ResetByAdmin?)
    && ev.user == user
  }

  function WrongAnswers(c: Counter, evs: seq<Event>, user: Id): nat {
    if evs == [] then 0
    else WrongAnswers(c, evs[..|evs| - 1], user) + (if IsWrong(c, evs[|evs| - 1], user) then 1 else 0)
  }

  /** What the counter sees of an event. */
  function ActOf(c: Counter, ev: Event, user: Id): Act {
    if IsWrong(c, ev, user) then Failure(if ev.LoginWrong? then ev.check else ev.lockCheck, ev.at) else Quiet(ev.at)
  }

  function ActsOf(c: Counter, evs: seq<Event>, user: Id): seq<Act> {
    if evs == [] then [] else ActsOf(c, evs[..|evs| - 1], user) + [ActOf(c, evs[|evs| - 1], user)]
  }

  lemma LockStep(c: Counter, w: World, ev: Event, compare: S.Compare, user: Id)
    requires Enabled(w, ev, compare) && user in w.users && !Clears(c, ev, user)
    ensures LockOf(c, Apply(w, ev).users[user])
         == if IsWrong(c, ev, user) then Failed(LockOf(c, w.users[user]), MaxOf(c), ev.at) else LockOf(c, w.users[user])
    ensures var a := ActOf(c, ev, user);
            a.Failure? && Timely(ev) ==> a.check <= a.at && !Locked(LockOf(c, w.users[user]), a.check)
  {
  }

  /** A run that does not set the counter back is, for the counter, an admissible sequence
      that leads from the lock at its start to the lock at its end. */
  lemma {:induction false} RunIsAdmissible(c: Counter, w: World, evs: seq<Event>, compare: S.Compare, user: Id,
                                           lo: Time, hi: Time)
    requires user in w.users && Legal(w, evs, compare, lo) && ClockAfter(evs, lo) <= hi
    requires forall i | 0 <= i < |evs| :: !Clears(c, evs[i], user)
    ensures user in After(w, evs).users
    ensures var acts, l := ActsOf(c, evs, user), LockOf(c, w.users[user]);
            && Admissible(l, acts, MaxOf(c), lo, hi)
            && LockAfter(l, acts, MaxOf(c)) == LockOf(c, After(w, evs).users[user])
            && ActClock(acts, lo) == ClockAfter(evs, lo)
            && Failures(acts) == WrongAnswers(c, evs, user)
  {
    UserStays(w, evs, user);
    if evs != [] {
      var before, ev := evs[..|evs| - 1], evs[|evs| - 1];
      assert forall i | 0 <= i < |before| :: before[i] == evs[i];
      RunIsAdmissible(c, w, before, compare, user, lo, hi);
      LockStep(c, After(w, before), ev, compare, user);
      AdmissibleAppend(LockOf(c, w.users[user]), ActsOf(c, before, user), ActOf(c, ev, user), MaxOf(c), lo, hi);
    }
  }

  predicate NoneClears(c: Counter, evs: seq<Event>, user: Id) {
    forall i | 0 <= i < |evs| :: !Clears(c, evs[i], user)
  }

  /** The wrong answers in a run from world `w` between `lo` and `hi`. */
  predicate WithinBudget(c: Counter, w: World, evs: seq<Event>, user: Id, lo: Time, hi: Time)
    requires user in w.users
  {
    var l := LockOf(c, w.users[user]);
    && WrongAnswers(c, evs, user) <= Budget(l, MaxOf(c), lo, hi)
    && WrongAnswers(c, evs, user) <= Max(1, MaxOf(c) - l.attempts) + (hi - lo) / LOCK_TIME
  }

  /** Within a window the wrong answers are no more than the budget of the lock the window
      starts with. */
  lemma WrongAnswersWithinBudget(c: Counter, w: World, evs: seq<Event>, compare: S.Compare, user: Id,
                                 lo: Time, hi: Time)
    requires user in w.users && Legal(w, evs, compare, lo) && ClockAfter(evs, lo) <= hi && lo <= hi
    requires NoneClears(c, evs, user)
    ensures WithinBudget(c, w, evs, user, lo, hi)
  {
    RunIsAdmissible(c, w, evs, compare, user, lo, hi);
    FailuresWithinBudget(LockOf(c, w.users[user]), ActsOf(c, evs, user), MaxOf(c), lo, hi);
    RateBound(LockOf(c, w.users[user]), ActsOf(c, evs, user), MaxOf(c), lo, hi);
  }

  lemma {:induction false} ClockForward(w: World, evs: seq<Event>, compare: S.Compare, clock: Time)
    requires Legal(w, evs, compare, clock)
    ensures clock <= ClockAfter(evs, clock)
  {
    if evs != [] { ClockForward(w, evs[..|evs| - 1], compare, clock); }
  }

  /** The bound holds for any stretch `b` of a run. */
  lemma StretchWithinBudget(c: Counter, w: World, a: seq<Event>, b: seq<Event>, compare: S.Compare,
                            user: Id, zero: Time)
    requires Legal(w, a + b, compare, zero) && user in After(w, a).users && NoneClears(c, b, user)
    ensures WithinBudget(c, After(w, a), b, user, ClockAfter(a, zero), ClockAfter(a + b, zero))
  {
    LegalJoin(w, a, b, compare, zero);
    ClockJoin(a, b, zero);
    RunWithinBudget(c, After(w, a), b, compare, user, ClockAfter(a, zero));
  }

  lemma RunWithinBudget(c: Counter, w: World, evs: seq<Event>, compare: S.Compare, user: Id, lo: Time)
    requires Legal(w, evs, compare, lo) && user in w.users && NoneClears(c, evs, user)
    ensures WithinBudget(c, w, evs, user, lo, ClockAfter(evs, lo))
  {
    ClockForward(w, evs, compare, lo);
    WrongAnswersWithinBudget(c, w, evs, compare, user, lo, ClockAfter(evs, lo));
  }

  /** Between `lo` and `hi`, without a correct password or an admin reset in between, a user's
      password is tried wrongly at `login` at most `max(1, 5 - a) + floor((hi - lo) / 15 min)`
      times, `a` being the failures already counted. */
  lemma PasswordRateBound(w: World, evs: seq<Event>, compare: S.Compare, user: Id, lo: Time, hi: Time)
    requires user in w.users && Legal(w, evs, compare, lo) && ClockAfter(evs, lo) <= hi && lo <= hi
    requires NoneClears(LoginCounter, evs, user)
    ensures WrongAnswers(LoginCounter, evs, user)
         <= Max(1, 5 - w.users[user].failedAttempts) + (hi - lo) / (15 * 60 * 1000)
  {
    WrongAnswersWithinBudget(LoginCounter, w, evs, compare, user, lo, hi);
  }

  /** Without a success, a disabling or an admin reset in between, the wrong answers at the
      three verify endpoints together number at most `max(1, 3 - a) + floor((hi - lo) / 15 min)`.
      The codes that turning MFA on or off tests are not among them. */
  lemma MfaRateBound(w: World, evs: seq<Event>, compare: S.Compare, user: Id, lo: Time, hi: Time)
    requires user in w.users && Legal(w, evs, compare, lo) && ClockAfter(evs, lo) <= hi && lo <= hi
    requires NoneClears(MfaCounter, evs, user)
    ensures WrongAnswers(MfaCounter, evs, user)
         <= Max(1, 3 - w.users[user].mfaFailedAttempts) + (hi - lo) / (15 * 60 * 1000)
  {
    WrongAnswersWithinBudget(MfaCounter, w, evs, compare, user, lo, hi);
  }

  // ----------------------------------------------------------------- the bounds are exact

  lemma {:induction false} WrongAnswersJoin(c: Counter, a: seq<Event>, b: seq<Event>, user: Id)
    ensures WrongAnswers(c, a + b, user) == WrongAnswers(c, a, user) + WrongAnswers(c, b, user)
  {
    if b == [] {
      assert a + b == a;
    } else {
      var n := |b| - 1;
      WrongAnswersJoin(c, a, b[..n], user);
      assert (a + b)[..|a| + n] == a + b[..n];
    }
  }

  /** One wrong answer at time `t`: a wrong password, or a pending login and a wrong code. */
  function Try(c: Counter, user: Id, from: Origin, token: Text, t: Time): seq<Event> {
    match c
    case LoginCounter => [LoginWrong(user, from, t, t)]
    case MfaCounter => [LoginPending(user, from, t, t, token), MfaWrong(user, TotpCode, token, t, t, t)]
  }

  /** The user's answers reach the counter at time `t`. */
  predicate Reachable(c: Counter, u: User, t: Time) {
    !Locked(LockOf(c, u), t) && (c.MfaCounter? ==> u.mfaEnabled && !Locked(LoginLock(u), t))
  }

  /** What one try leads to. */
  predicate Tried(c: Counter, w: World, evs: seq<Event>, compare: S.Compare, user: Id, lo: Time, t: Time)
    requires user in w.users
  {
    && Legal(w, evs, compare, lo) && ClockAfter(evs, lo) == t
    && user in After(w, evs).users
    && LockOf(c, After(w, evs).users[user]) == Failed(LockOf(c, w.users[user]), MaxOf(c), t)
    && WrongAnswers(c, evs, user) == 1
    && (forall i | 0 <= i < |evs| :: !Clears(c, evs[i], user))
    && (c.MfaCounter? ==> After(w, evs).users[user].mfaEnabled && !Locked(LoginLock(After(w, evs).users[user]), t))
  }

  lemma RunOfOne(w: World, ev: Event, compare: S.Compare, lo: Time)
    requires CanFollow(w, ev, compare, lo)
    ensures Legal(w, [ev], compare, lo) && After(w, [ev]) == Apply(w, ev) && ClockAfter([ev], lo) == ev.at
  {
    LegalSnoc(w, [], ev, compare, lo);
    assert [] + [ev] == [ev];
  }

  lemma WrongAnswersOfOne(c: Counter, ev: Event, user: Id)
    ensures WrongAnswers(c, [ev], user) == if IsWrong(c, ev, user) then 1 else 0
  {
    assert [ev][..0] == [];
  }

  lemma RowAfter(w: World, ev: Event)
    requires HasUser(ev) && !ev.UserCreated? && ev.user in w.users
    ensures ev.user in Apply(w, ev).users && Apply(w, ev).users[ev.user] == Changed(w.users[ev.user], ev)
  {
  }

  lemma JoinTries(c: Counter, w: World, a: seq<Event>, b: seq<Event>, compare: S.Compare, user: Id, lo: Time)
    requires Legal(w, a, compare, lo) && Legal(After(w, a), b, compare, ClockAfter(a, lo))
    requires forall i | 0 <= i < |a| :: !Clears(c, a[i], user)
    requires forall i | 0 <= i < |b| :: !Clears(c, b[i], user)
    ensures Legal(w, a + b, compare, lo) && ClockAfter(a + b, lo) == ClockAfter(b, ClockAfter(a, lo))
    ensures WrongAnswers(c, a + b, user) == WrongAnswers(c, a, user) + WrongAnswers(c, b, user)
    ensures forall i | 0 <= i < |a + b| :: !Clears(c, (a + b)[i], user)
  {
    LegalJoin(w, a, b, compare, lo);
    ClockJoin(a, b, lo);
    WrongAnswersJoin(c, a, b, user);
  }

  lemma TryPassword(w: World, compare: S.Compare, user: Id, from: Origin, token: Text, lo: Time, t: Time)
    requires user in w.users && Reachable(LoginCounter, w.users[user], t) && lo <= t
    ensures Tried(LoginCounter, w, Try(LoginCounter, user, from, token, t), compare, user, lo, t)
  {
    var ev := LoginWrong(user, from, t, t);
    RunOfOne(w, ev, compare, lo);
    WrongAnswersOfOne(LoginCounter, ev, user);
    RowAfter(w, ev);
  }

  lemma TryCode(w: World, compare: S.Compare, user: Id, from: Origin, token: Text, lo: Time, t: Time)
    requires user in w.users && Reachable(MfaCounter, w.users[user], t) && lo <= t
    ensures Tried(MfaCounter, w, Try(MfaCounter, user, from, token, t), compare, user, lo, t)
  {
    var login, code := LoginPending(user, from, t, t, token), MfaWrong(user, TotpCode, token, t, t, t);
    RunOfOne(w, login, compare, lo);
    RowAfter(w, login);
    var mid := Apply(w, login);
    PendingIsOpen(w.users[user], login, t);
    RunOfOne(mid, code, compare, t);
    RowAfter(mid, code);
    WrongAnswersOfOne(MfaCounter, login, user);
    WrongAnswersOfOne(MfaCounter, code, user);
    JoinTries(MfaCounter, w, [login], [code], compare, user, lo);
    AfterJoin(w, [login], [code]);
    assert [login] + [code] == Try(MfaCounter, user, from, token, t);
  }

  lemma PendingIsOpen(u: User, login: Event, t: Time)
    requires login.LoginPending? && login.at == t && Reachable(MfaCounter, u, t)
    ensures var v := Changed(u, login);
            && v.mfaTempToken == Some(login.token) && !TokenExpired(v, t) && v.mfaEnabled
            && MfaLock(v) == MfaLock(u) && LoginLock(v) == Lock(0, None)
  {
  }

  lemma TryOnce(c: Counter, w: World, compare: S.Compare, user: Id, from: Origin, token: Text, lo: Time, t: Time)
    requires user in w.users && Reachable(c, w.users[user], t) && lo <= t
    ensures Tried(c, w, Try(c, user, from, token, t), compare, user, lo, t)
  {
    if c.MfaCounter? {
      TryCode(w, compare, user, from, token, lo, t);
    } else {
      TryPassword(w, compare, user, from, token, lo, t);
    }
  }

  /** Answering wrongly again as soon as the counter lets it. */
  function EagerEvents(c: Counter, l: Lock, user: Id, from: Origin, token: Text, lo: Time, hi: Time): seq<Event>
    decreases Max(0, MaxOf(c) - l.attempts), hi - NextFree(l, lo)
  {
    var t := NextFree(l, lo);
    if t > hi then []
    else Try(c, user, from, token, t) + EagerEvents(c, Failed(l, MaxOf(c), t), user, from, token, t, hi)
  }

  /** The budget is reached by a run of the service: for a user whose password is known when
      the codes are guessed, as many wrong answers as it allows do get through. */
  lemma {:induction false} BoundIsReached(c: Counter, w: World, compare: S.Compare, user: Id, from: Origin,
                                          token: Text, lo: Time, hi: Time)
    requires user in w.users && lo <= hi
    requires c.MfaCounter? ==> w.users[user].mfaEnabled && !Locked(LoginLock(w.users[user]), lo)
    ensures var l := LockOf(c, w.users[user]);
            var evs := EagerEvents(c, l, user, from, token, lo, hi);
            && Legal(w, evs, compare, lo) && ClockAfter(evs, lo) <= hi
            && (forall i | 0 <= i < |evs| :: !Clears(c, evs[i], user))
            && WrongAnswers(c, evs, user) == Budget(l, MaxOf(c), lo, hi)
    decreases Max(0, MaxOf(c) - LockOf(c, w.users[user]).attempts), hi - NextFree(LockOf(c, w.users[user]), lo)
  {
    var l := LockOf(c, w.users[user]);
    var t := NextFree(l, lo);
    if t <= hi {
      var next, once := Failed(l, MaxOf(c), t), Try(c, user, from, token, t);
      TryOnce(c, w, compare, user, from, token, lo, t);
      BudgetSpent(l, MaxOf(c), lo, hi);
      BoundIsReached(c, After(w, once), compare, user, from, token, t, hi);
      var rest := EagerEvents(c, next, user, from, token, t, hi);
      JoinTries(c, w, once, rest, compare, user, lo);
    }
  }

  /** For a user with `a` failures and no lock, some run between `lo` and `hi` has exactly
      `max(1, 5 - a) + floor((hi - lo) / 15 min)` wrong passwords let through. */
  lemma PasswordBoundIsReached(w: World, compare: S.Compare, user: Id, from: Origin, lo: Time, hi: Time)
    returns (evs: seq<Event>)
    requires user in w.users && w.users[user].lockedUntil.None? && lo <= hi
    ensures Legal(w, evs, compare, lo) && ClockAfter(evs, lo) <= hi && NoneClears(LoginCounter, evs, user)
    ensures WrongAnswers(LoginCounter, evs, user)
         == Max(1, 5 - w.users[user].failedAttempts) + (hi - lo) / (15 * 60 * 1000)
  {
    evs := EagerEvents(LoginCounter, LoginLock(w.users[user]), user, from, [], lo, hi);
    BoundIsReached(LoginCounter, w, compare, user, from, [], lo, hi);
    BudgetUnlocked(LoginLock(w.users[user]), 5, lo, hi);
  }

  lemma BudgetUnlocked(l: Lock, max: nat, lo: Time, hi: Time)
    requires l.until.None? && lo <= hi
    ensures Budget(l, max, lo, hi) == Max(1, max - l.attempts) + (hi - lo) / (15 * 60 * 1000)
  {
  }

  /** And for one with MFA, `a` MFA failures and no lock, exactly
      `max(1, 3 - a) + floor((hi - lo) / 15 min)` wrong codes. */
  lemma MfaBoundIsReached(w: World, compare: S.Compare, user: Id, from: Origin, token: Text, lo: Time, hi: Time)
    returns (evs: seq<Event>)
    requires user in w.users && w.users[user].mfaEnabled && lo <= hi
    requires w.users[user].lockedUntil.None? && w.users[user].mfaLockedUntil.None?
    ensures Legal(w, evs, compare, lo) && ClockAfter(evs, lo) <= hi && NoneClears(MfaCounter, evs, user)
    ensures WrongAnswers(MfaCounter, evs, user)
         == Max(1, 3 - w.users[user].mfaFailedAttempts) + (hi - lo) / (15 * 60 * 1000)
  {
    evs := EagerEvents(MfaCounter, MfaLock(w.users[user]), user, from, token, lo, hi);
    BoundIsReached(MfaCounter, w, compare, user, from, token, lo, hi);
    BudgetUnlocked(MfaLock(w.users[user]), 3, lo, hi);
  }

  /** After a fifth failure counted at `at`, a login is refused if and only if it is checked
      within 15 minutes of it; before the fifth, the lock is as it was. */
  lemma LoginLockLasts(w: World, compare: S.Compare, user: Id, from: Origin, check: Time, at: Time, t: Time)
    requires user in w.users
    ensures var v, refused := Apply(w, LoginWrong(user, from, check, at)), LoginRefused(user, from, t);
            var locks := w.users[user].failedAttempts >= 4;
            (locks ==> (Enabled(v, refused, compare) <==> t < at + 15 * 60 * 1000))
            && (!locks ==> (Enabled(v, refused, compare) <==> Enabled(w, refused, compare)))
  {
    RowAfter(w, LoginWrong(user, from, check, at));
  }

  /** After a third MFA failure counted at `at`, an open token is let through if and only if
      the lock is checked 15 minutes after it or later. */
  lemma MfaLockLasts(w: World, user: Id, ev: Event, token: Text, check: Time, t: Time)
    requires user in w.users && ev.MfaWrong? && ev.user == user && w.users[user].mfaFailedAttempts >= 2
    requires w.users[user].mfaTempToken == Some(token) && check <= w.users[user].mfaTempTokenExpires.GetOr(0)
    ensures MfaOpen(Apply(w, ev), user, token, check, t) <==> t >= ev.at + 15 * 60 * 1000
  {
    RowAfter(w, ev);
  }

  // ------------------------------------------------------- wrong answers that nothing counts

  /** A wrong password, or a wrong code, at a check outside the counter. */
  predicate IsUncounted(c: Counter, ev: Event, user: Id) {
    ev.UncountedWrong? && ev.user == user && (ev.test == DisablePassword <==> c.LoginCounter?)
  }

  function UncountedAnswers(c: Counter, evs: seq<Event>, user: Id): nat {
    if evs == [] then 0
    else UncountedAnswers(c, evs[..|evs| - 1], user) + (if IsUncounted(c, evs[|evs| - 1], user) then 1 else 0)
  }

  /** All wrong passwords, or all wrong answers to MFA, that were checked. */
  function AllWrong(c: Counter, evs: seq<Event>, user: Id): nat {
    if evs == [] then 0
    else
      var last := evs[|evs| - 1];
      AllWrong(c, evs[..|evs| - 1], user) + (if IsWrong(c, last, user) || IsUncounted(c, last, user) then 1 else 0)
  }

  /** They are the counted ones and those outside the counter. */
  lemma {:induction false} WrongAnswersSplit(c: Counter, evs: seq<Event>, user: Id)
    ensures AllWrong(c, evs, user) == WrongAnswers(c, evs, user) + UncountedAnswers(c, evs, user)
  {
    if evs != [] { WrongAnswersSplit(c, evs[..|evs| - 1], user); }
  }

  /** So the bound on all that were checked is the budget and however many were tried outside
      the counter. */
  lemma AllWrongBounded(c: Counter, w: World, evs: seq<Event>, compare: S.Compare, user: Id, lo: Time, hi: Time)
    requires user in w.users && Legal(w, evs, compare, lo) && ClockAfter(evs, lo) <= hi && lo <= hi
    requires NoneClears(c, evs, user)
    ensures AllWrong(c, evs, user)
         <= Budget(LockOf(c, w.users[user]), MaxOf(c), lo, hi) + UncountedAnswers(c, evs, user)
  {
    WrongAnswersSplit(c, evs, user);
    WrongAnswersWithinBudget(c, w, evs, compare, user, lo, hi);
  }

  /** Wrong answers outside the counter, one after the other at time `t`. */
  function Uncounteds(user: Id, test: Uncounted, n: nat, t: Time): (evs: seq<Event>)
    ensures |evs| == n
  {
    if n == 0 then [] else Uncounteds(user, test, n - 1, t) + [UncountedWrong(user, test, t)]
  }

  /** Any number of them is let through, locked or not, and changes nothing. */
  lemma {:induction false} UncountedIsUnbounded(c: Counter, w: World, compare: S.Compare, user: Id, test: Uncounted,
                                                n: nat, lo: Time, t: Time)
    requires user in w.users && lo <= t && (test == DisablePassword <==> c.LoginCounter?)
    ensures var evs := Uncounteds(user, test, n, t);
            && Legal(w, evs, compare, lo) && After(w, evs) == w && ClockAfter(evs, lo) == (if n == 0 then lo else t)
            && NoneClears(c, evs, user)
            && UncountedAnswers(c, evs, user) == AllWrong(c, evs, user) == n && WrongAnswers(c, evs, user) == 0
  {
    if n > 0 {
      var before, ev := Uncounteds(user, test, n - 1, t), UncountedWrong(user, test, t);
      UncountedIsUnbounded(c, w, compare, user, test, n - 1, lo, t);
      LegalSnoc(w, before, ev, compare, lo);
      UncountedChangesNothing(w, ev);
      UncountedLast(c, before, ev, user);
    }
  }

  lemma UncountedLast(c: Counter, before: seq<Event>, ev: Event, user: Id)
    requires IsUncounted(c, ev, user) && NoneClears(c, before, user)
    ensures var evs := before + [ev];
            && NoneClears(c, evs, user)
            && UncountedAnswers(c, evs, user) == UncountedAnswers(c, before, user) + 1
            && AllWrong(c, evs, user) == AllWrong(c, before, user) + 1
            && WrongAnswers(c, evs, user) == WrongAnswers(c, before, user)
  {
    assert (before + [ev])[..|before|] == before;
  }

  /** And both come together: whatever the lock, the window and `n`, some run of the service
      has as many wrong answers checked as the budget and `n` more. */
  lemma AllWrongIsReached(c: Counter, w: World, compare: S.Compare, user: Id, from: Origin, token: Text,
                          test: Uncounted, n: nat, lo: Time, hi: Time)
    requires user in w.users && lo <= hi && (test == DisablePassword <==> c.LoginCounter?)
    requires c.MfaCounter? ==> w.users[user].mfaEnabled && !Locked(LoginLock(w.users[user]), lo)
    ensures var l := LockOf(c, w.users[user]);
            var evs := Uncounteds(user, test, n, lo) + EagerEvents(c, l, user, from, token, lo, hi);
            && Legal(w, evs, compare, lo) && ClockAfter(evs, lo) <= hi && NoneClears(c, evs, user)
            && AllWrong(c, evs, user) == Budget(l, MaxOf(c), lo, hi) + n
  {
    var first := Uncounteds(user, test, n, lo);
    var rest := EagerEvents(c, LockOf(c, w.users[user]), user, from, token, lo, hi);
    UncountedIsUnbounded(c, w, compare, user, test, n, lo, lo);
    BoundIsReached(c, w, compare, user, from, token, lo, hi);
    JoinTries(c, w, first, rest, compare, user, lo);
    WrongAnswersSplit(c, first + rest, user);
    UncountedJoin(c, first, rest, user);
    EagerIsCounted(c, LockOf(c, w.users[user]), user, from, token, lo, hi);
  }

  lemma {:induction false} UncountedJoin(c: Counter, a: seq<Event>, b: seq<Event>, user: Id)
    ensures UncountedAnswers(c, a + b, user) == UncountedAnswers(c, a, user) + UncountedAnswers(c, b, user)
  {
    if b == [] {
      assert a + b == a;
    } else {
      JoinFront(a, b);
      UncountedJoin(c, a, b[..|b| - 1], user);
    }
  }

  lemma {:induction false} EagerIsCounted(c: Counter, l: Lock, user: Id, from: Origin, token: Text, lo: Time, hi: Time)
    ensures UncountedAnswers(c, EagerEvents(c, l, user, from, token, lo, hi), user) == 0
    decreases Max(0, MaxOf(c) - l.attempts), hi - NextFree(l, lo)
  {
    var t := NextFree(l, lo);
    if t <= hi {
      var next, once := Failed(l, MaxOf(c), t), Try(c, user, from, token, t);
      EagerIsCounted(c, next, user, from, token, t, hi);
      UncountedJoin(c, once, EagerEvents(c, next, user, from, token, t, hi), user);
      TryIsCounted(c, user, from, token, t);
    }
  }

  lemma TryIsCounted(c: Counter, user: Id, from: Origin, token: Text, t: Time)
    ensures UncountedAnswers(c, Try(c, user, from, token, t), user) == 0
  {
    var once := Try(c, user, from, token, t);
    UncountedOfOne(c, once[0], user);
    if c.MfaCounter? {
      UncountedOfOne(c, once[1], user);
      UncountedJoin(c, [once[0]], [once[1]], user);
      assert [once[0]] + [once[1]] == once;
    } else {
      assert [once[0]] == once;
    }
  }

  lemma UncountedOfOne(c: Counter, ev: Event, user: Id)
    ensures UncountedAnswers(c, [ev], user) == if IsUncounted(c, ev, user) then 1 else 0
  {
    assert [ev][..0] == [];
  }
}
