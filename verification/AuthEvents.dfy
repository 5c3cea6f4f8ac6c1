/** The requests of the authentication service as events on users, sessions and audit log:
    when each can happen, what it changes, and runs of them with a clock. */
module AuthEvents {
  import opened JsText
  import opened Option
  import opened Users
  import S = Sessions

  datatype Action = LOGIN_FAILED | LOGIN_LOCKED | MFA_PENDING | LOGIN_SUCCESS | TOKEN_REFRESH | LOGOUT

  datatype AuditRow = AuditRow(userId: Option<Id>, action: Action, ip: Text, device: Text, success: bool)

  datatype Origin = Origin(ip: Text, device: Text)

  datatype World = World(users: Table, sessions: S.SessionTable, audit: seq<AuditRow>)

  /** The three ways to answer a pending MFA login. */
  datatype Endpoint = TotpCode | BackupCode | BiometricDevice(device: Text)

  /** The checks whose failures no counter counts and no lock stops: the password and the code
      that turning MFA off asks for, and the code that turning it on asks for. */
  datatype Uncounted = DisablePassword | DisableCode | SetupCode

  /** What a request turned out to do. `check` and `lockCheck` are the readings of the clock
      it was let through at, `at` the last reading it took. */
  datatype Event =
    | LoginUnknown(email: Text, from: Origin, at: Time)
    | LoginRefused(user: Id, from: Origin, at: Time)
    | LoginWrong(user: Id, from: Origin, check: Time, at: Time)
    | LoginPending(user: Id, from: Origin, check: Time, at: Time, token: Text)
    | LoginDone(user: Id, from: Origin, check: Time, at: Time, sid: S.Sid, token: Text, hash: Text)
    | Refreshed(user: Id, from: Origin, presented: Text, check: Time, at: Time, revoked: Option<S.Sid>,
                sid: S.Sid, token: Text, hash: Text)
    | LoggedOut(user: Id, from: Origin, presented: Text, at: Time, revoked: Option<S.Sid>)
    | MfaWrong(user: Id, endpoint: Endpoint, token: Text, check: Time, lockCheck: Time, at: Time)
    | MfaDone(user: Id, endpoint: Endpoint, token: Text, check: Time, lockCheck: Time, at: Time,
              codesLeft: Option<Text>)
    | SetupStarted(user: Id, secret: Text, at: Time)
    | SetupVerified(user: Id, codes: Text, at: Time)
    | MfaDisabled(user: Id, at: Time)
    | UncountedWrong(user: Id, test: Uncounted, at: Time)
    | BiometricEnabled(user: Id, device: BodyField, at: Time)
    | BiometricDisabled(user: Id, at: Time)
    | UnlockedByAdmin(user: Id, at: Time)
    | ResetByAdmin(user: Id, at: Time)
    | UserCreated(user: Id, email: Text, passwordHash: Text, at: Time)
    | SessionsRevoked(user: Id, at: Time)
    | SessionsCleaned(at: Time)
    | NoEffect(at: Time)

  function Start(ev: Event): Time {
    if ev.LoginWrong? || ev.LoginPending? || ev.LoginDone? || ev.Refreshed? || ev.MfaWrong? || ev.MfaDone?
    then ev.check else ev.at
  }

  /** The clock does not go back within a request. */
  predicate Timely(ev: Event) {
    if ev.MfaWrong? || ev.MfaDone? then ev.check <= ev.lockCheck <= ev.at else Start(ev) <= ev.at
  }

  /** `user.mfaTempTokenExpires < new Date()`, where null counts as time 0. */
  predicate TokenExpired(u: User, now: Time) { u.mfaTempTokenExpires.GetOr(0) < now }

  /** A verify endpoint found this row by its token and let the attempt through. */
  predicate MfaOpen(w: World, user: Id, token: Text, check: Time, lockCheck: Time) {
    user in w.users
    && (var u := w.users[user];
        u.mfaTempToken == Some(token) && !TokenExpired(u, check) && !Locked(MfaLock(u), lockCheck))
  }

  /** A presented device is right or wrong for this row; codes are judged elsewhere. */
  predicate Judged(u: User, endpoint: Endpoint, right: bool) {
    endpoint.BiometricDevice? ==> (BiometricMatches(u, endpoint.device) <==> right)
  }

  predicate LoginOpen(w: World, user: Id, check: Time) {
    user in w.users && !Locked(LoginLock(w.users[user]), check)
  }

  predicate Enabled(w: World, ev: Event, compare: S.Compare) {
    match ev
    case LoginUnknown(email, _, _) => forall id | id in w.users :: w.users[id].email != email
    case LoginRefused(user, _, at) => user in w.users && Locked(LoginLock(w.users[user]), at)
    case LoginWrong(user, _, check, _) => LoginOpen(w, user, check)
    case LoginPending(user, _, check, _, _) => LoginOpen(w, user, check) && w.users[user].mfaEnabled
    case LoginDone(user, _, check, _, sid, _, _) =>
      LoginOpen(w, user, check) && !w.users[user].mfaEnabled && sid !in w.sessions
    case Refreshed(user, _, presented, check, _, revoked, sid, _, _) =>
      && user in w.users && w.users[user].isActive
      && S.Validates(w.sessions, compare, user, presented, check)
      && S.Enabled(w.sessions, compare, S.Revoke(user, presented, revoked))
      && sid !in w.sessions
    case LoggedOut(user, _, presented, _, revoked) =>
      S.Enabled(w.sessions, compare, S.Revoke(user, presented, revoked))
    case MfaWrong(user, endpoint, token, check, lockCheck, _) =>
      MfaOpen(w, user, token, check, lockCheck) && Judged(w.users[user], endpoint, false)
    case MfaDone(user, endpoint, token, check, lockCheck, _, _) =>
      MfaOpen(w, user, token, check, lockCheck) && Judged(w.users[user], endpoint, true)
    case SetupStarted(user, _, _) => user in w.users
    case SetupVerified(user, _, _) => user in w.users
    case MfaDisabled(user, _) => user in w.users
    case UncountedWrong(user, _, _) => user in w.users
    case BiometricEnabled(user, _, _) => user in w.users && w.users[user].mfaEnabled
    case BiometricDisabled(user, _) => user in w.users
    case UnlockedByAdmin(user, _) => user in w.users
    case ResetByAdmin(user, _) => user in w.users
    case UserCreated(user, email, _, _) =>
      user !in w.users && forall id | id in w.users :: w.users[id].email != email
    case SessionsRevoked(_, _) => true
    case SessionsCleaned(_) => true
    case NoEffect(_) => true
  }

  /** What the event makes of the row of its own user. */
  function Changed(u: User, ev: Event): User {
    match ev
    case LoginWrong(_, _, _, at) => WithLoginFailure(u, at)
    case LoginPending(_, _, _, at, token) => WithTempToken(WithLoginReset(u), token, at + TEMP_TOKEN_TTL)
    case LoginDone(_, _, _, _, _, _, _) => WithLoginReset(u)
    case MfaWrong(_, _, _, _, _, at) => WithMfaFailure(u, at)
    case MfaDone(_, _, _, _, _, at, codesLeft) =>
      var v := WithMfaReset(u);
      WithoutTempToken(if codesLeft.Some? then WithBackupCodes(v, codesLeft.value) else v, at)
    case SetupStarted(_, secret, _) => WithSecret(u, secret)
    case SetupVerified(_, codes, _) => WithMfa(u, codes)
    case MfaDisabled(_, _) => WithoutMfa(u)
    case BiometricEnabled(_, device, _) => WithBiometric(u, device)
    case BiometricDisabled(_, _) => WithoutBiometric(u)
    case UnlockedByAdmin(_, _) => AdminUnlocked(u)
    case ResetByAdmin(_, _) => AdminReset(u)
    case _ => u
  }

  predicate HasUser(ev: Event) { !ev.LoginUnknown? && !ev.SessionsCleaned? && !ev.NoEffect? }

  function UsersAfter(users: Table, ev: Event): Table {
    if ev.UserCreated? then users[ev.user := NewUser(ev.user, ev.email, ev.passwordHash)]
    else if HasUser(ev) && ev.user in users then users[ev.user := Changed(users[ev.user], ev)]
    else users
  }

  function SessionOps(ev: Event): seq<S.Op> {
    match ev
    case LoginDone(user, from, _, at, sid, token, hash) =>
      [S.Create(sid, user, token, hash, from.device, from.ip, at)]
    case Refreshed(user, from, presented, _, at, revoked, sid, token, hash) =>
      [S.Revoke(user, presented, revoked), S.Create(sid, user, token, hash, from.device, from.ip, at)]
    case LoggedOut(user, _, presented, _, revoked) => [S.Revoke(user, presented, revoked)]
    case SessionsRevoked(user, _) => [S.RevokeAll(user)]
    case SessionsCleaned(at) => [S.Cleanup(at)]
    case _ => []
  }

  function ApplyAll(rows: S.SessionTable, ops: seq<S.Op>): S.SessionTable
    decreases ops
  {
    if ops == [] then rows else ApplyAll(S.Apply(rows, ops[0]), ops[1..])
  }

  lemma ApplyOne(rows: S.SessionTable, a: S.Op)
    ensures ApplyAll(rows, [a]) == S.Apply(rows, a)
  {
    assert [a][1..] == [];
  }

  lemma ApplyTwo(rows: S.SessionTable, a: S.Op, b: S.Op)
    ensures ApplyAll(rows, [a, b]) == S.Apply(S.Apply(rows, a), b)
  {
    assert [a, b][1..] == [b];
    ApplyOne(S.Apply(rows, a), b);
  }

  function AuditOf(ev: Event): seq<AuditRow> {
    match ev
    case LoginUnknown(_, from, _) => [AuditRow(None, LOGIN_FAILED, from.ip, from.device, false)]
    case LoginRefused(user, from, _) => [AuditRow(Some(user), LOGIN_LOCKED, from.ip, from.device, false)]
    case LoginWrong(user, from, _, _) => [AuditRow(Some(user), LOGIN_FAILED, from.ip, from.device, false)]
    case LoginPending(user, from, _, _, _) => [AuditRow(Some(user), MFA_PENDING, from.ip, from.device, true)]
    case LoginDone(user, from, _, _, _, _, _) => [AuditRow(Some(user), LOGIN_SUCCESS, from.ip, from.device, true)]
    case Refreshed(user, from, _, _, _, _, _, _, _) =>
      [AuditRow(Some(user), TOKEN_REFRESH, from.ip, from.device, true)]
    case LoggedOut(user, from, _, _, _) => [AuditRow(Some(user), LOGOUT, from.ip, from.device, true)]
    case _ => []
  }

  function Apply(w: World, ev: Event): World {
    World(UsersAfter(w.users, ev), ApplyAll(w.sessions, SessionOps(ev)), w.audit + AuditOf(ev))
  }

  // ------------------------------------------------------------------------------ runs

  function After(w: World, evs: seq<Event>): World {
    if evs == [] then w else Apply(After(w, evs[..|evs| - 1]), evs[|evs| - 1])
  }

  function ClockAfter(evs: seq<Event>, clock: Time): Time {
    if evs == [] then clock else evs[|evs| - 1].at
  }

  /** The event can come next in a run that has reached `w` at time `clock`. */
  predicate CanFollow(w: World, ev: Event, compare: S.Compare, clock: Time) {
    Enabled(w, ev, compare) && Timely(ev) && clock <= Start(ev)
  }

  /** Requests served one after the other from world `w` and time `clock` on. */
  predicate Legal(w: World, evs: seq<Event>, compare: S.Compare, clock: Time) {
    evs == [] || (
      var before, ev := evs[..|evs| - 1], evs[|evs| - 1];
      && Legal(w, before, compare, clock)
      && CanFollow(After(w, before), ev, compare, ClockAfter(before, clock)))
  }

  lemma JoinFront(a: seq<Event>, b: seq<Event>)
    requires b != []
    ensures a + b != []
    ensures (a + b)[..|a + b| - 1] == a + b[..|b| - 1] && (a + b)[|a + b| - 1] == b[|b| - 1]
  {
  }

  lemma AfterLast(w: World, evs: seq<Event>, before: seq<Event>, ev: Event)
    requires evs != [] && before == evs[..|evs| - 1] && ev == evs[|evs| - 1]
    ensures After(w, evs) == Apply(After(w, before), ev)
  {
  }

  lemma {:induction false} AfterJoin(w: World, a: seq<Event>, b: seq<Event>)
    ensures After(w, a + b) == After(After(w, a), b)
  {
    if b == [] {
      assert a + b == a;
    } else {
      var front, ev := b[..|b| - 1], b[|b| - 1];
      JoinFront(a, b);
      AfterJoin(w, a, front);
      AfterLast(w, a + b, a + front, ev);
      AfterLast(After(w, a), b, front, ev);
    }
  }

  lemma ClockJoin(a: seq<Event>, b: seq<Event>, clock: Time)
    ensures ClockAfter(a + b, clock) == ClockAfter(b, ClockAfter(a, clock))
  {
    if b == [] { assert a + b == a; }
  }

  lemma LegalLast(w: World, evs: seq<Event>, before: seq<Event>, ev: Event, compare: S.Compare, clock: Time)
    requires evs != [] && before == evs[..|evs| - 1] && ev == evs[|evs| - 1]
    ensures Legal(w, evs, compare, clock)
       <==> Legal(w, before, compare, clock) && CanFollow(After(w, before), ev, compare, ClockAfter(before, clock))
  {
  }

  /** A run is legal exactly when its first part is, and its second from where that ends. */
  lemma {:induction false} LegalJoin(w: World, a: seq<Event>, b: seq<Event>, compare: S.Compare, clock: Time)
    ensures Legal(w, a + b, compare, clock)
       <==> Legal(w, a, compare, clock) && Legal(After(w, a), b, compare, ClockAfter(a, clock))
  {
    if b == [] {
      assert a + b == a;
    } else {
      var front, ev := b[..|b| - 1], b[|b| - 1];
      JoinFront(a, b);
      LegalJoin(w, a, front, compare, clock);
      AfterJoin(w, a, front);
      ClockJoin(a, front, clock);
      LegalLast(w, a + b, a + front, ev, compare, clock);
      LegalLast(After(w, a), b, front, ev, compare, ClockAfter(a, clock));
    }
  }

  /** One more event. */
  lemma LegalSnoc(w: World, evs: seq<Event>, ev: Event, compare: S.Compare, clock: Time)
    requires Legal(w, evs, compare, clock) && CanFollow(After(w, evs), ev, compare, ClockAfter(evs, clock))
    ensures Legal(w, evs + [ev], compare, clock)
    ensures After(w, evs + [ev]) == Apply(After(w, evs), ev) && ClockAfter(evs + [ev], clock) == ev.at
  {
    assert (evs + [ev])[..|evs|] == evs;
  }

  /** A world with no users yet. */
  const EMPTY := World(map[], map[], [])

  lemma {:induction false} UserStays(w: World, evs: seq<Event>, user: Id)
    requires user in w.users
    ensures user in After(w, evs).users
  {
    if evs != [] { UserStays(w, evs[..|evs| - 1], user); }
  }

  lemma RowReplaced(rows: Table, id: Id, u: User)
    requires ValidTable(rows) && id in rows && u.id == rows[id].id && u.email == rows[id].email
    ensures ValidTable(rows[id := u])
  {
  }

  lemma RowAdded(rows: Table, u: User)
    requires ValidTable(rows) && u.id !in rows && forall id | id in rows :: rows[id].email != u.email
    ensures ValidTable(rows[u.id := u])
  {
  }

  lemma UsersStayValid(users: Table, ev: Event)
    requires ValidTable(users)
    requires ev.UserCreated? ==> ev.user !in users && forall id | id in users :: users[id].email != ev.email
    ensures ValidTable(UsersAfter(users, ev))
  {
    if ev.UserCreated? {
      RowAdded(users, NewUser(ev.user, ev.email, ev.passwordHash));
    } else if HasUser(ev) && ev.user in users {
      ChangedKeepsKey(users[ev.user], ev);
      RowReplaced(users, ev.user, Changed(users[ev.user], ev));
    }
  }

  /** Rows keep their ids, and no two rows share an email. */
  lemma StepKeepsTable(w: World, ev: Event, compare: S.Compare)
    requires ValidTable(w.users) && Enabled(w, ev, compare)
    ensures ValidTable(Apply(w, ev).users)
  {
    UsersStayValid(w.users, ev);
  }

  lemma ChangedKeepsKey(u: User, ev: Event)
    ensures Changed(u, ev).id == u.id && Changed(u, ev).email == u.email
  {
  }

  /** The users-table part of a world; the MFA and admin handlers touch nothing else. */
  function OnUsers(rows: Table): World { World(rows, map[], []) }

  /** Such an event changes the one row it is about. */
  lemma OneRowEvent(rows: Table, ev: Event)
    requires SessionOps(ev) == [] && AuditOf(ev) == [] && HasUser(ev) && !ev.UserCreated? && ev.user in rows
    ensures Apply(OnUsers(rows), ev) == OnUsers(rows[ev.user := Changed(rows[ev.user], ev)])
  {
  }

  /** A wrong answer nothing counts leaves the tables as they are. */
  lemma UncountedChangesNothing(w: World, ev: Event)
    requires ev.UncountedWrong?
    ensures Apply(w, ev) == w
  {
    if ev.user in w.users { assert w.users[ev.user := w.users[ev.user]] == w.users; }
  }

  /** What those handlers do to the users table is what the event does in the whole world. */
  lemma UsersOnlyEvent(w: World, ev: Event, compare: S.Compare)
    requires SessionOps(ev) == [] && AuditOf(ev) == []
    ensures Enabled(OnUsers(w.users), ev, compare) <==> Enabled(w, ev, compare)
    ensures Apply(w, ev) == World(Apply(OnUsers(w.users), ev).users, w.sessions, w.audit)
  {
  }
}
