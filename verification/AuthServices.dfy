/** The handlers of `AuthService`, `MfaController` and `AdminController` over the services.
    Each is shown to do exactly one event of `AuthEvents`, the one its answer stands for, so
    that what is proved of runs of events holds of runs of requests. */
module AuthServices {
  import opened JsText
  import opened Option
  import opened Users
  import opened AuthEvents
  import S = Sessions
  import opened BackupLogins
  import B = BackupCodes

  class AuditLogService {
    var rows: seq<AuditRow>

    constructor ()
      ensures rows == []
    {
      rows := [];
    }

    method Log(action: Action, userId: Option<Id>, from: Origin, success: bool)
      modifies this
      ensures rows == old(rows) + [AuditRow(userId, action, from.ip, from.device, success)]
    {
      rows := rows + [AuditRow(userId, action, from.ip, from.device, success)];
    }
  }

  datatype LoginResult =
    | Unauthorized
    | Forbidden
    | NeedsMfa(tempToken: Text, preferredMfaMethod: MfaMethod, biometricEnabled: bool)
    | TokenPair(user: Id, accessToken: Text, refreshToken: Text)

  /** What a login that fails changes. */
  lemma FailedLogin(w: World, ev: Event, compare: S.Compare)
    requires ValidTable(w.users) && Enabled(w, ev, compare)
    requires ev.LoginUnknown? || ev.LoginRefused? || ev.LoginWrong?
    ensures var users := if ev.LoginWrong? then w.users[ev.user := WithLoginFailure(w.users[ev.user], ev.at)]
                         else w.users;
            Apply(w, ev) == World(users, w.sessions, w.audit + AuditOf(ev)) && ValidTable(users)
  {
    StepKeepsTable(w, ev, compare);
    if ev.LoginRefused? { assert w.users[ev.user := w.users[ev.user]] == w.users; }
  }

  /** What generator, database, bcrypt and the JWT signer supply to a request. */
  datatype Made = Made(tempToken: Text, sid: S.Sid, token: Text, hash: Text, accessJwt: Text, refreshJwt: Text)

  /** What a login does: the password decides, and the event is the one the answer stands for. */
  ghost predicate LoginSettled(rows: Table, valid: (Text, Text) -> bool, email: Text, password: Text,
                               from: Origin, check: Time, at: Time, made: Made, result: LoginResult, ev: Event)
  {
    var known := HasUser(ev) && ev.user in rows && rows[ev.user].email == email;
    var right := known && valid(password, rows[ev.user].passwordHash);
    match result
    case Unauthorized =>
      !right && if known then ev == LoginWrong(ev.user, from, check, at) else ev == LoginUnknown(email, from, check)
    case Forbidden => known && ev == LoginRefused(ev.user, from, check)
    case NeedsMfa(token, _, _) =>
      right && token == made.tempToken && ev == LoginPending(ev.user, from, check, at, made.tempToken)
    case TokenPair(user, access, refresh) =>
      && right && access == made.accessJwt && refresh == made.refreshJwt
      && ev == LoginDone(user, from, check, at, made.sid, made.token, made.hash)
  }

  /** Of the user's unrevoked sessions that match the token one is revoked, or there was none;
      every other session stays as it was. */
  predicate OneFewer(before: S.SessionTable, after: S.SessionTable, compare: S.Compare, user: Id, token: Text) {
    var n := |S.Matching(before, compare, user, token)|;
    && |S.Matching(after, compare, user, token)| == (if n > 0 then n - 1 else 0)
    && after.Keys == before.Keys
    && forall s | s in before ::
         after[s] == before[s] || (s in S.Matching(before, compare, user, token) && after[s].isRevoked)
  }

  /** The row has this email and a lock that lies ahead. */
  predicate IsLocked(u: User, email: Text, check: Time) {
    u.email == email && u.lockedUntil.Some? && u.lockedUntil.value > check
  }

  class AuthService {
    const users: UsersService
    const sessions: S.SessionsService
    const auditLog: AuditLogService

    constructor (users: UsersService, sessions: S.SessionsService, auditLog: AuditLogService)
      ensures this.users == users && this.sessions == sessions && this.auditLog == auditLog
    {
      this.users := users;
      this.sessions := sessions;
      this.auditLog := auditLog;
    }

    function Here(): World
      reads users, sessions, auditLog
    {
      World(users.rows, sessions.rows, auditLog.rows)
    }

    /** `check` and `at` are the readings of the clock. */
    method Login(email: Text, password: Text, from: Origin, check: Time, at: Time, made: Made)
      returns (result: LoginResult, ghost ev: Event)
      requires ValidTable(users.rows) && check <= at && made.sid !in sessions.rows
      modifies users, sessions, auditLog
      ensures Enabled(old(Here()), ev, sessions.bcryptCompare) && Timely(ev) && Start(ev) >= check && ev.at <= at
      ensures Here() == Apply(old(Here()), ev) && ValidTable(users.rows)
      ensures LoginSettled(old(users.rows), users.bcryptCompare, email, password, from, check, at, made, result, ev)
      ensures result.Forbidden? <==> exists id | id in old(users.rows) :: IsLocked(old(users.rows)[id], email, check)
    {
      var found := users.FindByEmail(email);
      if found.None? {
        auditLog.Log(LOGIN_FAILED, None, from, false);
        ev := LoginUnknown(email, from, check);
        FailedLogin(old(Here()), ev, sessions.bcryptCompare);
        return Unauthorized, ev;
      }
      assert found.value.id in users.rows && users.rows[found.value.id] == found.value;
      result, ev := LoginKnown(found.value, password, from, check, at, made);
    }

    /** A login for a user that was found. */
    method LoginKnown(user: User, password: Text, from: Origin, check: Time, at: Time, made: Made)
      returns (result: LoginResult, ghost ev: Event)
      requires ValidTable(users.rows) && check <= at && made.sid !in sessions.rows
      requires user.id in users.rows && users.rows[user.id] == user
      modifies users, sessions, auditLog
      ensures Enabled(old(Here()), ev, sessions.bcryptCompare) && Timely(ev) && Start(ev) >= check && ev.at <= at
      ensures Here() == Apply(old(Here()), ev) && ValidTable(users.rows)
      ensures LoginSettled(old(users.rows), users.bcryptCompare, user.email, password, from, check, at, made,
                           result, ev)
      ensures result.Forbidden? <==> IsLocked(user, user.email, check)
    {
      if user.lockedUntil.Some? && user.lockedUntil.value > check {
        ev := LockedOut(user, from, check);
        return Forbidden, ev;
      }
      var isPasswordValid := users.ValidatePassword(user, password);
      if !isPasswordValid {
        ev := WrongPassword(user, from, check, at);
        return Unauthorized, ev;
      }
      result, ev := LoggedIn(user, from, check, at, made);
    }

    /** What a login during a lock leads to. */
    method LockedOut(user: User, from: Origin, check: Time) returns (ghost ev: Event)
      requires ValidTable(users.rows) && user.id in users.rows && users.rows[user.id] == user
      requires IsLocked(user, user.email, check)
      modifies auditLog
      ensures ev == LoginRefused(user.id, from, check)
      ensures Here() == Apply(old(Here()), ev)
    {
      auditLog.Log(LOGIN_LOCKED, Some(user.id), from, false);
      ev := LoginRefused(user.id, from, check);
      FailedLogin(old(Here()), ev, sessions.bcryptCompare);
    }

    /** What a wrong password leads to. */
    method WrongPassword(user: User, from: Origin, check: Time, at: Time) returns (ghost ev: Event)
      requires ValidTable(users.rows)
      requires LoginOpen(Here(), user.id, check) && users.rows[user.id] == user
      modifies users, auditLog
      ensures ev == LoginWrong(user.id, from, check, at)
      ensures Here() == Apply(old(Here()), ev) && ValidTable(users.rows)
    {
      var _ := users.IncrementFailedAttempts(user, at);
      auditLog.Log(LOGIN_FAILED, Some(user.id), from, false);
      ev := LoginWrong(user.id, from, check, at);
      FailedLogin(old(Here()), ev, sessions.bcryptCompare);
    }

    /** What a correct password leads to. */
    method LoggedIn(user: User, from: Origin, check: Time, at: Time, made: Made)
      returns (result: LoginResult, ghost ev: Event)
      requires ValidTable(users.rows) && check <= at && made.sid !in sessions.rows
      requires LoginOpen(Here(), user.id, check) && users.rows[user.id] == user
      modifies users, sessions, auditLog
      ensures Enabled(old(Here()), ev, sessions.bcryptCompare)
      ensures Here() == Apply(old(Here()), ev) && ValidTable(users.rows)
      ensures if user.mfaEnabled
              then ev == LoginPending(user.id, from, check, at, made.tempToken)
                   && result == NeedsMfa(made.tempToken, user.preferredMfaMethod, user.biometricEnabled)
              else ev == LoginDone(user.id, from, check, at, made.sid, made.token, made.hash)
                   && result == TokenPair(user.id, made.accessJwt, made.refreshJwt)
    {
      ghost var before := Here();
      var entity := users.ResetFailedAttempts(user);
      if entity.mfaEnabled {
        users.SetMfaTempToken(user.id, made.tempToken, at + TEMP_TOKEN_TTL);
        auditLog.Log(MFA_PENDING, Some(user.id), from, true);
        ev := LoginPending(user.id, from, check, at, made.tempToken);
        result := NeedsMfa(made.tempToken, entity.preferredMfaMethod, entity.biometricEnabled);
        assert users.rows == before.users[user.id := Changed(user, ev)];
      } else {
        var _ := sessions.CreateRefreshToken(user.id, from.device, from.ip, at, made.sid, made.token, made.hash);
        auditLog.Log(LOGIN_SUCCESS, Some(user.id), from, true);
        ev := LoginDone(user.id, from, check, at, made.sid, made.token, made.hash);
        ApplyOne(before.sessions, S.Create(made.sid, user.id, made.token, made.hash, from.device, from.ip, at));
        result := TokenPair(user.id, made.accessJwt, made.refreshJwt);
        assert users.rows == before.users[user.id := Changed(user, ev)];
      }
      StepKeepsTable(before, ev, sessions.bcryptCompare);
    }

    /** `payload` is the user the refresh token names, if its signature holds. */
    method Refresh(refreshToken: Text, payload: Option<Id>, from: Origin, check: Time, at: Time, made: Made)
      returns (result: LoginResult, ghost ev: Event)
      requires ValidTable(users.rows) && check <= at && made.sid !in sessions.rows
      modifies sessions, auditLog
      ensures Enabled(old(Here()), ev, sessions.bcryptCompare) && Timely(ev) && Start(ev) >= check && ev.at <= at
      ensures Here() == Apply(old(Here()), ev)
      ensures result.TokenPair? <==> ev.Refreshed?
      ensures ev.Refreshed? ==>
              result == TokenPair(ev.user, made.accessJwt, made.refreshJwt) && payload == Some(ev.user)
      ensures ev.Refreshed? ==>
              ev == Refreshed(ev.user, from, refreshToken, check, at, ev.revoked, made.sid, made.token, made.hash)
      ensures !ev.Refreshed? ==> ev == NoEffect(check) && result == Unauthorized
      ensures ev.Refreshed? <==>
              payload.Some? && payload.value in users.rows && users.rows[payload.value].isActive
              && S.Validates(old(sessions.rows), sessions.bcryptCompare, payload.value, refreshToken, check)
    {
      ev := NoEffect(check);
      if payload.None? { return Unauthorized, ev; }
      var isValid := sessions.ValidateRefreshToken(payload.value, refreshToken, check);
      if !isValid { return Unauthorized, ev; }
      var user := users.FindById(payload.value);
      if user.None? || !user.value.isActive { return Unauthorized, ev; }
      ghost var op := sessions.RevokeSession(user.value.id, refreshToken);
      var _ := sessions.CreateRefreshToken(user.value.id, from.device, from.ip, at, made.sid, made.token, made.hash);
      auditLog.Log(TOKEN_REFRESH, Some(user.value.id), from, true);
      ev := Refreshed(user.value.id, from, refreshToken, check, at, op.revoked, made.sid, made.token, made.hash);
      assert op == S.Revoke(user.value.id, refreshToken, op.revoked);
      ghost var create := S.Create(made.sid, user.value.id, made.token, made.hash, from.device, from.ip, at);
      ApplyTwo(old(sessions.rows), op, create);
      return TokenPair(user.value.id, made.accessJwt, made.refreshJwt), ev;
    }

    method Logout(refreshToken: Text, userId: Id, from: Origin, at: Time) returns (ghost ev: Event)
      modifies sessions, auditLog
      ensures ev.LoggedOut? && ev == LoggedOut(userId, from, refreshToken, at, ev.revoked)
      ensures OneFewer(old(sessions.rows), sessions.rows, sessions.bcryptCompare, userId, refreshToken)
      ensures Enabled(old(Here()), ev, sessions.bcryptCompare)
      ensures Here() == Apply(old(Here()), ev)
    {
      ghost var op := sessions.RevokeSession(userId, refreshToken);
      auditLog.Log(LOGOUT, Some(userId), from, true);
      ev := LoggedOut(userId, from, refreshToken, at, op.revoked);
      assert op == S.Revoke(userId, refreshToken, op.revoked);
      assert SessionOps(ev) == [op];
      ApplyOne(old(sessions.rows), op);
      S.RevokeTakesOne(old(sessions.rows), sessions.bcryptCompare, userId, refreshToken, op.revoked);
    }
  }

  /** What one handler does to one row of a valid table. */
  lemma OneRow(rows: Table, ev: Event, compare: S.Compare)
    requires ValidTable(rows) && Enabled(OnUsers(rows), ev, compare)
    requires SessionOps(ev) == [] && AuditOf(ev) == [] && HasUser(ev) && !ev.UserCreated? && ev.user in rows
    ensures Apply(OnUsers(rows), ev) == OnUsers(rows[ev.user := Changed(rows[ev.user], ev)])
    ensures ValidTable(rows[ev.user := Changed(rows[ev.user], ev)])
  {
    OneRowEvent(rows, ev);
    StepKeepsTable(OnUsers(rows), ev, compare);
  }

  /** An answer to a challenge; checking it can also throw, before anything is changed. */
  datatype Answer = Right | Wrong | Throws

  datatype MfaResult = Refused | Issued(user: Id) | ServerError

  /** No row has the token, or one that has it is expired or locked. */
  predicate NotOpen(rows: Table, tempToken: Text, check: Time, lockCheck: Time) {
    (forall id | id in rows :: rows[id].mfaTempToken != Some(tempToken))
    || exists id | id in rows :: rows[id].mfaTempToken == Some(tempToken)
         && (TokenExpired(rows[id], check) || Locked(MfaLock(rows[id]), lockCheck))
  }

  /** A verify request as it reaches the rows: the endpoint, the token presented and the
      readings of the clock. */
  datatype Request = Request(endpoint: Endpoint, token: Text, check: Time, lockCheck: Time, at: Time) {
    predicate Timely() { check <= lockCheck <= at }
  }

  function WrongEvent(q: Request, user: Id): Event {
    MfaWrong(user, q.endpoint, q.token, q.check, q.lockCheck, q.at)
  }

  function DoneEvent(q: Request, user: Id, codesLeft: Option<Text>): Event {
    MfaDone(user, q.endpoint, q.token, q.check, q.lockCheck, q.at, codesLeft)
  }

  /** What a verify endpoint does, given how it judges the answer against a row: a pair is
      issued for a right answer only, a wrong one let through is always counted, and nothing
      happens only when the token is not open or the judging throws. */
  ghost predicate Settled(rows: Table, q: Request, judge: User -> Answer, codesLeft: User -> Option<Text>,
                    result: MfaResult, ev: Event)
  {
    match result
    case Issued(user) =>
      && MfaOpen(OnUsers(rows), user, q.token, q.check, q.lockCheck)
      && judge(rows[user]) == Right && ev == DoneEvent(q, user, codesLeft(rows[user]))
    case Refused =>
      if ev.MfaWrong? then
        && MfaOpen(OnUsers(rows), ev.user, q.token, q.check, q.lockCheck)
        && judge(rows[ev.user]) == Wrong && ev == WrongEvent(q, ev.user)
      else ev == NoEffect(q.at) && NotOpen(rows, q.token, q.check, q.lockCheck)
    case ServerError =>
      ev == NoEffect(q.at)
      && exists id :: MfaOpen(OnUsers(rows), id, q.token, q.check, q.lockCheck) && judge(rows[id]) == Throws
  }

  /** For an open token, a pair is issued if and only if biometrics are on for its row and the
      device is the one in it; otherwise the failure is counted. */
  ghost predicate DeviceDecided(rows: Table, token: Text, device: Text, check: Time, lockCheck: Time,
                                result: MfaResult, ev: Event)
  {
    && (result.Issued? ==> result.user in rows && rows[result.user].mfaTempToken == Some(token)
                           && rows[result.user].biometricEnabled && rows[result.user].deviceBiometricId == Some(device))
    && (ev.MfaWrong? ==> ev.user in rows && rows[ev.user].mfaTempToken == Some(token)
                         && !(rows[ev.user].biometricEnabled && rows[ev.user].deviceBiometricId == Some(device)))
    && (!result.Issued? && !ev.MfaWrong? ==> NotOpen(rows, token, check, lockCheck))
  }

  /** For an open token, a pair is issued if and only if the code is right for the secret in its
      row; a wrong one is counted, and only what throws goes uncounted. */
  predicate TotpDecided(rows: Table, checkTotp: (Option<Text>, Text, Time) -> Answer, token: Text, code: Text,
                        check: Time, lockCheck: Time, result: MfaResult, ev: Event)
  {
    && (result.Issued? ==> result.user in rows && rows[result.user].mfaTempToken == Some(token)
                           && checkTotp(rows[result.user].mfaSecret, code, lockCheck) == Right)
    && (ev.MfaWrong? ==> ev.user in rows && rows[ev.user].mfaTempToken == Some(token)
                         && checkTotp(rows[ev.user].mfaSecret, code, lockCheck) == Wrong)
    && (result.ServerError? ==> exists id | id in rows ::
          rows[id].mfaTempToken == Some(token) && checkTotp(rows[id].mfaSecret, code, lockCheck) == Throws)
    && (result.Refused? && !ev.MfaWrong? ==> NotOpen(rows, token, check, lockCheck))
  }

  /** How a stored column of backup codes judges a code. */
  function JudgeCode(u: User, code: Text, now: Text): Answer {
    match B.Validate(u.mfaBackupCodes.GetOr(T("null")), code, now)
    case Throws => Throws
    case Validation(valid, _) => if valid then Right else Wrong
  }

  lemma EncryptedRefuses(rows: Table, id: Id, code: Text, now: Text)
    requires id in rows
    ensures CodesEncrypted(OnUsers(rows)) ==> JudgeCode(rows[id], code, now) != Right
  {
    if CodesEncrypted(OnUsers(rows)) {
      assert ColumnEncrypted(OnUsers(rows).users[id]);
      EncryptedAcceptsNothing(rows[id].mfaBackupCodes);
    }
  }

  /** The codes left after an accepted one, as text. */
  function CodesLeft(u: User, code: Text, now: Text): Text {
    match B.Validate(u.mfaBackupCodes.GetOr(T("null")), code, now)
    case Throws => []
    case Validation(_, remaining) => B.Stringify(remaining)
  }

  /** How the three endpoints judge a row, and the codes they leave in it. */
  function TotpJudge(checkTotp: (Option<Text>, Text, Time) -> Answer, code: Text, at: Time): User -> Answer {
    (u: User) => checkTotp(u.mfaSecret, code, at)
  }

  function BackupJudge(code: Text, now: Text): User -> Answer { (u: User) => JudgeCode(u, code, now) }

  function BiometricJudge(device: Text): User -> Answer {
    (u: User) => if BiometricMatches(u, device) then Right else Wrong
  }

  function NoCodes(): User -> Option<Text> { (u: User) => None }

  function BackupLeft(encrypt: Text -> Text, code: Text, now: Text): User -> Option<Text> {
    (u: User) => Some(encrypt(CodesLeft(u, code, now)))
  }

  lemma ColumnJudged(u: User, stored: Text, encrypt: Text -> Text, code: Text, now: Text)
    requires u.mfaBackupCodes == Some(stored)
    ensures var r := B.Validate(stored, code, now);
            r.Validation? ==>
              && BackupJudge(code, now)(u) == (if r.valid then Right else Wrong)
              && BackupLeft(encrypt, code, now)(u) == Some(encrypt(B.Stringify(r.remainingCodes)))
  {
    var r := B.Validate(stored, code, now);
    assert u.mfaBackupCodes.GetOr(T("null")) == stored;
    assert r.Validation? ==> CodesLeft(u, code, now) == B.Stringify(r.remainingCodes);
    assert BackupLeft(encrypt, code, now)(u) == Some(encrypt(CodesLeft(u, code, now)));
  }

  /** A column that holds a list of codes as it is lets exactly the unused ones through, and what
      is left has the first of them marked as used. */
  lemma ListDecides(u: User, codes: seq<B.BackupCode>, encrypt: Text -> Text, code: Text, now: Text)
    requires u.mfaBackupCodes == Some(B.Stringify(codes))
    ensures BackupJudge(code, now)(u) == if code in B.Unused(codes) then Right else Wrong
    ensures code in B.Unused(codes) ==> LeavesSpent(u, codes, encrypt, code, now)
  {
    B.AttemptSpendsOne(codes, code, now);
    var r := B.Validate(B.Stringify(codes), code, now);
    ColumnJudged(u, B.Stringify(codes), encrypt, code, now);
    if r.valid { assert B.SpentFirst(codes, code, now, r.remainingCodes); }
  }

  /** What is stored is the list with the code spent. */
  ghost predicate LeavesSpent(u: User, codes: seq<B.BackupCode>, encrypt: Text -> Text, code: Text, now: Text) {
    exists left :: B.SpentFirst(codes, code, now, left)
                   && BackupLeft(encrypt, code, now)(u) == Some(encrypt(B.Stringify(left)))
  }

  /** How a request to turn MFA on or off ends; `Failed` where it throws. */
  datatype SettingResult = Done | PasswordWrong | CodeWrong | Failed

  /** Turning MFA off: password first, then code. */
  predicate DisableSettled(rows: Table, valid: (Text, Text) -> bool, judge: User -> Answer, user: Id, password: Text,
                           at: Time, result: SettingResult, ev: Event)
  {
    if user !in rows then result == Failed && ev == NoEffect(at)
    else if !valid(password, rows[user].passwordHash) then
      result == PasswordWrong && ev == UncountedWrong(user, DisablePassword, at)
    else
      match judge(rows[user])
      case Right => result == Done && ev == MfaDisabled(user, at)
      case Wrong => result == CodeWrong && ev == UncountedWrong(user, DisableCode, at)
      case Throws => result == Failed && ev == NoEffect(at)
  }

  /** Turning MFA on: a right code stores these codes. */
  predicate SetupSettled(rows: Table, judge: User -> Answer, codes: Text, user: Id, at: Time,
                         result: SettingResult, ev: Event)
  {
    if user !in rows then result == Failed && ev == NoEffect(at)
    else
      match judge(rows[user])
      case Right => result == Done && ev == SetupVerified(user, codes, at)
      case Wrong => result == CodeWrong && ev == UncountedWrong(user, SetupCode, at)
      case Throws => result == Failed && ev == NoEffect(at)
  }

  class MfaController {
    const users: UsersService
    const backupCodes: B.BackupCodesService
    /** TOTP verification of a code against the stored secret. */
    const checkTotp: (Option<Text>, Text, Time) -> Answer
    const encrypt: Text -> Text
    const compare: S.Compare

    constructor (users: UsersService, backupCodes: B.BackupCodesService,
                 checkTotp: (Option<Text>, Text, Time) -> Answer, encrypt: Text -> Text, compare: S.Compare)
      ensures this.users == users && this.backupCodes == backupCodes
      ensures this.checkTotp == checkTotp && this.encrypt == encrypt && this.compare == compare
    {
      this.users := users;
      this.backupCodes := backupCodes;
      this.checkTotp := checkTotp;
      this.encrypt := encrypt;
      this.compare := compare;
    }

    /** What the three verify handlers share: finding the row by its token, and the checks of
        expiry and lock. */
    method Open(tempToken: Text, check: Time, lockCheck: Time) returns (user: Option<User>)
      requires ValidTable(users.rows)
      ensures user.Some? ==> MfaOpen(OnUsers(users.rows), user.value.id, tempToken, check, lockCheck)
                             && users.rows[user.value.id] == user.value
      ensures user.None? ==> NotOpen(users.rows, tempToken, check, lockCheck)
    {
      user := users.FindByMfaTempToken(tempToken);
      if user.None? { return; }
      assert user.value.id in users.rows && users.rows[user.value.id] == user.value;
      if TokenExpired(user.value, check) { return None; }
      var locked := users.IsMfaLocked(user.value.id, lockCheck);
      if locked { return None; }
    }

    /** A wrong answer, at whichever endpoint. */
    method Reject(user: User, q: Request) returns (ghost ev: Event)
      requires ValidTable(users.rows) && q.Timely() && Judged(user, q.endpoint, false)
      requires MfaOpen(OnUsers(users.rows), user.id, q.token, q.check, q.lockCheck) && users.rows[user.id] == user
      modifies users
      ensures ev == WrongEvent(q, user.id)
      ensures OnUsers(users.rows) == Apply(OnUsers(old(users.rows)), ev) && ValidTable(users.rows)
    {
      users.IncrementMfaFailedAttempts(user.id, q.at);
      ev := WrongEvent(q, user.id);
      OneRow(old(users.rows), ev, compare);
    }

    /** A right answer: the counter is set back, the codes left are stored, the token is gone. */
    method Accept(user: User, q: Request, codesLeft: Option<Text>) returns (ghost ev: Event)
      requires ValidTable(users.rows) && q.Timely() && Judged(user, q.endpoint, true)
      requires MfaOpen(OnUsers(users.rows), user.id, q.token, q.check, q.lockCheck) && users.rows[user.id] == user
      modifies users
      ensures ev == DoneEvent(q, user.id, codesLeft)
      ensures OnUsers(users.rows) == Apply(OnUsers(old(users.rows)), ev) && ValidTable(users.rows)
    {
      users.ResetMfaFailedAttempts(user.id);
      if codesLeft.Some? {
        users.UpdateBackupCodes(user.id, codesLeft.value);
      }
      users.ClearMfaTempToken(user.id, q.at);
      ev := DoneEvent(q, user.id, codesLeft);
      OneRow(old(users.rows), ev, compare);
    }

    method Verify(tempToken: Text, code: Text, check: Time, lockCheck: Time, at: Time)
      returns (result: MfaResult, ghost ev: Event)
      requires ValidTable(users.rows) && check <= lockCheck <= at
      modifies users
      ensures OnUsers(users.rows) == Apply(OnUsers(old(users.rows)), ev) && ValidTable(users.rows)
      ensures Settled(old(users.rows), Request(TotpCode, tempToken, check, lockCheck, at),
                      TotpJudge(checkTotp, code, lockCheck), NoCodes(), result, ev)
      ensures TotpDecided(old(users.rows), checkTotp, tempToken, code, check, lockCheck, result, ev)
    {
      ev := NoEffect(at);
      var q := Request(TotpCode, tempToken, check, lockCheck, at);
      var user := Open(tempToken, check, lockCheck);
      if user.None? { return Refused, ev; }
      match checkTotp(user.value.mfaSecret, code, lockCheck) {
        case Throws => return ServerError, ev;
        case Wrong =>
          ev := Reject(user.value, q);
          return Refused, ev;
        case Right =>
          ev := Accept(user.value, q, None);
          return Issued(user.value.id), ev;
      }
    }

    /** The stored column goes to the parser as it is; a null column parses as `null`. So while
        every column holds encrypted codes or none, no pair is issued here. */
    method VerifyBackup(tempToken: Text, backupCode: Text, check: Time, lockCheck: Time, at: Time, now: Text)
      returns (result: MfaResult, ghost ev: Event)
      requires ValidTable(users.rows) && check <= lockCheck <= at
      modifies users
      ensures OnUsers(users.rows) == Apply(OnUsers(old(users.rows)), ev) && ValidTable(users.rows)
      ensures Settled(old(users.rows), Request(BackupCode, tempToken, check, lockCheck, at),
                      BackupJudge(backupCodes.upper(backupCode), now),
                      BackupLeft(encrypt, backupCodes.upper(backupCode), now), result, ev)
      ensures CodesEncrypted(OnUsers(old(users.rows))) ==> !result.Issued?
    {
      ev := NoEffect(at);
      var q := Request(BackupCode, tempToken, check, lockCheck, at);
      var user := Open(tempToken, check, lockCheck);
      if user.None? { return Refused, ev; }
      var validation, left := CheckBackup(user.value, backupCode, now);
      EncryptedRefuses(users.rows, user.value.id, backupCodes.upper(backupCode), now);
      match validation {
        case Throws => return ServerError, ev;
        case Wrong =>
          ev := Reject(user.value, q);
          return Refused, ev;
        case Right =>
          ev := Accept(user.value, q, Some(encrypt(left)));
          return Issued(user.value.id), ev;
      }
    }

    /** The service's answer on a row's column, and the codes left as text. */
    method CheckBackup(user: User, backupCode: Text, now: Text) returns (validation: Answer, left: Text)
      ensures validation == JudgeCode(user, backupCodes.upper(backupCode), now)
      ensures left == CodesLeft(user, backupCodes.upper(backupCode), now)
    {
      var column := user.mfaBackupCodes.GetOr(T("null"));
      var r := backupCodes.ValidateBackupCode(column, backupCode, now);
      match r
      case Throws => return Throws, [];
      case Validation(valid, remaining) => return if valid then Right else Wrong, B.Stringify(remaining);
    }

    method VerifyBiometric(tempToken: Text, device: Text, check: Time, lockCheck: Time, at: Time)
      returns (result: MfaResult, ghost ev: Event)
      requires ValidTable(users.rows) && check <= lockCheck <= at
      modifies users
      ensures OnUsers(users.rows) == Apply(OnUsers(old(users.rows)), ev) && ValidTable(users.rows)
      ensures Settled(old(users.rows), Request(BiometricDevice(device), tempToken, check, lockCheck, at),
                      BiometricJudge(device), NoCodes(), result, ev)
      ensures DeviceDecided(old(users.rows), tempToken, device, check, lockCheck, result, ev)
    {
      ev := NoEffect(at);
      var q := Request(BiometricDevice(device), tempToken, check, lockCheck, at);
      var user := Open(tempToken, check, lockCheck);
      if user.None? { return Refused, ev; }
      var isValid := users.ValidateBiometric(user.value.id, device);
      if !isValid {
        ev := Reject(user.value, q);
        return Refused, ev;
      }
      ev := Accept(user.value, q, None);
      return Issued(user.value.id), ev;
    }

    /** Needs the password and a code. Neither a wrong password nor a wrong code is counted. */
    method Disable(userId: Id, password: Text, code: Text, at: Time) returns (result: SettingResult, ghost ev: Event)
      requires ValidTable(users.rows)
      modifies users
      ensures OnUsers(users.rows) == Apply(OnUsers(old(users.rows)), ev) && ValidTable(users.rows)
      ensures DisableSettled(old(users.rows), users.bcryptCompare, TotpJudge(checkTotp, code, at),
                             userId, password, at, result, ev)
      ensures (result == Done) == (userId in old(users.rows)
                && users.bcryptCompare(password, old(users.rows)[userId].passwordHash)
                && checkTotp(old(users.rows)[userId].mfaSecret, code, at) == Right)
      ensures result == Done ==> !users.rows[userId].mfaEnabled && users.rows[userId].mfaSecret.None?
      ensures result != Done ==> users.rows == old(users.rows)
    {
      ev := NoEffect(at);
      var user := users.FindById(userId);
      if user.None? { return Failed, ev; }
      var isPasswordValid := users.ValidatePassword(user.value, password);
      if !isPasswordValid {
        ev := UncountedWrong(userId, DisablePassword, at);
        UncountedChangesNothing(OnUsers(users.rows), ev);
        return PasswordWrong, ev;
      }
      match checkTotp(user.value.mfaSecret, code, at) {
        case Throws => return Failed, ev;
        case Wrong =>
          ev := UncountedWrong(userId, DisableCode, at);
          UncountedChangesNothing(OnUsers(users.rows), ev);
          return CodeWrong, ev;
        case Right =>
          users.DisableMfa(userId);
          ev := MfaDisabled(userId, at);
          OneRow(old(users.rows), ev, compare);
          return Done, ev;
      }
    }

    /** Stores a new secret; a user that does not exist makes it throw. */
    method Setup(userId: Id, secret: Text, at: Time) returns (success: bool, ghost ev: Event)
      requires ValidTable(users.rows)
      modifies users
      ensures Enabled(OnUsers(old(users.rows)), ev, compare) && ev.at == at
      ensures OnUsers(users.rows) == Apply(OnUsers(old(users.rows)), ev) && ValidTable(users.rows)
      ensures ev == if success then SetupStarted(userId, encrypt(secret), at) else NoEffect(at)
      ensures success <==> userId in old(users.rows)
    {
      ev := NoEffect(at);
      var user := users.FindById(userId);
      success := user.Some?;
      if success {
        users.SetMfaSecret(userId, encrypt(secret));
        ev := SetupStarted(userId, encrypt(secret), at);
        OneRow(old(users.rows), ev, compare);
      }
    }

    /** Turns MFA on after a right code; `codes` are the generated backup codes. A wrong code is
        not counted. */
    method VerifySetup(userId: Id, code: Text, codes: seq<Text>, at: Time)
      returns (result: SettingResult, ghost ev: Event)
      requires ValidTable(users.rows)
      modifies users
      ensures OnUsers(users.rows) == Apply(OnUsers(old(users.rows)), ev) && ValidTable(users.rows)
      ensures SetupSettled(old(users.rows), TotpJudge(checkTotp, code, at),
                           encrypt(B.Stringify(B.Issue(codes))), userId, at, result, ev)
      ensures (result == Done) == (userId in old(users.rows)
                && checkTotp(old(users.rows)[userId].mfaSecret, code, at) == Right)
      ensures result == Done ==> users.rows[userId].mfaEnabled
      ensures result != Done ==> users.rows == old(users.rows)
    {
      ev := NoEffect(at);
      var user := users.FindById(userId);
      if user.None? { return Failed, ev; }
      match checkTotp(user.value.mfaSecret, code, at) {
        case Throws => return Failed, ev;
        case Wrong =>
          ev := UncountedWrong(userId, SetupCode, at);
          UncountedChangesNothing(OnUsers(users.rows), ev);
          return CodeWrong, ev;
        case Right =>
          var stored := encrypt(B.Stringify(B.Issue(codes)));
          users.EnableMfa(userId, stored);
          ev := SetupVerified(userId, stored, at);
          OneRow(old(users.rows), ev, compare);
          return Done, ev;
      }
    }

    /** Answers success whether or not there is such a user. */
    method DisableBiometric(userId: Id, at: Time) returns (ghost ev: Event)
      requires ValidTable(users.rows)
      modifies users
      ensures Enabled(OnUsers(old(users.rows)), ev, compare)
      ensures OnUsers(users.rows) == Apply(OnUsers(old(users.rows)), ev) && ValidTable(users.rows)
      ensures ev == if userId in old(users.rows) then BiometricDisabled(userId, at) else NoEffect(at)
    {
      ev := if userId in users.rows then BiometricDisabled(userId, at) else NoEffect(at);
      users.DisableBiometric(userId);
      if userId in old(users.rows) { OneRow(old(users.rows), ev, compare); }
    }

    /** The body has no validated form, so the device can be missing or null. */
    method EnableBiometric(userId: Id, device: BodyField, at: Time) returns (success: bool, ghost ev: Event)
      requires ValidTable(users.rows)
      modifies users
      ensures Enabled(OnUsers(old(users.rows)), ev, compare) && ev.at == at
      ensures OnUsers(users.rows) == Apply(OnUsers(old(users.rows)), ev) && ValidTable(users.rows)
      ensures ev == if success then BiometricEnabled(userId, device, at) else NoEffect(at)
      ensures success <==> userId in old(users.rows) && old(users.rows)[userId].mfaEnabled
    {
      ev := NoEffect(at);
      var user := users.FindById(userId);
      success := user.Some? && user.value.mfaEnabled;
      if success {
        users.EnableBiometric(userId, device);
        ev := BiometricEnabled(userId, device, at);
        OneRow(old(users.rows), ev, compare);
      }
    }
  }

  class AdminController {
    const users: UsersService
    const compare: S.Compare

    constructor (users: UsersService, compare: S.Compare)
      ensures this.users == users && this.compare == compare
    {
      this.users := users;
      this.compare := compare;
    }

    method UnlockUser(email: Text, at: Time) returns (success: bool, ghost ev: Event)
      requires ValidTable(users.rows)
      modifies users
      ensures Enabled(OnUsers(old(users.rows)), ev, compare) && ev.at == at
      ensures OnUsers(users.rows) == Apply(OnUsers(old(users.rows)), ev) && ValidTable(users.rows)
      ensures success <==> exists id | id in old(users.rows) :: old(users.rows)[id].email == email
      ensures if success then ev.UnlockedByAdmin? && old(users.rows)[ev.user].email == email else ev.NoEffect?
    {
      var user := users.FindByEmail(email);
      if user.None? { return false, NoEffect(at); }
      assert user.value.id in users.rows && users.rows[user.value.id] == user.value;
      users.Update(user.value.id, (u: User) => u.(
        failedAttempts := 0, lockedUntil := None, mfaFailedAttempts := 0, mfaLockedUntil := None));
      ev := UnlockedByAdmin(user.value.id, at);
      OneRow(old(users.rows), ev, compare);
      success := true;
    }

    method ResetUser(email: Text, at: Time) returns (success: bool, ghost ev: Event)
      requires ValidTable(users.rows)
      modifies users
      ensures Enabled(OnUsers(old(users.rows)), ev, compare) && ev.at == at
      ensures OnUsers(users.rows) == Apply(OnUsers(old(users.rows)), ev) && ValidTable(users.rows)
      ensures success <==> exists id | id in old(users.rows) :: old(users.rows)[id].email == email
      ensures if success then ev.ResetByAdmin? && old(users.rows)[ev.user].email == email else ev.NoEffect?
    {
      var user := users.FindByEmail(email);
      if user.None? { return false, NoEffect(at); }
      assert user.value.id in users.rows && users.rows[user.value.id] == user.value;
      users.Update(user.value.id, (u: User) => u.(
        failedAttempts := 0, lockedUntil := None, mfaEnabled := false, mfaSecret := None, mfaBackupCodes := None,
        mfaTempToken := None, mfaTempTokenExpires := None, mfaLastVerified := None,
        mfaFailedAttempts := 0, mfaLockedUntil := None));
      ev := ResetByAdmin(user.value.id, at);
      OneRow(old(users.rows), ev, compare);
      success := true;
    }
  }
}
