/** The whole service: the handlers over one set of tables, with every request recorded as
    the event it was. The record is a legal run of events that leads to the tables as they
    are, after any requests in any order; so whatever is proved of runs holds of the service. */
module Server {
  import opened JsText
  import opened Option
  import opened Users
  import opened AuthEvents
  import opened BackupLogins
  import opened AuthServices
  import S = Sessions
  import B = BackupCodes

  class Server {
    const users: UsersService
    const sessions: S.SessionsService
    const auditLog: AuditLogService
    const auth: AuthService
    const mfa: MfaController
    const admin: AdminController
    const zero: Time
    /** The requests so far. */
    ghost var evs: seq<Event>

    function Here(): World
      reads users, sessions, auditLog
    {
      World(users.rows, sessions.rows, auditLog.rows)
    }

    ghost function Clock(): Time
      reads this
    {
      ClockAfter(evs, zero)
    }

    ghost predicate Wired() {
      && auth.users == users && auth.sessions == sessions && auth.auditLog == auditLog
      && mfa.users == users && mfa.compare == sessions.bcryptCompare
      && admin.users == users && admin.compare == sessions.bcryptCompare
      && forall x :: IsBase64(mfa.encrypt(x))
    }

    /** The record is a legal run from empty tables to the tables as they are. */
    ghost predicate Replayed()
      reads this, users, sessions, auditLog
    {
      Legal(EMPTY, evs, sessions.bcryptCompare, zero) && Here() == After(EMPTY, evs)
    }

    ghost predicate Valid()
      reads this, users, sessions, auditLog
    {
      Wired() && ValidTable(users.rows) && Replayed() && AsHandled(EMPTY, evs)
    }

    constructor (bcryptCompare: S.Compare, upper: Text -> Text,
                 checkTotp: (Option<Text>, Text, Time) -> Answer, encrypt: Text -> Text, zero: Time)
      requires forall x :: IsBase64(encrypt(x))
      ensures Valid() && evs == [] && this.zero == zero && fresh(users) && fresh(sessions) && fresh(auditLog)
      ensures sessions.bcryptCompare == users.bcryptCompare == bcryptCompare
      ensures mfa.checkTotp == checkTotp && mfa.encrypt == encrypt && mfa.backupCodes.upper == upper
    {
      var u := new UsersService(map[], bcryptCompare);
      var s := new S.SessionsService(map[], bcryptCompare);
      var a := new AuditLogService();
      var b := new B.BackupCodesService(upper);
      users, sessions, auditLog := u, s, a;
      auth := new AuthService(u, s, a);
      mfa := new MfaController(u, b, checkTotp, encrypt, bcryptCompare);
      admin := new AdminController(u, bcryptCompare);
      this.zero := zero;
      evs := [];
    }

    /** One more event that leads from the recorded run to the tables as they are. */
    lemma Recorded(before: seq<Event>, ev: Event)
      requires Wired() && ValidTable(users.rows)
      requires Legal(EMPTY, before, sessions.bcryptCompare, zero) && AsHandled(EMPTY, before)
      requires CanFollow(After(EMPTY, before), ev, sessions.bcryptCompare, ClockAfter(before, zero))
      requires HandledAs(After(EMPTY, before), ev)
      requires Here() == Apply(After(EMPTY, before), ev) && evs == before + [ev]
      ensures Valid() && Clock() == ev.at
    {
      LegalSnoc(EMPTY, before, ev, sessions.bcryptCompare, zero);
      HandledSnoc(EMPTY, before, ev);
    }

    /** So far no column holds codes that are not encrypted. */
    lemma EncryptedSoFar()
      requires Valid()
      ensures CodesEncrypted(OnUsers(users.rows))
    {
      BackupLoginNeverSucceeds(EMPTY, evs);
      assert forall id | id in users.rows :: ColumnEncrypted(Here().users[id]);
    }

    // -------------------------------------------------------------- logins and sessions

    method Login(email: Text, password: Text, from: Origin, check: Time, at: Time, made: Made)
      returns (result: LoginResult, ghost ev: Event)
      requires Valid() && Clock() <= check <= at && made.sid !in sessions.rows
      modifies this, users, sessions, auditLog
      ensures Valid() && evs == old(evs) + [ev] && check <= Clock() <= at
      ensures Enabled(old(Here()), ev, sessions.bcryptCompare) && Here() == Apply(old(Here()), ev)
      ensures LoginSettled(old(users.rows), users.bcryptCompare, email, password, from, check, at, made, result, ev)
      ensures result.Forbidden? <==> exists id | id in old(users.rows) :: IsLocked(old(users.rows)[id], email, check)
    {
      result, ev := auth.Login(email, password, from, check, at, made);
      evs := evs + [ev];
      Recorded(old(evs), ev);
    }

    method Refresh(refreshToken: Text, payload: Option<Id>, from: Origin, check: Time, at: Time, made: Made)
      returns (result: LoginResult, ghost ev: Event)
      requires Valid() && Clock() <= check <= at && made.sid !in sessions.rows
      modifies this, sessions, auditLog
      ensures Valid() && evs == old(evs) + [ev] && check <= Clock() <= at
      ensures result.TokenPair? <==>
              payload.Some? && payload.value in users.rows && users.rows[payload.value].isActive
              && S.Validates(old(sessions.rows), sessions.bcryptCompare, payload.value, refreshToken, check)
      ensures if result.TokenPair? then ev.Refreshed? && ev.user == payload.value && ev.presented == refreshToken
              else result == Unauthorized && ev == NoEffect(check)
    {
      result, ev := auth.Refresh(refreshToken, payload, from, check, at, made);
      evs := evs + [ev];
      Recorded(old(evs), ev);
    }

    method Logout(refreshToken: Text, userId: Id, from: Origin, at: Time) returns (ghost ev: Event)
      requires Valid() && Clock() <= at
      modifies this, sessions, auditLog
      ensures Valid() && evs == old(evs) + [ev] && Clock() == at
      ensures ev.LoggedOut? && ev == LoggedOut(userId, from, refreshToken, at, ev.revoked)
      ensures OneFewer(old(sessions.rows), sessions.rows, sessions.bcryptCompare, userId, refreshToken)
    {
      ev := auth.Logout(refreshToken, userId, from, at);
      evs := evs + [ev];
      Recorded(old(evs), ev);
    }

    method RevokeAllUserSessions(user: Id, at: Time)
      requires Valid() && Clock() <= at
      modifies this, sessions
      ensures Valid() && evs == old(evs) + [SessionsRevoked(user, at)] && Clock() == at
    {
      sessions.RevokeAllUserSessions(user);
      ghost var ev := SessionsRevoked(user, at);
      ApplyOne(old(sessions.rows), S.RevokeAll(user));
      evs := evs + [ev];
      Recorded(old(evs), ev);
    }

    method CleanupExpiredSessions(at: Time)
      requires Valid() && Clock() <= at
      modifies this, sessions
      ensures Valid() && evs == old(evs) + [SessionsCleaned(at)] && Clock() == at
    {
      sessions.CleanupExpiredSessions(at);
      ghost var ev := SessionsCleaned(at);
      ApplyOne(old(sessions.rows), S.Cleanup(at));
      evs := evs + [ev];
      Recorded(old(evs), ev);
    }

    method CreateUser(id: Id, email: Text, passwordHash: Text, at: Time) returns (ok: bool)
      requires Valid() && Clock() <= at && id !in users.rows
      modifies this, users
      ensures Valid() && Clock() == at
      ensures evs == old(evs) + [if ok then UserCreated(id, email, passwordHash, at) else NoEffect(at)]
      ensures ok <==> forall i | i in old(users.rows) :: old(users.rows)[i].email != email
    {
      ok := users.Create(id, email, passwordHash);
      ghost var ev := if ok then UserCreated(id, email, passwordHash, at) else NoEffect(at);
      evs := evs + [ev];
      Recorded(old(evs), ev);
    }

    // ------------------------------------------------------------------ verify endpoints

    /** An event of the users table alone, recorded. */
    lemma RecordedOnUsers(before: seq<Event>, rows: Table, ev: Event)
      requires Wired() && ValidTable(users.rows) && OnUsers(users.rows) == Apply(OnUsers(rows), ev)
      requires Legal(EMPTY, before, sessions.bcryptCompare, zero) && AsHandled(EMPTY, before)
      requires After(EMPTY, before) == World(rows, sessions.rows, auditLog.rows)
      requires CanFollow(OnUsers(rows), ev, sessions.bcryptCompare, ClockAfter(before, zero))
      requires SessionOps(ev) == [] && AuditOf(ev) == [] && evs == before + [ev]
      requires StoresEncrypted(ev) && !IsBackupLogin(ev)
      ensures Valid() && Clock() == ev.at
    {
      UsersOnlyEvent(After(EMPTY, before), ev, sessions.bcryptCompare);
      Recorded(before, ev);
    }

    method Verify(tempToken: Text, code: Text, check: Time, lockCheck: Time, at: Time)
      returns (result: MfaResult, ghost ev: Event)
      requires Valid() && Clock() <= check <= lockCheck <= at
      modifies this, users
      ensures Valid() && evs == old(evs) + [ev] && Clock() == at
      ensures Settled(old(users.rows), Request(TotpCode, tempToken, check, lockCheck, at),
                      TotpJudge(mfa.checkTotp, code, lockCheck), NoCodes(), result, ev)
    {
      result, ev := mfa.Verify(tempToken, code, check, lockCheck, at);
      evs := evs + [ev];
      RecordedOnUsers(old(evs), old(users.rows), ev);
    }

    /** Never issues a pair. */
    method VerifyBackup(tempToken: Text, backupCode: Text, check: Time, lockCheck: Time, at: Time, now: Text)
      returns (result: MfaResult, ghost ev: Event)
      requires Valid() && Clock() <= check <= lockCheck <= at
      modifies this, users
      ensures Valid() && evs == old(evs) + [ev] && Clock() == at
      ensures !result.Issued?
      ensures Settled(old(users.rows), Request(BackupCode, tempToken, check, lockCheck, at),
                      BackupJudge(mfa.backupCodes.upper(backupCode), now),
                      BackupLeft(mfa.encrypt, mfa.backupCodes.upper(backupCode), now), result, ev)
    {
      EncryptedSoFar();
      result, ev := mfa.VerifyBackup(tempToken, backupCode, check, lockCheck, at, now);
      evs := evs + [ev];
      RecordedOnUsers(old(evs), old(users.rows), ev);
    }

    method VerifyBiometric(tempToken: Text, device: Text, check: Time, lockCheck: Time, at: Time)
      returns (result: MfaResult, ghost ev: Event)
      requires Valid() && Clock() <= check <= lockCheck <= at
      modifies this, users
      ensures Valid() && evs == old(evs) + [ev] && Clock() == at
      ensures Settled(old(users.rows), Request(BiometricDevice(device), tempToken, check, lockCheck, at),
                      BiometricJudge(device), NoCodes(), result, ev)
      ensures DeviceDecided(old(users.rows), tempToken, device, check, lockCheck, result, ev)
    {
      result, ev := mfa.VerifyBiometric(tempToken, device, check, lockCheck, at);
      evs := evs + [ev];
      RecordedOnUsers(old(evs), old(users.rows), ev);
    }

    // --------------------------------------------------------------- settings and admin

    method Setup(userId: Id, secret: Text, at: Time) returns (success: bool)
      requires Valid() && Clock() <= at
      modifies this, users
      ensures Valid() && Clock() == at && (success <==> userId in old(users.rows))
      ensures evs == old(evs) + [if success then SetupStarted(userId, mfa.encrypt(secret), at) else NoEffect(at)]
    {
      ghost var ev;
      success, ev := mfa.Setup(userId, secret, at);
      evs := evs + [ev];
      RecordedOnUsers(old(evs), old(users.rows), ev);
    }

    method VerifySetup(userId: Id, code: Text, codes: seq<Text>, at: Time)
      returns (result: SettingResult, ghost ev: Event)
      requires Valid() && Clock() <= at
      modifies this, users
      ensures Valid() && evs == old(evs) + [ev] && Clock() == at
      ensures SetupSettled(old(users.rows), TotpJudge(mfa.checkTotp, code, at),
                           mfa.encrypt(B.Stringify(B.Issue(codes))), userId, at, result, ev)
    {
      result, ev := mfa.VerifySetup(userId, code, codes, at);
      evs := evs + [ev];
      RecordedOnUsers(old(evs), old(users.rows), ev);
    }

    method Disable(userId: Id, password: Text, code: Text, at: Time) returns (result: SettingResult, ghost ev: Event)
      requires Valid() && Clock() <= at
      modifies this, users
      ensures Valid() && evs == old(evs) + [ev] && Clock() == at
      ensures DisableSettled(old(users.rows), users.bcryptCompare, TotpJudge(mfa.checkTotp, code, at),
                             userId, password, at, result, ev)
    {
      result, ev := mfa.Disable(userId, password, code, at);
      evs := evs + [ev];
      RecordedOnUsers(old(evs), old(users.rows), ev);
    }

    method EnableBiometric(userId: Id, device: BodyField, at: Time) returns (success: bool)
      requires Valid() && Clock() <= at
      modifies this, users
      ensures Valid() && Clock() == at
      ensures success <==> userId in old(users.rows) && old(users.rows)[userId].mfaEnabled
      ensures evs == old(evs) + [if success then BiometricEnabled(userId, device, at) else NoEffect(at)]
    {
      ghost var ev;
      success, ev := mfa.EnableBiometric(userId, device, at);
      evs := evs + [ev];
      RecordedOnUsers(old(evs), old(users.rows), ev);
    }

    method DisableBiometric(userId: Id, at: Time)
      requires Valid() && Clock() <= at
      modifies this, users
      ensures Valid() && Clock() == at
      ensures evs == old(evs) + [if userId in old(users.rows) then BiometricDisabled(userId, at) else NoEffect(at)]
    {
      ghost var ev := mfa.DisableBiometric(userId, at);
      evs := evs + [ev];
      RecordedOnUsers(old(evs), old(users.rows), ev);
    }

    method UnlockUser(email: Text, at: Time) returns (success: bool, ghost ev: Event)
      requires Valid() && Clock() <= at
      modifies this, users
      ensures Valid() && evs == old(evs) + [ev] && Clock() == at
      ensures success <==> exists id | id in old(users.rows) :: old(users.rows)[id].email == email
      ensures if success then ev.UnlockedByAdmin? && ev.at == at && old(users.rows)[ev.user].email == email
              else ev == NoEffect(at)
    {
      success, ev := admin.UnlockUser(email, at);
      evs := evs + [ev];
      RecordedOnUsers(old(evs), old(users.rows), ev);
    }

    method ResetUser(email: Text, at: Time) returns (success: bool, ghost ev: Event)
      requires Valid() && Clock() <= at
      modifies this, users
      ensures Valid() && evs == old(evs) + [ev] && Clock() == at
      ensures success <==> exists id | id in old(users.rows) :: old(users.rows)[id].email == email
      ensures if success then ev.ResetByAdmin? && ev.at == at && old(users.rows)[ev.user].email == email
              else ev == NoEffect(at)
    {
      success, ev := admin.ResetUser(email, at);
      evs := evs + [ev];
      RecordedOnUsers(old(evs), old(users.rows), ev);
    }
  }
}
