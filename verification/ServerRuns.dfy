/** What holds of the service after any requests whatever, and the two promises it breaks,
    each at a particular sequence of requests. */
module ServerRuns {
  import opened JsText
  import opened Json
  import opened Option
  import opened Users
  import opened AuthEvents
  import opened AuthServices
  import opened Lockout
  import opened RateBounds
  import opened MfaProvenance
  import opened AuditReplay
  import opened Server
  import S = Sessions
  import B = BackupCodes

  /** In any stretch `b` of requests that does not set the counter back, the wrong answers the
      counter counts stay within the budget of the lock the stretch begins with, and all wrong
      ones within the budget and those that nothing counts. */
  lemma WrongAnswersBounded(s: Server, c: Counter, user: Id, a: seq<Event>, b: seq<Event>)
    requires s.Replayed() && s.evs == a + b && user in After(EMPTY, a).users && NoneClears(c, b, user)
    ensures WithinBudget(c, After(EMPTY, a), b, user, ClockAfter(a, s.zero), s.Clock())
    ensures AllWrong(c, b, user) == WrongAnswers(c, b, user) + UncountedAnswers(c, b, user)
  {
    StretchWithinBudget(c, EMPTY, a, b, s.sessions.bcryptCompare, user, s.zero);
    WrongAnswersSplit(c, b, user);
  }

  /** Every token pair a verify endpoint ever issued has its own pending login. */
  lemma IssuedPairHasLogin(s: Server, j: nat)
    requires s.Replayed() && j < |s.evs| && s.evs[j].MfaDone?
    ensures var i := Pending(s.evs[..j], s.evs[j].user);
            && i.Some? && Begins(s.evs[i.value], s.evs[j].user) && s.evs[i.value].token == s.evs[j].token
            && s.evs[j].check <= s.evs[i.value].at + 5 * MINUTE
            && (forall k | i.value < k < j :: !EndsPending(s.evs[k], s.evs[j].user))
  {
    EveryPairHasItsLogin(EMPTY, s.evs, s.sessions.bcryptCompare, s.zero, j);
  }

  /** The audit log of the service retells its failure counters. */
  lemma CountersAreAudited(s: Server, id: Id)
    requires s.Replayed()
    ensures s.auditLog.rows == RowsIn(Journal(s.evs))
    ensures id in s.users.rows ==> s.users.rows[id].failedAttempts == Replay(Journal(s.evs), id)
  {
    AuditTellsTheCounters(s.evs, s.sessions.bcryptCompare, s.zero, id);
  }

  // ------------------------------------------------- a login whose refresh token is useless

  /** The row with this email is open to a login that needs no MFA. */
  predicate PlainLogin(rows: Table, valid: (Text, Text) -> bool, id: Id, email: Text, password: Text, check: Time) {
    && id in rows && rows[id].email == email && valid(password, rows[id].passwordHash)
    && !rows[id].mfaEnabled && !Locked(LoginLock(rows[id]), check)
  }

  lemma PlainLoginGetsPair(w: World, valid: (Text, Text) -> bool, id: Id, email: Text, password: Text, from: Origin,
                           check: Time, at: Time, made: Made, result: LoginResult, ev: Event, compare: S.Compare)
    requires ValidTable(w.users) && Enabled(w, ev, compare)
    requires LoginSettled(w.users, valid, email, password, from, check, at, made, result, ev)
    requires PlainLogin(w.users, valid, id, email, password, check)
    ensures result.TokenPair? && result.user == id
  {
  }

  /** A login with the right password, followed by a refresh with the token it returned: the
      refresh is refused, unless bcrypt takes that token for a stored one, be it the one
      stored by this login, which is another text. */
  method RefreshAfterLogin(s: Server, id: Id, email: Text, password: Text, from: Origin,
                           check: Time, at: Time, made: Made, later: Made)
    returns (login: LoginResult, answer: LoginResult)
    requires s.Valid() && s.Clock() <= check <= at
    requires PlainLogin(s.users.rows, s.users.bcryptCompare, id, email, password, check)
    requires made.sid !in s.sessions.rows && later.sid !in s.sessions.rows && later.sid != made.sid
    requires !s.sessions.bcryptCompare(made.refreshJwt, made.hash)
    requires forall r | r in s.sessions.rows ::
               !s.sessions.bcryptCompare(made.refreshJwt, s.sessions.rows[r].refreshToken)
    modifies s, s.users, s.sessions, s.auditLog
    ensures login == TokenPair(id, made.accessJwt, made.refreshJwt) && answer == Unauthorized
  {
    ghost var before := s.Here();
    ghost var ev, ev2;
    login, ev := s.Login(email, password, from, check, at, made);
    PlainLoginGetsPair(before, s.users.bcryptCompare, id, email, password, from, check, at, made, login, ev,
      s.sessions.bcryptCompare);
    ApplyOne(before.sessions, S.Create(made.sid, id, made.token, made.hash, from.device, from.ip, at));
    answer, ev2 := s.Refresh(login.refreshToken, Some(id), from, at, at, later);
  }

  /** A service without users, where bcrypt is equality and every code is right. */
  method Fresh() returns (s: Server)
    ensures fresh(s) && fresh(s.users) && fresh(s.sessions) && fresh(s.auditLog)
    ensures s.Valid() && s.evs == [] && s.zero == 0 && s.Here() == EMPTY
    ensures forall a, b :: s.sessions.bcryptCompare(a, b) <==> a == b
    ensures forall a, b :: s.users.bcryptCompare(a, b) <==> a == b
    ensures forall x, y, z :: s.mfa.checkTotp(x, y, z) == Right
    ensures forall x :: s.mfa.backupCodes.upper(x) == x && s.mfa.encrypt(x) == T("QUJD")
  {
    s := new Server((a: Text, b: Text) => a == b, (x: Text) => x,
                    (x: Option<Text>, y: Text, z: Time) => Right, (x: Text) => T("QUJD"), 0);
  }

  /** A user without MFA logs in, and the refresh token that was returned is refused. */
  method ReturnedTokenIsRefused() returns (login: LoginResult, answer: LoginResult)
    ensures login.TokenPair? && answer == Unauthorized
  {
    var s := Fresh();
    var u, email, pw, from := T("u"), T("u@x"), T("pw"), Origin([], []);
    CreateFirst(s, u, email, pw);
    var made := Made(T("temp"), T("s1"), T("t1"), T("t1"), T("access"), T("jwt"));
    var later := Made(T("temp"), T("s2"), T("t2"), T("t2"), T("access"), T("jwt2"));
    assert made.sid[1] != later.sid[1] && |made.refreshJwt| != |made.hash|;
    login, answer := RefreshAfterLogin(s, u, email, pw, from, 2, 2, made, later);
  }

  // -------------------------------------------------- an issued backup code that is refused

  const CODE := T("0A1B2C3D")

  lemma CipherIsNoList(u: User, now: Text)
    requires u.mfaBackupCodes == Some(T("QUJD"))
    ensures JudgeCode(u, CODE, now) == Wrong
  {
    var s := T("QUJD");
    assert s[0] == 81 && SkipBlank(s) == s && NumberRun(s) == 0 && s[..0] == [];
    assert ParseNumber(s) == Fail;
  }

  /** The row of a user who turned MFA on with that code. */
  function Enrolled(u: Id, email: Text, pw: Text): User { WithMfa(NewUser(u, email, pw), T("QUJD")) }

  method Enrol(s: Server, u: Id, email: Text, pw: Text) returns (setUp: bool)
    requires s.Valid() && s.evs == [] && s.zero == 0 && s.Here() == EMPTY
    requires (forall x :: s.mfa.encrypt(x) == T("QUJD")) && forall x, y, z :: s.mfa.checkTotp(x, y, z) == Right
    modifies s, s.users
    ensures setUp && s.Valid() && s.Clock() == 2 && s.users.rows == map[u := Enrolled(u, email, pw)]
  {
    CreateFirst(s, u, email, pw);
    setUp := SetUpFirst(s, u, email, pw);
  }

  method SetUpFirst(s: Server, u: Id, email: Text, pw: Text) returns (setUp: bool)
    requires s.Valid() && s.Clock() == 1 && s.users.rows == map[u := NewUser(u, email, pw)]
    requires (forall x :: s.mfa.encrypt(x) == T("QUJD")) && forall x, y, z :: s.mfa.checkTotp(x, y, z) == Right
    modifies s, s.users
    ensures setUp && s.Valid() && s.Clock() == 2 && s.users.rows == map[u := Enrolled(u, email, pw)]
  {
    ghost var before, evs := s.Here(), s.evs;
    var result, ev := s.VerifySetup(u, T("123456"), [CODE], 2);
    setUp := result == Done;
    assert s.evs == evs + [ev] && (evs + [ev])[..|evs|] == evs;
    AfterLast(EMPTY, s.evs, evs, ev);
    SetUpRow(before, u, email, pw);
  }

  lemma SetUpRow(w: World, u: Id, email: Text, pw: Text)
    requires w.users == map[u := NewUser(u, email, pw)]
    ensures Apply(w, SetupVerified(u, T("QUJD"), 2)).users == map[u := Enrolled(u, email, pw)]
  {
  }

  method CreateFirst(s: Server, u: Id, email: Text, pw: Text)
    requires s.Valid() && s.evs == [] && s.zero == 0 && s.Here() == EMPTY
    modifies s, s.users
    ensures s.Valid() && s.Clock() == 1 && s.evs == [UserCreated(u, email, pw, 1)]
    ensures s.users.rows == map[u := NewUser(u, email, pw)]
  {
    var ok := s.CreateUser(u, email, pw, 1);
    assert ok;
    AfterLast(EMPTY, s.evs, [], UserCreated(u, email, pw, 1));
  }

  lemma EnrolledGetsTempToken(w: World, valid: (Text, Text) -> bool, u: Id, email: Text, pw: Text, from: Origin,
                              at: Time, made: Made, result: LoginResult, ev: Event, compare: S.Compare)
    requires w.users == map[u := Enrolled(u, email, pw)] && valid(pw, pw) && Enabled(w, ev, compare)
    requires LoginSettled(w.users, valid, email, pw, from, at, at, made, result, ev)
    ensures result.NeedsMfa? && ev == LoginPending(u, from, at, at, made.tempToken)
  {
    assert w.users[u].email == email && w.users[u].mfaEnabled && w.users[u].lockedUntil.None?;
  }

  lemma LoggedInRow(w: World, u: Id, email: Text, pw: Text, from: Origin, at: Time, token: Text)
    requires w.users == map[u := Enrolled(u, email, pw)]
    ensures var v := WithTempToken(WithLoginReset(Enrolled(u, email, pw)), token, at + TEMP_TOKEN_TTL);
            Apply(w, LoginPending(u, from, at, at, token)).users == map[u := v]
  {
  }

  lemma WrongIsRefused(rows: Table, v: User, q: Request, judge: User -> Answer, left: User -> Option<Text>,
                       result: MfaResult, ev: Event)
    requires rows == map[v.id := v] && judge(v) == Wrong && Settled(rows, q, judge, left, result, ev)
    requires v.mfaTempToken == Some(q.token) && !TokenExpired(v, q.check) && !Locked(MfaLock(v), q.lockCheck)
    ensures result == Refused && ev == WrongEvent(q, v.id)
  {
    assert v.id in rows && rows[v.id] == v;
  }

  /** A code presented with an open token for a column that holds cipher text. */
  method AnswerWithCode(s: Server, v: User, token: Text, at: Time) returns (answer: MfaResult, ghost ev: Event)
    requires s.Valid() && s.Clock() <= at && s.users.rows == map[v.id := v]
    requires v.mfaTempToken == Some(token) && !TokenExpired(v, at) && !Locked(MfaLock(v), at)
    requires v.mfaBackupCodes == Some(T("QUJD")) && s.mfa.backupCodes.upper(CODE) == CODE
    modifies s, s.users
    ensures s.Valid() && answer == Refused && ev == MfaWrong(v.id, BackupCode, token, at, at, at)
  {
    CipherIsNoList(v, []);
    ghost var judge, left := BackupJudge(CODE, []), BackupLeft(s.mfa.encrypt, CODE, []);
    answer, ev := s.VerifyBackup(token, CODE, at, at, at, []);
    WrongIsRefused(map[v.id := v], v, Request(BackupCode, token, at, at, at), judge, left, answer, ev);
  }

  lemma PlainCodeIsAccepted()
    ensures B.Validate(B.Stringify(B.Issue([CODE])), CODE, []).Validation?
    ensures B.Validate(B.Stringify(B.Issue([CODE])), CODE, []).valid
  {
    B.AttemptSpendsOne(B.Issue([CODE]), CODE, []);
    assert CODE in multiset([CODE]);
  }

  /** A user turns MFA on, is given a backup code, logs in, and the code is refused and counted
      as wrong, although it would be accepted by the codes as they were issued. */
  method IssuedCodeIsRefused() returns (setUp: bool, login: LoginResult, answer: MfaResult, ghost ev: Event)
    ensures setUp && login.NeedsMfa? && answer == Refused && ev.MfaWrong?
    ensures B.Validate(B.Stringify(B.Issue([CODE])), CODE, []).Validation?
            && B.Validate(B.Stringify(B.Issue([CODE])), CODE, []).valid
  {
    var s := Fresh();
    var u, email, pw := T("u"), T("u@x"), T("pw");
    setUp := Enrol(s, u, email, pw);
    login := LogInEnrolled(s, u, email, pw, T("temp"));
    var v := WithTempToken(WithLoginReset(Enrolled(u, email, pw)), T("temp"), 3 + TEMP_TOKEN_TTL);
    answer, ev := AnswerWithCode(s, v, T("temp"), 4);
    PlainCodeIsAccepted();
  }

  method LogInEnrolled(s: Server, u: Id, email: Text, pw: Text, token: Text) returns (login: LoginResult)
    requires s.Valid() && s.Clock() <= 3 && s.users.rows == map[u := Enrolled(u, email, pw)]
    requires T("s1") !in s.sessions.rows && s.users.bcryptCompare(pw, pw)
    modifies s, s.users, s.sessions, s.auditLog
    ensures login.NeedsMfa? && s.Valid() && s.Clock() <= 3
    ensures s.users.rows == map[u := WithTempToken(WithLoginReset(Enrolled(u, email, pw)), token, 3 + TEMP_TOKEN_TTL)]
  {
    var from, made := Origin([], []), Made(token, T("s1"), T("t1"), T("t1"), T("access"), T("jwt"));
    ghost var before, ev := s.Here(), NoEffect(3);
    login, ev := s.Login(email, pw, from, 3, 3, made);
    EnrolledGetsTempToken(before, s.users.bcryptCompare, u, email, pw, from, 3, made, login, ev,
      s.sessions.bcryptCompare);
    LoggedInRow(before, u, email, pw, from, 3, token);
  }

  // ---------------------------------------------------------- passwords tried outside login

  /** Turning MFA off with wrong passwords: each is checked and answered as wrong, whatever
      lock there is, and the tables stay as they are. */
  method WrongDisables(s: Server, u: Id, passwords: seq<Text>, code: Text, at: Time)
    returns (results: seq<SettingResult>)
    requires s.Valid() && s.Clock() <= at && u in s.users.rows
    requires forall k | 0 <= k < |passwords| :: !s.users.bcryptCompare(passwords[k], s.users.rows[u].passwordHash)
    modifies s, s.users
    ensures s.Valid() && s.users.rows == old(s.users.rows)
    ensures AllWrong(LoginCounter, s.evs, u) == old(AllWrong(LoginCounter, s.evs, u)) + |passwords|
    ensures |results| == |passwords| && forall k | 0 <= k < |results| :: results[k] == PasswordWrong
  {
    results := [];
    for n := 0 to |passwords|
      invariant s.Valid() && s.Clock() <= at && s.users.rows == old(s.users.rows)
      invariant AllWrong(LoginCounter, s.evs, u) == old(AllWrong(LoginCounter, s.evs, u)) + n
      invariant |results| == n && forall k | 0 <= k < n :: results[k] == PasswordWrong
    {
      var r := WrongDisable(s, u, passwords[n], code, at);
      results := results + [r];
    }
  }

  method WrongDisable(s: Server, u: Id, password: Text, code: Text, at: Time) returns (result: SettingResult)
    requires s.Valid() && s.Clock() <= at && u in s.users.rows
    requires !s.users.bcryptCompare(password, s.users.rows[u].passwordHash)
    modifies s, s.users
    ensures s.Valid() && s.Clock() == at && s.users.rows == old(s.users.rows) && result == PasswordWrong
    ensures AllWrong(LoginCounter, s.evs, u) == old(AllWrong(LoginCounter, s.evs, u)) + 1
  {
    ghost var here, evs := s.Here(), s.evs;
    ghost var ev;
    result, ev := s.Disable(u, password, code, at);
    assert s.evs[..|s.evs| - 1] == evs;
    AfterLast(EMPTY, s.evs, evs, ev);
    UncountedChangesNothing(here, ev);
  }

  /** Any number of wrong passwords at one and the same time, all checked and none counted,
      where the counter of a new user would let five through. */
  method ManyWrongPasswords(n: nat) returns (results: seq<SettingResult>, s: Server)
    ensures |results| == n && forall k | 0 <= k < n :: results[k] == PasswordWrong
    ensures s.Valid() && s.users.rows == map[T("u") := NewUser(T("u"), T("u@x"), T("pw"))]
    ensures AllWrong(LoginCounter, s.evs, T("u")) == n
    ensures Budget(Lock(0, None), MaxOf(LoginCounter), 1, 1) == 5
  {
    s := Fresh();
    CreateFirst(s, T("u"), T("u@x"), T("pw"));
    var passwords: seq<Text> := seq(n, _ => []);
    NothingWrongYet(T("u"), T("u@x"), T("pw"));
    results := WrongDisables(s, T("u"), passwords, [], 1);
  }

  lemma NothingWrongYet(u: Id, email: Text, pw: Text)
    ensures AllWrong(LoginCounter, [UserCreated(u, email, pw, 1)], u) == 0
    ensures Budget(Lock(0, None), MaxOf(LoginCounter), 1, 1) == 5
  {
    assert [UserCreated(u, email, pw, 1)][..0] == [];
  }

  // ----------------------------------------------------------------- biometrics without MFA

  /** A user turns MFA on, then biometrics, and MFA is turned off, by the user or by the admin:
      biometrics stay on. */
  method BiometricsWithoutMfa(byAdmin: bool) returns (s: Server)
    ensures s.Valid() && T("u") in s.users.rows
    ensures s.users.rows[T("u")].biometricEnabled && !s.users.rows[T("u")].mfaEnabled
  {
    s := Fresh();
    var u, email, pw := T("u"), T("u@x"), T("pw");
    var _ := Enrol(s, u, email, pw);
    TurnOnBiometrics(s, u, Enrolled(u, email, pw));
    var v := WithBiometric(Enrolled(u, email, pw), Given([]));
    if byAdmin { ResetMfa(s, u, v); } else { TurnOffMfa(s, u, v); }
  }

  method TurnOnBiometrics(s: Server, u: Id, v: User)
    requires s.Valid() && s.Clock() <= 3 && s.users.rows == map[u := v] && v.mfaEnabled
    modifies s, s.users
    ensures s.Valid() && s.Clock() <= 3 && s.users.rows == map[u := WithBiometric(v, Given([]))]
  {
    ghost var here, evs := s.Here(), s.evs;
    var ok := s.EnableBiometric(u, Given([]), 3);
    LastChanges(s, here, evs, BiometricEnabled(u, Given([]), 3), u);
  }

  method TurnOffMfa(s: Server, u: Id, v: User)
    requires s.Valid() && s.Clock() <= 3 && s.users.rows == map[u := v] && v.biometricEnabled
    requires s.users.bcryptCompare(v.passwordHash, v.passwordHash)
    requires forall x, y, z :: s.mfa.checkTotp(x, y, z) == Right
    modifies s, s.users
    ensures s.Valid() && s.users.rows == map[u := WithoutMfa(v)]
  {
    ghost var here, evs := s.Here(), s.evs;
    ghost var ev;
    var result;
    result, ev := s.Disable(u, v.passwordHash, [], 4);
    LastChanges(s, here, evs, ev, u);
  }

  method ResetMfa(s: Server, u: Id, v: User)
    requires s.Valid() && s.Clock() <= 3 && s.users.rows == map[u := v] && v.biometricEnabled
    modifies s, s.users
    ensures s.Valid() && s.users.rows == map[u := AdminReset(v)]
  {
    ghost var here, evs := s.Here(), s.evs;
    ghost var ev;
    var ok;
    ok, ev := s.ResetUser(v.email, 4);
    assert u in here.users && here.users[u].email == v.email;
    LastChanges(s, here, evs, ev, u);
  }

  /** What the last event made of the only row there is. */
  lemma LastChanges(s: Server, here: World, evs: seq<Event>, ev: Event, u: Id)
    requires s.Here() == After(EMPTY, s.evs) && s.evs == evs + [ev] && here == After(EMPTY, evs)
    requires HasUser(ev) && !ev.UserCreated? && ev.user == u && here.users.Keys == {u}
    ensures s.users.rows == map[u := Changed(here.users[u], ev)]
  {
    assert s.evs[..|s.evs| - 1] == evs;
    AfterLast(EMPTY, s.evs, evs, ev);
    OnlyRowChanges(here, ev, u);
  }

  lemma OnlyRowChanges(w: World, ev: Event, u: Id)
    requires HasUser(ev) && !ev.UserCreated? && ev.user == u && w.users.Keys == {u}
    ensures Apply(w, ev).users == map[u := Changed(w.users[u], ev)]
  {
    assert w.users[u := Changed(w.users[u], ev)] == map[u := Changed(w.users[u], ev)];
  }
}
