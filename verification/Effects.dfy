/** What every request makes of users, sessions and audit log, and when it is let through,
    field by field and in numbers. */
module Effects {
  import opened JsText
  import opened Option
  import opened Users
  import opened AuthEvents
  import S = Sessions

  // ------------------------------------------------------------------------ login

  lemma FailedLogins(w: World, email: Text, user: Id, from: Origin, check: Time, at: Time)
    requires user in w.users
    ensures Apply(w, LoginUnknown(email, from, at)) == w.(audit := w.audit + [AuditRow(
              userId := None, action := LOGIN_FAILED, ip := from.ip, device := from.device, success := false)])
    ensures Apply(w, LoginRefused(user, from, at)) == w.(audit := w.audit + [AuditRow(
              userId := Some(user), action := LOGIN_LOCKED, ip := from.ip, device := from.device, success := false)])
    ensures var u := w.users[user];
            Apply(w, LoginWrong(user, from, check, at)) == w.(
              users := w.users[user := u.(
                failedAttempts := u.failedAttempts + 1,
                lockedUntil := if u.failedAttempts + 1 >= 5 then Some(at + 15 * 60 * 1000) else u.lockedUntil)],
              audit := w.audit + [AuditRow(
                userId := Some(user), action := LOGIN_FAILED, ip := from.ip, device := from.device, success := false)])
  {
    assert w.users[user := w.users[user]] == w.users;
  }

  lemma PendingLogin(w: World, user: Id, from: Origin, check: Time, at: Time, token: Text)
    requires user in w.users
    ensures var u := w.users[user];
            Apply(w, LoginPending(user, from, check, at, token)) == w.(
              users := w.users[user := u.(
                failedAttempts := 0, lockedUntil := None,
                mfaTempToken := Some(token), mfaTempTokenExpires := Some(at + 5 * 60 * 1000))],
              audit := w.audit + [AuditRow(
                userId := Some(user), action := MFA_PENDING, ip := from.ip, device := from.device, success := true)])
  {
  }

  lemma DoneLogin(w: World, user: Id, from: Origin, check: Time, at: Time, sid: S.Sid, token: Text, hash: Text)
    requires user in w.users
    ensures Apply(w, LoginDone(user, from, check, at, sid, token, hash)) == World(
              users := w.users[user := w.users[user].(failedAttempts := 0, lockedUntil := None)],
              sessions := w.sessions[sid := S.Session(
                userId := user, refreshToken := hash, deviceInfo := from.device, ipAddress := from.ip,
                expiresAt := at + 7 * 24 * 60 * 60 * 1000, isRevoked := false)],
              audit := w.audit + [AuditRow(
                userId := Some(user), action := LOGIN_SUCCESS, ip := from.ip, device := from.device, success := true)])
  {
    ApplyOne(w.sessions, S.Create(sid, user, token, hash, from.device, from.ip, at));
  }

  /** A login is refused while the lock lies ahead, and only then. */
  lemma LoginGuards(w: World, compare: S.Compare, user: Id, from: Origin, check: Time, at: Time)
    requires user in w.users
    ensures var u := w.users[user];
            var locked := u.lockedUntil.Some? && u.lockedUntil.value > check;
            && (Enabled(w, LoginRefused(user, from, check), compare) <==> locked)
            && (Enabled(w, LoginWrong(user, from, check, at), compare) <==> !locked)
            && (forall t :: Enabled(w, LoginPending(user, from, check, at, t), compare) <==> !locked && u.mfaEnabled)
            && (forall s, t, h | s !in w.sessions ::
                  Enabled(w, LoginDone(user, from, check, at, s, t, h), compare) <==> !locked && !u.mfaEnabled)
  {
  }

  // ------------------------------------------------------------------ refresh and logout

  lemma RefreshEffect(w: World, ev: Event)
    requires ev.Refreshed? && ev.revoked.Some? && ev.revoked.value in w.sessions && ev.user in w.users
    ensures var r := ev.revoked.value;
            Apply(w, ev) == w.(
              sessions := w.sessions[r := w.sessions[r].(isRevoked := true)][ev.sid := S.Session(
                userId := ev.user, refreshToken := ev.hash, deviceInfo := ev.from.device, ipAddress := ev.from.ip,
                expiresAt := ev.at + 7 * 24 * 60 * 60 * 1000, isRevoked := false)],
              audit := w.audit + [AuditRow(userId := Some(ev.user), action := TOKEN_REFRESH,
                                           ip := ev.from.ip, device := ev.from.device, success := true)])
  {
    var ops := SessionOps(ev);
    ApplyTwo(w.sessions, ops[0], ops[1]);
    assert w.users[ev.user := w.users[ev.user]] == w.users;
  }

  lemma LogoutEffect(w: World, ev: Event)
    requires ev.LoggedOut? && ev.user in w.users
    ensures Apply(w, ev).users == w.users
    ensures Apply(w, ev).sessions
         == if ev.revoked.None? || ev.revoked.value !in w.sessions then w.sessions
            else w.sessions[ev.revoked.value := w.sessions[ev.revoked.value].(isRevoked := true)]
    ensures Apply(w, ev).audit == w.audit + [AuditRow(
              userId := Some(ev.user), action := LOGOUT, ip := ev.from.ip, device := ev.from.device, success := true)]
  {
    ApplyOne(w.sessions, SessionOps(ev)[0]);
    assert SessionOps(ev) == [SessionOps(ev)[0]];
    assert w.users[ev.user := w.users[ev.user]] == w.users;
  }

  lemma RevokeAllEffect(w: World, user: Id, at: Time)
    ensures var v := Apply(w, SessionsRevoked(user, at)).sessions;
            && v.Keys == w.sessions.Keys
            && forall s | s in v ::
                 v[s] == if w.sessions[s].userId == user then w.sessions[s].(isRevoked := true) else w.sessions[s]
  {
    ApplyOne(w.sessions, S.RevokeAll(user));
  }

  lemma CleanupEffect(w: World, at: Time)
    ensures var v := Apply(w, SessionsCleaned(at)).sessions;
            && (forall s :: s in v <==> s in w.sessions && w.sessions[s].expiresAt >= at)
            && (forall s | s in v :: v[s] == w.sessions[s])
  {
    ApplyOne(w.sessions, S.Cleanup(at));
  }

  // ----------------------------------------------------------------------- verify endpoints

  lemma MfaEffects(w: World, user: Id, endpoint: Endpoint, token: Text, check: Time, lockCheck: Time, at: Time,
                   codes: Option<Text>)
    requires user in w.users
    ensures var u := w.users[user];
            Apply(w, MfaWrong(user, endpoint, token, check, lockCheck, at)) == w.(users := w.users[user := u.(
              mfaFailedAttempts := u.mfaFailedAttempts + 1,
              mfaLockedUntil := if u.mfaFailedAttempts + 1 >= 3 then Some(at + 15 * 60 * 1000) else u.mfaLockedUntil)])
    ensures var u := w.users[user];
            Apply(w, MfaDone(user, endpoint, token, check, lockCheck, at, codes)) == w.(users := w.users[user := u.(
              mfaFailedAttempts := 0, mfaLockedUntil := None,
              mfaBackupCodes := if codes.Some? then codes else u.mfaBackupCodes,
              mfaTempToken := None, mfaTempTokenExpires := None, mfaLastVerified := Some(at))])
  {
  }

  /** An attempt is let through for the row's own token until its expiry, a missing expiry being
      long past, and not before the end of a lock. */
  lemma MfaGuards(w: World, user: Id, token: Text, check: Time, lockCheck: Time)
    ensures MfaOpen(w, user, token, check, lockCheck)
       <==> user in w.users
            && w.users[user].mfaTempToken == Some(token)
            && check <= (if w.users[user].mfaTempTokenExpires.Some? then w.users[user].mfaTempTokenExpires.value else 0)
            && (w.users[user].mfaLockedUntil.Some? ==> w.users[user].mfaLockedUntil.value <= lockCheck)
  {
  }

  /** The token a login returned is open for five minutes to the millisecond. */
  lemma TokenLives(w: World, user: Id, from: Origin, c: Time, at: Time, token: Text, check: Time, lockCheck: Time)
    requires user in w.users && w.users[user].mfaLockedUntil.None?
    ensures MfaOpen(Apply(w, LoginPending(user, from, c, at, token)), user, token, check, lockCheck)
       <==> check <= at + 5 * 60 * 1000
  {
    PendingLogin(w, user, from, c, at, token);
  }

  // --------------------------------------------------------------------- settings and admin

  lemma SettingEffects(w: World, user: Id, text: Text, at: Time)
    requires user in w.users
    ensures Apply(w, SetupStarted(user, text, at))
         == w.(users := w.users[user := w.users[user].(mfaSecret := Some(text))])
    ensures Apply(w, SetupVerified(user, text, at))
         == w.(users := w.users[user := w.users[user].(mfaEnabled := true, mfaBackupCodes := Some(text))])
    ensures Apply(w, MfaDisabled(user, at)) == w.(users := w.users[user := w.users[user].(
              mfaEnabled := false, mfaSecret := None, mfaBackupCodes := None, mfaTempToken := None,
              mfaTempTokenExpires := None, mfaFailedAttempts := 0, mfaLockedUntil := None)])
  {
  }

  lemma BiometricEffects(w: World, user: Id, text: Text, at: Time)
    requires user in w.users
    ensures Apply(w, BiometricEnabled(user, Given(text), at)) == w.(users := w.users[user := w.users[user].(
              biometricEnabled := true, deviceBiometricId := Some(text), preferredMfaMethod := Biometric)])
    ensures Apply(w, BiometricEnabled(user, NullField, at)) == w.(users := w.users[user := w.users[user].(
              biometricEnabled := true, deviceBiometricId := None, preferredMfaMethod := Biometric)])
    ensures Apply(w, BiometricEnabled(user, Absent, at)) == w.(users := w.users[user := w.users[user].(
              biometricEnabled := true, preferredMfaMethod := Biometric)])
    ensures Apply(w, BiometricDisabled(user, at)) == w.(users := w.users[user := w.users[user].(
              biometricEnabled := false, deviceBiometricId := None, preferredMfaMethod := Totp)])
  {
  }

  lemma AdminEffects(w: World, user: Id, at: Time)
    requires user in w.users
    ensures Apply(w, UnlockedByAdmin(user, at)) == w.(users := w.users[user := w.users[user].(
              failedAttempts := 0, lockedUntil := None, mfaFailedAttempts := 0, mfaLockedUntil := None)])
    ensures Apply(w, ResetByAdmin(user, at)) == w.(users := w.users[user := w.users[user].(
              failedAttempts := 0, lockedUntil := None, mfaEnabled := false, mfaSecret := None,
              mfaBackupCodes := None, mfaTempToken := None, mfaTempTokenExpires := None, mfaLastVerified := None,
              mfaFailedAttempts := 0, mfaLockedUntil := None)])
  {
  }

  lemma CreatedUser(w: World, id: Id, email: Text, hash: Text, at: Time)
    ensures Apply(w, UserCreated(id, email, hash, at)) == w.(users := w.users[id := User(
              id := id, email := email, passwordHash := hash, isActive := true,
              failedAttempts := 0, lockedUntil := None,
              mfaEnabled := false, mfaSecret := None, mfaBackupCodes := None,
              mfaTempToken := None, mfaTempTokenExpires := None, mfaLastVerified := None,
              mfaFailedAttempts := 0, mfaLockedUntil := None,
              biometricEnabled := false, deviceBiometricId := None, preferredMfaMethod := Totp)])
  {
  }
}
