/** Requests that interleave at every await: a handler may hold a copy of a row that others
    have changed since, and write the whole stale copy back. What still holds of every row
    and of every copy is that fields which belong together match. */
module Interleaving {
  import opened JsText
  import opened Option
  import opened Users

  /** The table, and the copies of rows that requests in flight hold. */
  datatype Shared = Shared(rows: Table, copies: map<nat, User>)

  /** One database call of one request; `slot` names the request's copy of the row. */
  datatype Step =
    | Load(slot: nat, id: Id)
    | SaveFailure(slot: nat, now: Time)
    | SaveReset(slot: nat)
    | SaveMfaFailure(slot: nat, now: Time)
    | UpdateRow(id: Id, change: RowChange)
    | InsertRow(id: Id, email: Text, passwordHash: Text)

  /** The partial updates of `UsersService` and `AdminController`. */
  datatype RowChange =
    | EnableMfa(codes: Text)
    | DisableMfa
    | ClearToken(now: Time)
    | StoreCodes(codes: Text)
    | StoreToken(token: Text, expires: Time)
    | StoreSecret(secret: Text)
    | ResetMfaFailures
    | SetBiometric(device: BodyField)
    | ClearBiometric
    | Unlock
    | Reset

  function Change(u: User, c: RowChange): User {
    match c
    case EnableMfa(codes) => WithMfa(u, codes)
    case DisableMfa => WithoutMfa(u)
    case ClearToken(now) => WithoutTempToken(u, now)
    case StoreCodes(codes) => WithBackupCodes(u, codes)
    case StoreToken(token, expires) => WithTempToken(u, token, expires)
    case StoreSecret(secret) => WithSecret(u, secret)
    case ResetMfaFailures => WithMfaReset(u)
    case SetBiometric(device) => WithBiometric(u, device)
    case ClearBiometric => WithoutBiometric(u)
    case Unlock => AdminUnlocked(u)
    case Reset => AdminReset(u)
  }

  /** `save` of the copy in a slot after a change to it: copy and row become the result. */
  function Save(s: Shared, slot: nat, changed: User): Shared {
    Shared(s.rows[changed.id := changed], s.copies[slot := changed])
  }

  function Next(s: Shared, step: Step): Shared {
    match step
    case Load(slot, id) => if id in s.rows then s.(copies := s.copies[slot := s.rows[id]]) else s
    case SaveFailure(slot, now) =>
      if slot in s.copies then Save(s, slot, WithLoginFailure(s.copies[slot], now)) else s
    case SaveReset(slot) =>
      if slot in s.copies then Save(s, slot, WithLoginReset(s.copies[slot])) else s
    case SaveMfaFailure(slot, now) =>
      if slot in s.copies then Save(s, slot, WithMfaFailure(s.copies[slot], now)) else s
    case UpdateRow(id, change) => s.(rows := Updated(s.rows, id, u => Change(u, change)))
    case InsertRow(id, email, hash) =>
      if id in s.rows then s else s.(rows := s.rows[id := NewUser(id, email, hash)])
  }

  function RunSteps(s: Shared, steps: seq<Step>): Shared
    decreases steps
  {
    if steps == [] then s else RunSteps(Next(s, steps[0]), steps[1..])
  }

  /** Locked exactly from the fifth failure, MFA-locked exactly from the third, a temporary
      token exactly with its expiry, biometrics on exactly when preferred, a device only when
      they are on, and backup codes whenever MFA is on. */
  predicate Paired(u: User) { LocksPaired(u) && TokenPaired(u) && SettingsPaired(u) }

  predicate LocksPaired(u: User) {
    (u.lockedUntil.Some? <==> u.failedAttempts >= 5) && (u.mfaLockedUntil.Some? <==> u.mfaFailedAttempts >= 3)
  }

  predicate TokenPaired(u: User) { u.mfaTempToken.Some? <==> u.mfaTempTokenExpires.Some? }

  predicate SettingsPaired(u: User) {
    && (u.deviceBiometricId.Some? ==> u.biometricEnabled)
    && (u.preferredMfaMethod == Biometric <==> u.biometricEnabled)
    && (u.mfaEnabled ==> u.mfaBackupCodes.Some?)
  }

  predicate AllPaired(s: Shared) {
    && (forall id | id in s.rows :: Paired(s.rows[id]) && s.rows[id].id == id)
    && (forall slot | slot in s.copies :: Paired(s.copies[slot]))
  }

  /** What the updates write. */
  lemma ChangesAre(u: User, text: Text, at: Time)
    ensures Change(u, EnableMfa(text)) == u.(mfaEnabled := true, mfaBackupCodes := Some(text))
    ensures Change(u, DisableMfa) == u.(
              mfaEnabled := false, mfaSecret := None, mfaBackupCodes := None, mfaTempToken := None,
              mfaTempTokenExpires := None, mfaFailedAttempts := 0, mfaLockedUntil := None)
    ensures Change(u, ClearToken(at))
         == u.(mfaTempToken := None, mfaTempTokenExpires := None, mfaLastVerified := Some(at))
    ensures Change(u, StoreCodes(text)) == u.(mfaBackupCodes := Some(text))
    ensures Change(u, StoreToken(text, at)) == u.(mfaTempToken := Some(text), mfaTempTokenExpires := Some(at))
    ensures Change(u, StoreSecret(text)) == u.(mfaSecret := Some(text))
    ensures Change(u, ResetMfaFailures) == u.(mfaFailedAttempts := 0, mfaLockedUntil := None)
  {
  }

  lemma FurtherChangesAre(u: User, text: Text)
    ensures Change(u, SetBiometric(Given(text))) == u.(
              biometricEnabled := true, deviceBiometricId := Some(text), preferredMfaMethod := Biometric)
    ensures Change(u, ClearBiometric) == u.(
              biometricEnabled := false, deviceBiometricId := None, preferredMfaMethod := Totp)
    ensures Change(u, Unlock) == u.(
              failedAttempts := 0, lockedUntil := None, mfaFailedAttempts := 0, mfaLockedUntil := None)
    ensures Change(u, Reset) == u.(
              failedAttempts := 0, lockedUntil := None, mfaEnabled := false, mfaSecret := None,
              mfaBackupCodes := None, mfaTempToken := None, mfaTempTokenExpires := None, mfaLastVerified := None,
              mfaFailedAttempts := 0, mfaLockedUntil := None)
  {
  }

  /** A save writes back the whole copy, with its own counter. */
  lemma SavesAre(s: Shared, slot: nat, at: Time)
    requires slot in s.copies
    ensures var u := s.copies[slot];
            var v := u.(failedAttempts := u.failedAttempts + 1,
                        lockedUntil := if u.failedAttempts + 1 >= 5 then Some(at + 15 * 60 * 1000) else u.lockedUntil);
            Next(s, SaveFailure(slot, at)) == Shared(s.rows[u.id := v], s.copies[slot := v])
    ensures var u := s.copies[slot];
            var v := u.(failedAttempts := 0, lockedUntil := None);
            Next(s, SaveReset(slot)) == Shared(s.rows[u.id := v], s.copies[slot := v])
    ensures var u := s.copies[slot];
            var v := u.(mfaFailedAttempts := u.mfaFailedAttempts + 1,
                        mfaLockedUntil := if u.mfaFailedAttempts + 1 >= 3 then Some(at + 15 * 60 * 1000)
                                          else u.mfaLockedUntil);
            Next(s, SaveMfaFailure(slot, at)) == Shared(s.rows[u.id := v], s.copies[slot := v])
  {
  }

  lemma ChangeKeepsLocks(u: User, c: RowChange)
    requires LocksPaired(u)
    ensures LocksPaired(Change(u, c))
  {
  }

  lemma ChangeKeepsToken(u: User, c: RowChange)
    requires TokenPaired(u)
    ensures TokenPaired(Change(u, c))
  {
  }

  lemma ChangeKeepsSettings(u: User, c: RowChange)
    requires SettingsPaired(u)
    ensures SettingsPaired(Change(u, c))
  {
  }

  lemma ChangeKeepsId(u: User, c: RowChange)
    ensures Change(u, c).id == u.id
  {
  }

  lemma ChangeKeepsPairs(u: User, c: RowChange)
    requires Paired(u)
    ensures Paired(Change(u, c)) && Change(u, c).id == u.id
  {
    ChangeKeepsLocks(u, c);
    ChangeKeepsToken(u, c);
    ChangeKeepsSettings(u, c);
    ChangeKeepsId(u, c);
  }

  lemma NextKeepsPairs(s: Shared, step: Step)
    requires AllPaired(s)
    ensures AllPaired(Next(s, step))
  {
    if step.UpdateRow? && step.id in s.rows {
      ChangeKeepsPairs(s.rows[step.id], step.change);
    }
  }

  /** In every state any interleaving can reach, every row and every copy is paired. */
  lemma {:induction false} PairsSurviveInterleaving(s: Shared, steps: seq<Step>)
    requires AllPaired(s)
    ensures AllPaired(RunSteps(s, steps))
    decreases steps
  {
    if steps != [] {
      NextKeepsPairs(s, steps[0]);
      PairsSurviveInterleaving(Next(s, steps[0]), steps[1..]);
    }
  }

  // ------------------------------------------------------------------------ the device

  /** A device whenever biometrics are on. */
  predicate HasDevice(u: User) { u.biometricEnabled ==> u.deviceBiometricId.Some? }

  predicate AllHaveDevices(s: Shared) {
    && (forall id | id in s.rows :: HasDevice(s.rows[id]))
    && (forall slot | slot in s.copies :: HasDevice(s.copies[slot]))
  }

  /** The change turns biometrics on and leaves no device: its own is null, or absent where
      none is stored. */
  predicate TakesDevice(u: User, c: RowChange) {
    c.SetBiometric? && (c.device.NullField? || (c.device.Absent? && u.deviceBiometricId.None?))
  }

  predicate LacksDevice(s: Shared, step: Step) {
    step.UpdateRow? && step.id in s.rows && TakesDevice(s.rows[step.id], step.change)
  }

  lemma ChangeKeepsDevice(u: User, c: RowChange)
    requires Paired(u) && HasDevice(u)
    ensures HasDevice(Change(u, c)) <==> !TakesDevice(u, c)
  {
  }

  /** There is a device whenever biometrics are on as long as each request to turn them on
      brings one, or is silent about it and finds one: any other step keeps it so, and a request
      that does not never does. */
  lemma DevicesStep(s: Shared, step: Step)
    requires AllPaired(s) && AllHaveDevices(s)
    ensures AllHaveDevices(Next(s, step)) <==> !LacksDevice(s, step)
  {
    if step.UpdateRow? && step.id in s.rows {
      ChangeKeepsDevice(s.rows[step.id], step.change);
      assert Next(s, step).rows[step.id] == Change(s.rows[step.id], step.change);
    }
  }

  // ------------------------------------------------------- failures that overwrite each other

  /** `n` requests load the same row. */
  function Loads(id: Id, n: nat): seq<Step> {
    if n == 0 then [] else Loads(id, n - 1) + [Load(n - 1, id)]
  }

  /** Then each of them saves its failure. */
  function Saves(n: nat, now: Time): seq<Step> {
    if n == 0 then [] else Saves(n - 1, now) + [SaveFailure(n - 1, now)]
  }

  lemma {:induction false} RunLast(s: Shared, steps: seq<Step>, last: Step)
    ensures RunSteps(s, steps + [last]) == Next(RunSteps(s, steps), last)
    decreases steps
  {
    if steps == [] {
      assert [] + [last] == [last] && [last][1..] == [];
    } else {
      assert (steps + [last])[1..] == steps[1..] + [last];
      RunLast(Next(s, steps[0]), steps[1..], last);
    }
  }

  lemma {:induction false} AfterLoads(s: Shared, id: Id, n: nat)
    requires id in s.rows
    ensures var t := RunSteps(s, Loads(id, n));
            t.rows == s.rows && forall k | 0 <= k < n :: k in t.copies && t.copies[k] == s.rows[id]
  {
    if n > 0 {
      AfterLoads(s, id, n - 1);
      RunLast(s, Loads(id, n - 1), Load(n - 1, id));
    }
  }

  lemma {:induction false} AfterSaves(s: Shared, u: User, n: nat, m: nat, now: Time)
    requires n <= m && forall k | 0 <= k < m :: k in s.copies && s.copies[k] == u
    ensures var t := RunSteps(s, Saves(n, now));
            && t.rows == (if n == 0 then s.rows else s.rows[u.id := WithLoginFailure(u, now)])
            && forall k | n <= k < m :: k in t.copies && t.copies[k] == u
  {
    if n > 0 {
      AfterSaves(s, u, n - 1, m, now);
      RunLast(s, Saves(n - 1, now), SaveFailure(n - 1, now));
    }
  }

  /** A failure that is saved counts one more than before, if and only if its request had
      loaded the count that is still stored. */
  lemma FailureCountsIff(s: Shared, slot: nat, now: Time)
    requires AllPaired(s) && slot in s.copies && s.copies[slot].id in s.rows
    ensures var u := s.copies[slot];
            var stored, next := s.rows[u.id], Next(s, SaveFailure(slot, now)).rows[u.id];
            next.failedAttempts == stored.failedAttempts + 1 <==> u.failedAttempts == stored.failedAttempts
  {
  }

  /** However many wrong passwords are checked against the same row before the first failure
      is stored, the row counts one. */
  lemma FailuresAreLost(s: Shared, id: Id, n: nat, now: Time)
    requires AllPaired(s) && id in s.rows && n > 0
    ensures RunSteps(RunSteps(s, Loads(id, n)), Saves(n, now)).rows
         == s.rows[id := WithLoginFailure(s.rows[id], now)]
  {
    AfterLoads(s, id, n);
    AfterSaves(RunSteps(s, Loads(id, n)), s.rows[id], n, n, now);
  }

  // ------------------------------------------------------------------ biometrics and MFA

  lemma RunFirst(s: Shared, step: Step, rest: seq<Step>)
    ensures RunSteps(s, [step] + rest) == RunSteps(Next(s, step), rest)
  {
    assert ([step] + rest)[1..] == rest;
  }

  /** That biometrics go with MFA is not among them: a user who turns MFA on, then biometrics
      on, then MFA off, keeps the biometrics. */
  lemma BiometricsOutliveMfa(id: Id, codes: Text, device: BodyField)
    ensures var steps := [InsertRow(id, [], []), UpdateRow(id, EnableMfa(codes)),
                          UpdateRow(id, SetBiometric(device)), UpdateRow(id, DisableMfa)];
            var s := RunSteps(Shared(map[], map[]), steps);
            id in s.rows && s.rows[id].biometricEnabled && !s.rows[id].mfaEnabled
  {
    var a, b := InsertRow(id, [], []), UpdateRow(id, EnableMfa(codes));
    var c, d := UpdateRow(id, SetBiometric(device)), UpdateRow(id, DisableMfa);
    var s0 := Shared(map[], map[]);
    var s1 := Next(s0, a);
    var s2 := Next(s1, b);
    var s3 := Next(s2, c);
    RunFirst(s0, a, [b, c, d]);
    RunFirst(s1, b, [c, d]);
    RunFirst(s2, c, [d]);
    RunFirst(s3, d, []);
    assert [a] + [b, c, d] == [a, b, c, d] && [b] + [c, d] == [b, c, d] && [c] + [d] == [c, d] && [d] + [] == [d];
  }
}
