/** The rows of the users table, what each operation of `UsersService` and
    `AdminController` makes of a row, and the service itself. */
module Users {
  import opened JsText
  import opened Option

  /** Milliseconds since the epoch, as `Date.now()` gives them. */
  type Time = int

  type Id = Text

  const MINUTE: Time := 60 * 1000
  const LOCK_TIME: Time := 15 * MINUTE
  const TEMP_TOKEN_TTL: Time := 5 * MINUTE
  const MAX_LOGIN_ATTEMPTS: nat := 5
  const MAX_MFA_ATTEMPTS: nat := 3

  datatype MfaMethod = Totp | Biometric

  datatype User = User(
    id: Id, email: Text, passwordHash: Text, isActive: bool,
    failedAttempts: nat, lockedUntil: Option<Time>,
    mfaEnabled: bool, mfaSecret: Option<Text>, mfaBackupCodes: Option<Text>,
    mfaTempToken: Option<Text>, mfaTempTokenExpires: Option<Time>, mfaLastVerified: Option<Time>,
    mfaFailedAttempts: nat, mfaLockedUntil: Option<Time>,
    biometricEnabled: bool, deviceBiometricId: Option<Text>, preferredMfaMethod: MfaMethod)

  // ------------------------------------------------------------- counters with a lock

  /** A failure counter and the time until which it locks. */
  datatype Lock = Lock(attempts: nat, until: Option<Time>)

  predicate Locked(l: Lock, now: Time) { l.until.Some? && l.until.value > now }

  /** One more failure; from the `max`-th on each one locks. */
  function Failed(l: Lock, max: nat, now: Time): Lock {
    Lock(l.attempts + 1, if l.attempts + 1 >= max then Some(now + LOCK_TIME) else l.until)
  }

  function LoginLock(u: User): Lock { Lock(u.failedAttempts, u.lockedUntil) }

  function MfaLock(u: User): Lock { Lock(u.mfaFailedAttempts, u.mfaLockedUntil) }

  // ------------------------------------------------------------------ row transitions

  function NewUser(id: Id, email: Text, passwordHash: Text): User {
    User(id, email, passwordHash, true, 0, None, false, None, None, None, None, None, 0, None, false, None, Totp)
  }

  function WithLoginFailure(u: User, now: Time): User {
    var l := Failed(LoginLock(u), MAX_LOGIN_ATTEMPTS, now);
    u.(failedAttempts := l.attempts, lockedUntil := l.until)
  }

  function WithLoginReset(u: User): User { u.(failedAttempts := 0, lockedUntil := None) }

  function WithMfaFailure(u: User, now: Time): User {
    var l := Failed(MfaLock(u), MAX_MFA_ATTEMPTS, now);
    u.(mfaFailedAttempts := l.attempts, mfaLockedUntil := l.until)
  }

  function WithMfaReset(u: User): User { u.(mfaFailedAttempts := 0, mfaLockedUntil := None) }

  function WithMfa(u: User, codes: Text): User { u.(mfaEnabled := true, mfaBackupCodes := Some(codes)) }

  function WithoutMfa(u: User): User {
    u.(mfaEnabled := false, mfaSecret := None, mfaBackupCodes := None, mfaTempToken := None,
       mfaTempTokenExpires := None, mfaFailedAttempts := 0, mfaLockedUntil := None)
  }

  function WithTempToken(u: User, token: Text, expires: Time): User {
    u.(mfaTempToken := Some(token), mfaTempTokenExpires := Some(expires))
  }

  function WithoutTempToken(u: User, now: Time): User {
    u.(mfaTempToken := None, mfaTempTokenExpires := None, mfaLastVerified := Some(now))
  }

  function WithBackupCodes(u: User, codes: Text): User { u.(mfaBackupCodes := Some(codes)) }

  function WithSecret(u: User, secret: Text): User { u.(mfaSecret := Some(secret)) }

  /** A field of a request body that nothing validates. */
  datatype BodyField = Absent | NullField | Given(text: Text)

  /** A column is left as it is by an absent value and erased by null. */
  function Stored(column: Option<Text>, f: BodyField): Option<Text> {
    match f
    case Absent => column
    case NullField => None
    case Given(text) => Some(text)
  }

  function WithBiometric(u: User, device: BodyField): User {
    u.(biometricEnabled := true, preferredMfaMethod := Biometric,
       deviceBiometricId := Stored(u.deviceBiometricId, device))
  }

  function WithoutBiometric(u: User): User {
    u.(biometricEnabled := false, deviceBiometricId := None, preferredMfaMethod := Totp)
  }

  /** `admin/unlock-user`. */
  function AdminUnlocked(u: User): User { WithMfaReset(WithLoginReset(u)) }

  /** `admin/reset-user`. */
  function AdminReset(u: User): User {
    WithoutMfa(WithLoginReset(u)).(mfaLastVerified := None)
  }

  /** Whether a row's biometric device is the presented one. */
  predicate BiometricMatches(u: User, device: Text) {
    u.biometricEnabled && u.deviceBiometricId == Some(device)
  }

  // ------------------------------------------------------------------------ the table

  type Table = map<Id, User>

  /** Primary key and unique email, as the database enforces them. */
  predicate ValidTable(rows: Table) {
    && (forall id | id in rows :: rows[id].id == id)
    && (forall i, j | i in rows && j in rows && rows[i].email == rows[j].email :: i == j)
  }

  /** `repository.update(id, ...)`: nothing happens when no row has the id. */
  function Updated(rows: Table, id: Id, change: User -> User): Table {
    if id in rows then rows[id := change(rows[id])] else rows
  }

  class UsersService {
    var rows: Table
    const bcryptCompare: (Text, Text) -> bool

    constructor (rows: Table, bcryptCompare: (Text, Text) -> bool)
      ensures this.rows == rows && this.bcryptCompare == bcryptCompare
    {
      this.rows := rows;
      this.bcryptCompare := bcryptCompare;
    }

    method FindByEmail(email: Text) returns (user: Option<User>)
      ensures user.None? ==> forall id | id in rows :: rows[id].email != email
      ensures user.Some? ==> user.value.email == email && exists id | id in rows :: rows[id] == user.value
    {
      if id: Id :| id in rows && rows[id].email == email {
        user := Some(rows[id]);
      } else {
        user := None;
      }
    }

    method FindById(id: Id) returns (user: Option<User>)
      ensures user == if id in rows then Some(rows[id]) else None
    {
      user := if id in rows then Some(rows[id]) else None;
    }

    method FindByMfaTempToken(token: Text) returns (user: Option<User>)
      ensures user.None? ==> forall id | id in rows :: rows[id].mfaTempToken != Some(token)
      ensures user.Some? ==> user.value.mfaTempToken == Some(token) && exists id | id in rows :: rows[id] == user.value
    {
      if id: Id :| id in rows && rows[id].mfaTempToken == Some(token) {
        user := Some(rows[id]);
      } else {
        user := None;
      }
    }

    /** Fails, changing nothing, when the email is taken. */
    method Create(id: Id, email: Text, passwordHash: Text) returns (ok: bool)
      requires ValidTable(rows) && id !in rows
      modifies this
      ensures ValidTable(rows)
      ensures ok <==> forall i | i in old(rows) :: old(rows)[i].email != email
      ensures rows == if ok then old(rows)[id := NewUser(id, email, passwordHash)] else old(rows)
      ensures ok ==> (var u := rows[id];
                      u.email == email && u.passwordHash == passwordHash && u.isActive && u.failedAttempts == 0
                      && !u.mfaEnabled && !u.biometricEnabled && u.mfaFailedAttempts == 0)
    {
      var taken := FindByEmail(email);
      ok := taken.None?;
      if ok {
        rows := rows[id := NewUser(id, email, passwordHash)];
      }
    }

    method ValidatePassword(user: User, password: Text) returns (ok: bool)
      ensures ok == bcryptCompare(password, user.passwordHash)
    {
      ok := bcryptCompare(password, user.passwordHash);
    }

    /** Writes the whole entity, as it was loaded, with one more failure. */
    method IncrementFailedAttempts(user: User, now: Time) returns (changed: User)
      modifies this
      ensures changed == WithLoginFailure(user, now) && rows == old(rows)[user.id := changed]
      ensures changed == user.(
                failedAttempts := user.failedAttempts + 1,
                lockedUntil := if user.failedAttempts + 1 >= 5 then Some(now + 15 * 60 * 1000) else user.lockedUntil)
    {
      changed := user.(failedAttempts := user.failedAttempts + 1);
      if changed.failedAttempts >= 5 {
        changed := changed.(lockedUntil := Some(now + 15 * 60 * 1000));
      }
      rows := rows[user.id := changed];
    }

    method ResetFailedAttempts(user: User) returns (changed: User)
      modifies this
      ensures changed == WithLoginReset(user) && rows == old(rows)[user.id := changed]
      ensures changed == user.(failedAttempts := 0, lockedUntil := None)
    {
      changed := user.(failedAttempts := 0, lockedUntil := None);
      rows := rows[user.id := changed];
    }

    method Update(id: Id, change: User -> User)
      modifies this
      ensures rows == Updated(old(rows), id, change)
    {
      if id in rows {
        rows := rows[id := change(rows[id])];
      }
    }

    method EnableMfa(id: Id, codes: Text)
      modifies this
      ensures rows == Updated(old(rows), id, u => WithMfa(u, codes))
      ensures id in old(rows) ==> rows == old(rows)[id := old(rows)[id].(
                mfaEnabled := true, mfaBackupCodes := Some(codes))]
      ensures id !in old(rows) ==> rows == old(rows)
    {
      Update(id, u => WithMfa(u, codes));
    }

    method DisableMfa(id: Id)
      modifies this
      ensures rows == Updated(old(rows), id, WithoutMfa)
      ensures id in old(rows) ==> (var u := old(rows)[id]; rows == old(rows)[id := u.(
                mfaEnabled := false, mfaSecret := None, mfaBackupCodes := None, mfaTempToken := None,
                mfaTempTokenExpires := None, mfaFailedAttempts := 0, mfaLockedUntil := None)])
      ensures id !in old(rows) ==> rows == old(rows)
    {
      Update(id, WithoutMfa);
    }

    method ClearMfaTempToken(id: Id, now: Time)
      modifies this
      ensures rows == Updated(old(rows), id, u => WithoutTempToken(u, now))
      ensures id in old(rows) ==> rows == old(rows)[id := old(rows)[id].(
                mfaTempToken := None, mfaTempTokenExpires := None, mfaLastVerified := Some(now))]
      ensures id !in old(rows) ==> rows == old(rows)
    {
      Update(id, u => WithoutTempToken(u, now));
    }

    method UpdateBackupCodes(id: Id, codes: Text)
      modifies this
      ensures rows == Updated(old(rows), id, u => WithBackupCodes(u, codes))
      ensures id in old(rows) ==> rows == old(rows)[id := old(rows)[id].(mfaBackupCodes := Some(codes))]
      ensures id !in old(rows) ==> rows == old(rows)
    {
      Update(id, u => WithBackupCodes(u, codes));
    }

    method SetMfaTempToken(id: Id, token: Text, expires: Time)
      modifies this
      ensures rows == Updated(old(rows), id, u => WithTempToken(u, token, expires))
      ensures id in old(rows) ==> rows == old(rows)[id := old(rows)[id].(
                mfaTempToken := Some(token), mfaTempTokenExpires := Some(expires))]
      ensures id !in old(rows) ==> rows == old(rows)
    {
      Update(id, u => WithTempToken(u, token, expires));
    }

    method SetMfaSecret(id: Id, secret: Text)
      modifies this
      ensures rows == Updated(old(rows), id, u => WithSecret(u, secret))
      ensures id in old(rows) ==> rows == old(rows)[id := old(rows)[id].(mfaSecret := Some(secret))]
      ensures id !in old(rows) ==> rows == old(rows)
    {
      Update(id, u => WithSecret(u, secret));
    }

    /** Loads the row again before it counts. */
    method IncrementMfaFailedAttempts(id: Id, now: Time)
      requires ValidTable(rows)
      modifies this
      ensures rows == Updated(old(rows), id, u => WithMfaFailure(u, now))
      ensures id in old(rows) ==> (var u, n := old(rows)[id], old(rows)[id].mfaFailedAttempts + 1;
                rows == old(rows)[id := u.(
                  mfaFailedAttempts := n,
                  mfaLockedUntil := if n >= 3 then Some(now + 15 * 60 * 1000) else u.mfaLockedUntil)])
      ensures id !in old(rows) ==> rows == old(rows)
    {
      var user := FindById(id);
      if user.None? { return; }
      var changed := user.value.(mfaFailedAttempts := user.value.mfaFailedAttempts + 1);
      if changed.mfaFailedAttempts >= 3 {
        changed := changed.(mfaLockedUntil := Some(now + 15 * 60 * 1000));
      }
      rows := rows[changed.id := changed];
    }

    method ResetMfaFailedAttempts(id: Id)
      modifies this
      ensures rows == Updated(old(rows), id, WithMfaReset)
      ensures id in old(rows) ==> rows == old(rows)[id := old(rows)[id].(
                mfaFailedAttempts := 0, mfaLockedUntil := None)]
      ensures id !in old(rows) ==> rows == old(rows)
    {
      Update(id, WithMfaReset);
    }

    method IsMfaLocked(id: Id, now: Time) returns (locked: bool)
      ensures locked <==> id in rows && Locked(MfaLock(rows[id]), now)
      ensures locked <==> id in rows && rows[id].mfaLockedUntil.Some? && rows[id].mfaLockedUntil.value > now
    {
      var user := FindById(id);
      if user.None? { return false; }
      locked := user.value.mfaLockedUntil.Some? && user.value.mfaLockedUntil.value > now;
    }

    method EnableBiometric(id: Id, device: BodyField)
      modifies this
      ensures rows == Updated(old(rows), id, u => WithBiometric(u, device))
      ensures id in old(rows) ==> (var u := old(rows)[id]; rows == old(rows)[id := u.(
                biometricEnabled := true, preferredMfaMethod := Biometric,
                deviceBiometricId := match device
                                     case Absent => u.deviceBiometricId
                                     case NullField => None
                                     case Given(text) => Some(text))])
      ensures id !in old(rows) ==> rows == old(rows)
    {
      Update(id, u => WithBiometric(u, device));
    }

    method DisableBiometric(id: Id)
      modifies this
      ensures rows == Updated(old(rows), id, WithoutBiometric)
      ensures id in old(rows) ==> rows == old(rows)[id := old(rows)[id].(
                biometricEnabled := false, deviceBiometricId := None, preferredMfaMethod := Totp)]
      ensures id !in old(rows) ==> rows == old(rows)
    {
      Update(id, WithoutBiometric);
    }

    method ValidateBiometric(id: Id, device: Text) returns (ok: bool)
      ensures ok <==> id in rows && BiometricMatches(rows[id], device)
      ensures ok <==> id in rows && rows[id].biometricEnabled && rows[id].deviceBiometricId == Some(device)
    {
      var user := FindById(id);
      if user.None? { return false; }
      ok := user.value.biometricEnabled && user.value.deviceBiometricId == Some(device);
    }
  }
}
