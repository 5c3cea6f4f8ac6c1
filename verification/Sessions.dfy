/** The sessions table and `SessionsService`, and the theorem that over whole runs a token
    is accepted exactly when it was created, has not expired and was not revoked. */
module Sessions {
  import opened JsText
  import opened Option
  import opened Users

  type Sid = Text

  const SESSION_TTL: Time := 7 * 24 * 60 * MINUTE

  datatype Session = Session(
    userId: Id, refreshToken: Text, deviceInfo: Text, ipAddress: Text, expiresAt: Time, isRevoked: bool)

  type SessionTable = map<Sid, Session>

  /** `bcrypt.compare(token, hash)`. */
  type Compare = (Text, Text) -> bool

  /** `find({where: {userId, isRevoked: false}})`, as a set of rows. */
  function Unrevoked(rows: SessionTable, user: Id): set<Sid> {
    set s | s in rows && rows[s].userId == user && !rows[s].isRevoked
  }

  function Matching(rows: SessionTable, compare: Compare, user: Id, token: Text): set<Sid> {
    set s | s in Unrevoked(rows, user) && compare(token, rows[s].refreshToken)
  }

  /** What `validateRefreshToken` answers at time `now`. */
  predicate Validates(rows: SessionTable, compare: Compare, user: Id, token: Text, now: Time) {
    exists s | s in Matching(rows, compare, user, token) :: rows[s].expiresAt > now
  }

  // ---------------------------------------------------------------------- operations

  /** Changes of the table. `revoked` is the row `revokeSession` met first, if any matched;
      which one that is depends on the order in which the rows were found. */
  datatype Op =
    | Create(sid: Sid, user: Id, token: Text, hash: Text, device: Text, ip: Text, at: Time)
    | Revoke(user: Id, token: Text, revoked: Option<Sid>)
    | RevokeAll(user: Id)
    | Cleanup(at: Time)

  predicate Enabled(rows: SessionTable, compare: Compare, op: Op) {
    match op
    case Create(sid, _, _, _, _, _, _) => sid !in rows
    case Revoke(user, token, revoked) =>
      if revoked.Some? then revoked.value in Matching(rows, compare, user, token)
      else Matching(rows, compare, user, token) == {}
    case RevokeAll(_) => true
    case Cleanup(_) => true
  }

  function Apply(rows: SessionTable, op: Op): SessionTable {
    match op
    case Create(sid, user, _, hash, device, ip, at) =>
      rows[sid := Session(user, hash, device, ip, at + SESSION_TTL, false)]
    case Revoke(_, _, revoked) =>
      if revoked.Some? && revoked.value in rows
      then rows[revoked.value := rows[revoked.value].(isRevoked := true)] else rows
    case RevokeAll(user) =>
      map s | s in rows :: if s in Unrevoked(rows, user) then rows[s].(isRevoked := true) else rows[s]
    case Cleanup(at) =>
      map s | s in rows && !(rows[s].expiresAt < at) :: rows[s]
  }

  class SessionsService {
    var rows: SessionTable
    const bcryptCompare: Compare

    constructor (rows: SessionTable, bcryptCompare: Compare)
      ensures this.rows == rows && this.bcryptCompare == bcryptCompare
    {
      this.rows := rows;
      this.bcryptCompare := bcryptCompare;
    }

    /** The unrevoked rows of a user, in an order nothing is promised about. */
    method Find(user: Id) returns (found: seq<Sid>)
      ensures forall s :: s in found <==> s in Unrevoked(rows, user)
    {
      found := [];
      var left := Unrevoked(rows, user);
      while left != {}
        invariant left <= Unrevoked(rows, user)
        invariant forall s :: s in found <==> s in Unrevoked(rows, user) - left
        decreases |left|
      {
        var s :| s in left;
        found := found + [s];
        left := left - {s};
      }
    }

    /** `sid`, `token` and `hash` are what the database, the generator and bcrypt supply. */
    method CreateRefreshToken(user: Id, device: Text, ip: Text, now: Time, sid: Sid, token: Text, hash: Text)
      returns (refreshToken: Text)
      requires sid !in rows
      modifies this
      ensures refreshToken == token
      ensures rows == Apply(old(rows), Create(sid, user, token, hash, device, ip, now))
      ensures rows == old(rows)[sid := Session(
                userId := user, refreshToken := hash, deviceInfo := device, ipAddress := ip,
                expiresAt := now + 7 * 24 * 60 * 60 * 1000, isRevoked := false)]
    {
      rows := rows[sid := Session(user, hash, device, ip, now + 7 * 24 * 60 * 60 * 1000, false)];
      refreshToken := token;
    }

    method ValidateRefreshToken(user: Id, refreshToken: Text, now: Time) returns (valid: bool)
      ensures valid <==> Validates(rows, bcryptCompare, user, refreshToken, now)
    {
      var sessions := Find(user);
      assert forall k | 0 <= k < |sessions| :: sessions[k] in sessions;
      var i := 0;
      while i < |sessions|
        invariant 0 <= i <= |sessions|
        invariant forall k | 0 <= k < |sessions| :: sessions[k] in Unrevoked(rows, user)
        invariant forall k | 0 <= k < i ::
          !(bcryptCompare(refreshToken, rows[sessions[k]].refreshToken) && rows[sessions[k]].expiresAt > now)
      {
        var s := sessions[i];
        if bcryptCompare(refreshToken, rows[s].refreshToken) && rows[s].expiresAt > now {
          assert s in Matching(rows, bcryptCompare, user, refreshToken);
          return true;
        }
        i := i + 1;
      }
      return false;
    }

    method RevokeSession(user: Id, refreshToken: Text) returns (ghost op: Op)
      modifies this
      ensures op.Revoke? && op.user == user && op.token == refreshToken
      ensures Enabled(old(rows), bcryptCompare, op) && rows == Apply(old(rows), op)
    {
      var sessions := Find(user);
      assert forall k | 0 <= k < |sessions| :: sessions[k] in sessions;
      var i := 0;
      while i < |sessions|
        invariant 0 <= i <= |sessions| && rows == old(rows)
        invariant forall k | 0 <= k < |sessions| :: sessions[k] in Unrevoked(rows, user)
        invariant forall k | 0 <= k < i :: !bcryptCompare(refreshToken, rows[sessions[k]].refreshToken)
      {
        var s := sessions[i];
        if bcryptCompare(refreshToken, rows[s].refreshToken) {
          rows := rows[s := rows[s].(isRevoked := true)];
          op := Revoke(user, refreshToken, Some(s));
          return;
        }
        i := i + 1;
      }
      op := Revoke(user, refreshToken, None);
    }

    method RevokeAllUserSessions(user: Id)
      modifies this
      ensures rows == Apply(old(rows), RevokeAll(user)) && rows.Keys == old(rows).Keys
      ensures forall s | s in rows ::
                rows[s] == if old(rows)[s].userId == user then old(rows)[s].(isRevoked := true) else old(rows)[s]
    {
      rows := map s | s in rows ::
        if rows[s].userId == user && !rows[s].isRevoked then rows[s].(isRevoked := true) else rows[s];
    }

    method CleanupExpiredSessions(now: Time)
      modifies this
      ensures rows == Apply(old(rows), Cleanup(now))
      ensures forall s :: s in rows <==> s in old(rows) && old(rows)[s].expiresAt >= now
      ensures forall s | s in rows :: rows[s] == old(rows)[s]
    {
      rows := map s | s in rows && rows[s].expiresAt >= now :: rows[s];
    }
  }

  // ------------------------------------------------------------- counting, row by row

  /** Revoking takes exactly one row from those that match, when there is one, and changes no
      other row. */
  lemma RevokeTakesOne(rows: SessionTable, compare: Compare, user: Id, token: Text, revoked: Option<Sid>)
    requires Enabled(rows, compare, Revoke(user, token, revoked))
    ensures var after := Apply(rows, Revoke(user, token, revoked));
            var n := |Matching(rows, compare, user, token)|;
            && |Matching(after, compare, user, token)| == (if n > 0 then n - 1 else 0)
            && |Unrevoked(after, user)| == |Unrevoked(rows, user)| - (if n > 0 then 1 else 0)
            && after.Keys == rows.Keys
            && (n == 0 ==> after == rows)
            && (forall s | s in rows && Some(s) != revoked :: after[s] == rows[s])
  {
    var after := Apply(rows, Revoke(user, token, revoked));
    if revoked.Some? {
      var s := revoked.value;
      assert Matching(after, compare, user, token) == Matching(rows, compare, user, token) - {s};
      assert Unrevoked(after, user) == Unrevoked(rows, user) - {s};
    }
  }

  /** Refreshing replaces one unrevoked row of the user by another. */
  lemma RefreshKeepsCount(rows: SessionTable, compare: Compare, user: Id, token: Text, revoked: Option<Sid>,
                          sid: Sid, fresh': Text, hash: Text, device: Text, ip: Text, now: Time, at: Time)
    requires Validates(rows, compare, user, token, now)
    requires Enabled(rows, compare, Revoke(user, token, revoked)) && sid !in rows
    ensures var mid := Apply(rows, Revoke(user, token, revoked));
            var after := Apply(mid, Create(sid, user, fresh', hash, device, ip, at));
            |Unrevoked(after, user)| == |Unrevoked(rows, user)|
            && forall u | u != user :: Unrevoked(after, u) == Unrevoked(rows, u)
  {
    RevokeTakesOne(rows, compare, user, token, revoked);
    var mid := Apply(rows, Revoke(user, token, revoked));
    var after := Apply(mid, Create(sid, user, fresh', hash, device, ip, at));
    assert revoked.Some?;
    assert Unrevoked(after, user) == Unrevoked(mid, user) + {sid};
  }

  // --------------------------------------------------------------------- whole runs

  /** Row ids are never used twice, and no user is given the same token twice. */
  predicate FreshCreations(ops: seq<Op>) {
    forall i, j | 0 <= i < j < |ops| && ops[i].Create? && ops[j].Create? ::
      ops[i].sid != ops[j].sid && (ops[i].user, ops[i].token) != (ops[j].user, ops[j].token)
  }

  /** The tokens a run creates or presents for revocation. */
  function Tokens(ops: seq<Op>): set<Text> {
    set i | 0 <= i < |ops| && (ops[i].Create? || ops[i].Revoke?) :: ops[i].token
  }

  /** Among these tokens, a stored hash is matched by the one it was made from and no other. */
  predicate FaithfulHashes(ops: seq<Op>, compare: Compare, tokens: set<Text>) {
    forall i, t | 0 <= i < |ops| && ops[i].Create? && t in tokens :: compare(t, ops[i].hash) <==> t == ops[i].token
  }

  function TimeOf(op: Op, clock: Time): Time {
    if op.Create? || op.Cleanup? then op.at else clock
  }

  /** The table after a run that starts with no sessions. */
  function After(ops: seq<Op>): SessionTable {
    if ops == [] then map[] else Apply(After(ops[..|ops| - 1]), ops[|ops| - 1])
  }

  /** The clock after a run. */
  function ClockAfter(ops: seq<Op>, zero: Time): Time {
    if ops == [] then zero else TimeOf(ops[|ops| - 1], ClockAfter(ops[..|ops| - 1], zero))
  }

  /** Every operation is possible where it stands, and the clock never goes back. */
  predicate Legal(ops: seq<Op>, compare: Compare, zero: Time) {
    ops == [] || (
      var before, op := ops[..|ops| - 1], ops[|ops| - 1];
      && Legal(before, compare, zero)
      && Enabled(After(before), compare, op)
      && ClockAfter(before, zero) <= TimeOf(op, ClockAfter(before, zero)))
  }

  /** A legal run, with faithful hashes among its own tokens and those of `asked`. */
  predicate GoodRun(ops: seq<Op>, compare: Compare, zero: Time, asked: set<Text>) {
    FreshCreations(ops) && FaithfulHashes(ops, compare, Tokens(ops) + asked) && Legal(ops, compare, zero)
  }

  lemma GoodPrefix(ops: seq<Op>, compare: Compare, zero: Time, asked: set<Text>)
    requires ops != [] && GoodRun(ops, compare, zero, asked)
    ensures GoodRun(ops[..|ops| - 1], compare, zero, asked)
  {
    var before := ops[..|ops| - 1];
    assert forall i | 0 <= i < |before| :: before[i] == ops[i];
    forall t | t in Tokens(before) ensures t in Tokens(ops) {
      var i :| 0 <= i < |before| && (before[i].Create? || before[i].Revoke?) && before[i].token == t;
      assert ops[i].token == t;
    }
  }

  /** The run's `i`-th operation created this token, and nothing later revoked it. */
  predicate Stands(ops: seq<Op>, i: nat, user: Id, token: Text)
    requires i < |ops|
  {
    && ops[i].Create? && ops[i].user == user && ops[i].token == token
    && forall k | i < k < |ops| ::
         !(ops[k].Revoke? && ops[k].user == user && ops[k].token == token)
         && !(ops[k].RevokeAll? && ops[k].user == user)
  }

  /** The row of a creation: still there as created, unless revoked since or expired and
      cleaned up. */
  predicate RowOf(rows: SessionTable, ops: seq<Op>, i: nat, clock: Time)
    requires i < |ops| && ops[i].Create?
  {
    var c := ops[i];
    if c.sid in rows then
      && rows[c.sid].userId == c.user
      && rows[c.sid].refreshToken == c.hash
      && rows[c.sid].expiresAt == c.at + SESSION_TTL
      && (rows[c.sid].isRevoked <==> !Stands(ops, i, c.user, c.token))
    else c.at + SESSION_TTL < clock
  }

  /** What the table is after a run: one row for each creation, and no other row. */
  predicate Describes(rows: SessionTable, ops: seq<Op>, clock: Time) {
    && (forall i | 0 <= i < |ops| && ops[i].Create? :: RowOf(rows, ops, i, clock))
    && (forall s | s in rows :: exists i | 0 <= i < |ops| && ops[i].Create? :: ops[i].sid == s)
  }

  /** How one more operation changes which creations stand. */
  lemma StandsAfter(before: seq<Op>, op: Op, i: nat, user: Id, token: Text)
    requires i < |before|
    ensures Stands(before + [op], i, user, token)
       <==> Stands(before, i, user, token)
            && !(op.Revoke? && op.user == user && op.token == token) && !(op.RevokeAll? && op.user == user)
  {
    var ops := before + [op];
    assert ops[|before|] == op && forall k | 0 <= k < |before| :: ops[k] == before[k];
  }

  lemma DescribesStep(before: seq<Op>, op: Op, compare: Compare, rows: SessionTable, clock: Time)
    requires FreshCreations(before + [op]) && FaithfulHashes(before, compare, Tokens(before + [op]))
    requires Describes(rows, before, clock) && Enabled(rows, compare, op) && clock <= TimeOf(op, clock)
    ensures Describes(Apply(rows, op), before + [op], TimeOf(op, clock))
  {
    var ops, after := before + [op], Apply(rows, op);
    assert forall k | 0 <= k < |before| :: ops[k] == before[k];
    assert ops[|before|] == op;
    forall i | 0 <= i < |ops| && ops[i].Create? ensures RowOf(after, ops, i, TimeOf(op, clock)) {
      if i < |before| {
        assert RowOf(rows, before, i, clock);
        StandsAfter(before, op, i, ops[i].user, ops[i].token);
        if op.Revoke? && before[i].sid in rows {
          TokensGrow(before, op);
          RevokeMeetsToken(before, op, compare, rows, clock, i);
        }
      }
    }
    forall s | s in after ensures exists i | 0 <= i < |ops| && ops[i].Create? :: ops[i].sid == s {
      if s in rows {
        var i :| 0 <= i < |before| && before[i].Create? && before[i].sid == s;
        assert ops[i].sid == s;
      } else {
        assert ops[|before|].sid == s;
      }
    }
  }

  lemma TokensGrow(before: seq<Op>, op: Op)
    requires op.Revoke?
    ensures Tokens(before + [op]) == Tokens(before) + {op.token}
  {
    var ops := before + [op];
    assert ops[|before|] == op && forall i | 0 <= i < |before| :: ops[i] == before[i];
    forall t | t in Tokens(before) + {op.token} ensures t in Tokens(ops) {
      if t in Tokens(before) {
        var i :| 0 <= i < |before| && (before[i].Create? || before[i].Revoke?) && before[i].token == t;
        assert ops[i].token == t;
      }
    }
  }

  /** The row a revocation picks is the row of the token's creation, and when it finds none,
      that creation did not stand or its row was cleaned up. */
  lemma RevokeMeetsToken(before: seq<Op>, op: Op, compare: Compare, rows: SessionTable, clock: Time, i: nat)
    requires FreshCreations(before) && op.Revoke? && FaithfulHashes(before, compare, Tokens(before) + {op.token})
    requires Describes(rows, before, clock) && Enabled(rows, compare, op)
    requires i < |before| && before[i].Create? && before[i].sid in rows
    ensures op.revoked == Some(before[i].sid)
       <==> before[i].user == op.user && before[i].token == op.token && Stands(before, i, op.user, op.token)
  {
    var c := before[i];
    assert RowOf(rows, before, i, clock);
    assert compare(op.token, c.hash) <==> op.token == c.token;
    if c.user == op.user && c.token == op.token && Stands(before, i, op.user, op.token) {
      assert c.sid in Matching(rows, compare, op.user, op.token);
      var s := op.revoked.value;
      var k :| 0 <= k < |before| && before[k].Create? && before[k].sid == s;
      assert RowOf(rows, before, k, clock);
      assert compare(op.token, before[k].hash) <==> op.token == before[k].token;
      assert (before[k].user, before[k].token) == (c.user, c.token);
      assert k == i;
    }
  }

  lemma {:induction false} RunDescribed(ops: seq<Op>, compare: Compare, zero: Time, asked: set<Text>)
    requires GoodRun(ops, compare, zero, asked)
    ensures Describes(After(ops), ops, ClockAfter(ops, zero))
  {
    if ops != [] {
      var before, op := ops[..|ops| - 1], ops[|ops| - 1];
      GoodPrefix(ops, compare, zero, asked);
      RunDescribed(before, compare, zero, asked);
      assert ops == before + [op];
      assert forall i | 0 <= i < |before| :: before[i] == ops[i];
      DescribesStep(before, op, compare, After(before), ClockAfter(before, zero));
    }
  }

  /** Some creation of the token for the user stands and has not expired. */
  predicate Left(ops: seq<Op>, user: Id, token: Text, now: Time) {
    exists i | 0 <= i < |ops| :: Stands(ops, i, user, token) && now < ops[i].at + SESSION_TTL
  }

  /** A token is accepted exactly when some creation gave it to the user less than seven days
      ago and no later operation revoked it or all of the user's sessions. */
  lemma AcceptedIffStanding(ops: seq<Op>, compare: Compare, zero: Time, user: Id, token: Text, now: Time)
    requires GoodRun(ops, compare, zero, {token}) && ClockAfter(ops, zero) <= now
    ensures Validates(After(ops), compare, user, token, now) <==> Left(ops, user, token, now)
  {
    RunDescribed(ops, compare, zero, {token});
    var rows, clock := After(ops), ClockAfter(ops, zero);
    if Validates(rows, compare, user, token, now) {
      var s :| s in Matching(rows, compare, user, token) && rows[s].expiresAt > now;
      var i :| 0 <= i < |ops| && ops[i].Create? && ops[i].sid == s;
      assert RowOf(rows, ops, i, clock);
      assert compare(token, ops[i].hash) <==> token == ops[i].token;
      assert Stands(ops, i, user, token) && now < ops[i].at + SESSION_TTL;
    }
    if i :| 0 <= i < |ops| && Stands(ops, i, user, token) && now < ops[i].at + SESSION_TTL {
      assert RowOf(rows, ops, i, clock);
      assert compare(token, ops[i].hash) <==> token == ops[i].token;
      assert ops[i].sid in Matching(rows, compare, user, token);
    }
  }

  lemma {:induction false} RowsWereCreated(ops: seq<Op>, s: Sid)
    requires s in After(ops)
    ensures exists i | 0 <= i < |ops| && ops[i].Create? :: ops[i].sid == s
  {
    var before, op := ops[..|ops| - 1], ops[|ops| - 1];
    if s in After(before) {
      RowsWereCreated(before, s);
      var i :| 0 <= i < |before| && before[i].Create? && before[i].sid == s;
      assert ops[i] == before[i];
    }
  }

  lemma IdsAreNotReused(ops: seq<Op>, n: nat, s: Sid)
    requires FreshCreations(ops) && n < |ops| && s in After(ops[..n]) && ops[|ops| - 1].Create?
    ensures ops[|ops| - 1].sid != s
  {
    RowsWereCreated(ops[..n], s);
    var i :| 0 <= i < n && ops[..n][i].Create? && ops[..n][i].sid == s;
    assert ops[i] == ops[..n][i];
  }

  /** Over whole runs a revoked row stays as it is until it is deleted, and never returns. */
  lemma {:induction false} RevokedStays(ops: seq<Op>, n: nat, compare: Compare, zero: Time, s: Sid)
    requires FreshCreations(ops) && Legal(ops, compare, zero) && n <= |ops|
    requires s in After(ops[..n]) && After(ops[..n])[s].isRevoked
    ensures s in After(ops) ==> After(ops)[s] == After(ops[..n])[s]
  {
    if n < |ops| {
      var before, op := ops[..|ops| - 1], ops[|ops| - 1];
      assert before[..n] == ops[..n];
      assert forall i | 0 <= i < |before| :: before[i] == ops[i];
      RevokedStays(before, n, compare, zero, s);
      if op.Create? { IdsAreNotReused(ops, n, s); }
    } else {
      assert ops[..n] == ops;
    }
  }

  /** Cleaning up changes no answer given at any later time. */
  lemma CleanupChangesNoAnswer(rows: SessionTable, compare: Compare, at: Time, user: Id, token: Text, now: Time)
    requires at <= now
    ensures Validates(Apply(rows, Cleanup(at)), compare, user, token, now)
       <==> Validates(rows, compare, user, token, now)
  {
    var after := Apply(rows, Cleanup(at));
    if s :| s in Matching(rows, compare, user, token) && rows[s].expiresAt > now {
      assert s in Matching(after, compare, user, token);
    }
    if s :| s in Matching(after, compare, user, token) && after[s].expiresAt > now {
      assert s in Matching(rows, compare, user, token);
    }
  }
}
