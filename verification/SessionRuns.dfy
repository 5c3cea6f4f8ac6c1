/** Which refresh tokens are accepted after any run of requests, said of the requests
    themselves: what was stored, what was presented since, and when. */
module SessionRuns {
  import opened JsText
  import opened Users
  import opened AuthEvents
  import opened AuditReplay
  import S = Sessions

  /** The request stored a token: a login without MFA, or a refresh. */
  predicate Stores(ev: Event) { ev.LoginDone? || ev.Refreshed? }

  predicate StoresFor(ev: Event, user: Id, token: Text) { Stores(ev) && ev.user == user && ev.token == token }

  /** The request presented a token: a logout, or a refresh. */
  predicate Presents(ev: Event) { ev.LoggedOut? || ev.Refreshed? }

  /** The request ends the session of this token: it was presented by its user, or all the
      user's sessions were revoked. */
  predicate Ends(ev: Event, user: Id, token: Text) {
    (Presents(ev) && ev.user == user && ev.presented == token) || (ev.SessionsRevoked? && ev.user == user)
  }

  /** Row ids are never used twice, and no user is given the same token twice. */
  predicate FreshStores(evs: seq<Event>) {
    forall i, j | 0 <= i < j < |evs| && Stores(evs[i]) && Stores(evs[j]) ::
      evs[i].sid != evs[j].sid && (evs[i].user, evs[i].token) != (evs[j].user, evs[j].token)
  }

  predicate Mentions(ev: Event, token: Text) {
    (Stores(ev) && ev.token == token) || (Presents(ev) && ev.presented == token)
  }

  function Mentioned(evs: seq<Event>): set<Text> {
    (set i | 0 <= i < |evs| && Stores(evs[i]) :: evs[i].token)
    + (set i | 0 <= i < |evs| && Presents(evs[i]) :: evs[i].presented)
  }

  /** Among the tokens of the run and the one asked about, a stored hash is matched by the one
      it was made from and no other. */
  predicate TrueHashes(evs: seq<Event>, compare: S.Compare, asked: Text) {
    forall i, t | 0 <= i < |evs| && Stores(evs[i]) && t in Mentioned(evs) + {asked} ::
      compare(t, evs[i].hash) <==> t == evs[i].token
  }

  /** The `i`-th request stored the token for the user, and no later one ended its session. */
  predicate Lives(evs: seq<Event>, i: nat, user: Id, token: Text)
    requires i < |evs|
  {
    StoresFor(evs[i], user, token) && forall k | i < k < |evs| :: !Ends(evs[k], user, token)
  }

  // ------------------------------------------------------ what each request does to sessions

  /** The operation is this request's. */
  predicate Owned(op: S.Op, ev: Event) {
    && (op.Create? ==> Stores(ev) && op.sid == ev.sid && op.user == ev.user && op.token == ev.token
                       && op.hash == ev.hash && op.at == ev.at)
    && (op.Revoke? ==> Presents(ev) && op.user == ev.user && op.token == ev.presented)
    && (op.RevokeAll? ==> ev.SessionsRevoked? && op.user == ev.user)
  }

  lemma OpsOfEvent(ev: Event)
    ensures forall p | 0 <= p < |SessionOps(ev)| :: Owned(SessionOps(ev)[p], ev)
    ensures |SessionOps(ev)| <= 2
    ensures |SessionOps(ev)| == 2 ==> !SessionOps(ev)[0].Create?
  {
  }

  lemma {:induction false} OpOwner(evs: seq<Event>, p: nat)
    requires p < |AllOps(evs)|
    ensures exists i | 0 <= i < |evs| :: Owned(AllOps(evs)[p], evs[i])
  {
    var before, ev := evs[..|evs| - 1], evs[|evs| - 1];
    if p < |AllOps(before)| {
      OpOwner(before, p);
      var i :| 0 <= i < |before| && Owned(AllOps(before)[p], before[i]);
      assert evs[i] == before[i];
    } else {
      OpsOfEvent(ev);
      assert AllOps(evs)[p] == SessionOps(ev)[p - |AllOps(before)|];
      assert Owned(AllOps(evs)[p], evs[|evs| - 1]);
    }
  }

  lemma FreshPrefix(evs: seq<Event>)
    requires evs != [] && FreshStores(evs)
    ensures FreshStores(evs[..|evs| - 1])
  {
    assert forall i | 0 <= i < |evs| - 1 :: evs[..|evs| - 1][i] == evs[i];
  }

  lemma {:induction false} CreationsAreFresh(evs: seq<Event>)
    requires FreshStores(evs)
    ensures S.FreshCreations(AllOps(evs))
  {
    if evs != [] {
      var before, ev := evs[..|evs| - 1], evs[|evs| - 1];
      FreshPrefix(evs);
      CreationsAreFresh(before);
      OpsOfEvent(ev);
      var ops, more := AllOps(before), SessionOps(ev);
      forall i, j | 0 <= i < |ops| && 0 <= j < |more| && ops[i].Create? && more[j].Create?
        ensures ops[i].sid != more[j].sid && (ops[i].user, ops[i].token) != (more[j].user, more[j].token)
      {
        OpOwner(before, i);
        var k :| 0 <= k < |before| && Owned(ops[i], before[k]);
        assert evs[k] == before[k] && Owned(more[j], ev);
      }
      FreshJoin(ops, more);
    }
  }

  lemma FreshJoin(ops: seq<S.Op>, more: seq<S.Op>)
    requires S.FreshCreations(ops) && |more| <= 2 && (|more| == 2 ==> !more[0].Create?)
    requires forall i, j | 0 <= i < |ops| && 0 <= j < |more| && ops[i].Create? && more[j].Create? ::
               ops[i].sid != more[j].sid && (ops[i].user, ops[i].token) != (more[j].user, more[j].token)
    ensures S.FreshCreations(ops + more)
  {
    var all := ops + more;
    assert forall i | 0 <= i < |ops| :: all[i] == ops[i];
    assert forall j | |ops| <= j < |all| :: all[j] == more[j - |ops|];
  }

  lemma TokensAreMentioned(evs: seq<Event>, t: Text)
    requires t in S.Tokens(AllOps(evs))
    ensures t in Mentioned(evs)
  {
    var ops := AllOps(evs);
    var p :| 0 <= p < |ops| && (ops[p].Create? || ops[p].Revoke?) && ops[p].token == t;
    OpOwner(evs, p);
    var i :| 0 <= i < |evs| && Owned(ops[p], evs[i]);
    assert Mentions(evs[i], t);
  }

  lemma HashesAreFaithful(evs: seq<Event>, compare: S.Compare, asked: Text)
    requires TrueHashes(evs, compare, asked)
    ensures S.FaithfulHashes(AllOps(evs), compare, S.Tokens(AllOps(evs)) + {asked})
  {
    var ops := AllOps(evs);
    forall p, t | 0 <= p < |ops| && ops[p].Create? && t in S.Tokens(ops) + {asked}
      ensures compare(t, ops[p].hash) <==> t == ops[p].token
    {
      OpOwner(evs, p);
      var i :| 0 <= i < |evs| && Owned(ops[p], evs[i]);
      if t in S.Tokens(ops) { TokensAreMentioned(evs, t); }
      assert t in Mentioned(evs) + {asked} && Stores(evs[i]);
      assert compare(t, evs[i].hash) <==> t == evs[i].token;
    }
  }

  // --------------------------------------------------------------- which sessions are left

  const WEEK: Time := 7 * 24 * 60 * 60 * 1000

  predicate Left(evs: seq<Event>, user: Id, token: Text, now: Time) {
    exists i | 0 <= i < |evs| :: Lives(evs, i, user, token) && now < evs[i].at + WEEK
  }

  predicate OpEnds(op: S.Op, user: Id, token: Text) {
    (op.Revoke? && op.user == user && op.token == token) || (op.RevokeAll? && op.user == user)
  }

  predicate OpStores(op: S.Op, user: Id, token: Text, now: Time) {
    op.Create? && op.user == user && op.token == token && now < op.at + WEEK
  }

  lemma OpLeftAfter(ops: seq<S.Op>, op: S.Op, user: Id, token: Text, now: Time)
    ensures S.Left(ops + [op], user, token, now)
       <==> (S.Left(ops, user, token, now) && !OpEnds(op, user, token)) || OpStores(op, user, token, now)
  {
    var all := ops + [op];
    assert all[|ops|] == op && forall k | 0 <= k < |ops| :: all[k] == ops[k];
    if S.Left(ops, user, token, now) && !OpEnds(op, user, token) {
      var i :| 0 <= i < |ops| && S.Stands(ops, i, user, token) && now < ops[i].at + S.SESSION_TTL;
      S.StandsAfter(ops, op, i, user, token);
    }
    if OpStores(op, user, token, now) { assert S.Stands(all, |ops|, user, token); }
    if S.Left(all, user, token, now) {
      var i :| 0 <= i < |all| && S.Stands(all, i, user, token) && now < all[i].at + S.SESSION_TTL;
      if i < |ops| { S.StandsAfter(ops, op, i, user, token); }
    }
  }

  lemma LeftAfter(before: seq<Event>, ev: Event, user: Id, token: Text, now: Time)
    ensures Left(before + [ev], user, token, now)
       <==> (Left(before, user, token, now) && !Ends(ev, user, token))
            || (StoresFor(ev, user, token) && now < ev.at + WEEK)
  {
    var evs := before + [ev];
    assert evs[|before|] == ev && forall k | 0 <= k < |before| :: evs[k] == before[k];
    forall i | 0 <= i < |before|
      ensures Lives(evs, i, user, token) <==> Lives(before, i, user, token) && !Ends(ev, user, token)
    {
      if Lives(before, i, user, token) && !Ends(ev, user, token) {
        assert forall k | i < k < |evs| :: !Ends(evs[k], user, token);
      }
      if Lives(evs, i, user, token) { assert !Ends(evs[|before|], user, token); }
    }
    if Left(before, user, token, now) && !Ends(ev, user, token) {
      var i :| 0 <= i < |before| && Lives(before, i, user, token) && now < before[i].at + WEEK;
      assert Lives(evs, i, user, token);
    }
    if StoresFor(ev, user, token) && now < ev.at + WEEK { assert Lives(evs, |before|, user, token); }
  }

  /** What one request's operations come to is what the request itself does: a presented token
      ends, a stored one begins. */
  lemma RequestOps(ops: seq<S.Op>, ev: Event, user: Id, token: Text, now: Time)
    ensures S.Left(ops + SessionOps(ev), user, token, now)
       <==> (S.Left(ops, user, token, now) && !Ends(ev, user, token))
            || (StoresFor(ev, user, token) && now < ev.at + WEEK)
  {
    var more := SessionOps(ev);
    if more == [] {
      assert ops + more == ops;
    } else if |more| == 1 {
      assert more == [more[0]];
      OpLeftAfter(ops, more[0], user, token, now);
    } else {
      assert ops + more == (ops + [more[0]]) + [more[1]];
      OpLeftAfter(ops, more[0], user, token, now);
      OpLeftAfter(ops + [more[0]], more[1], user, token, now);
    }
  }

  lemma {:induction false} SameLeft(evs: seq<Event>, user: Id, token: Text, now: Time)
    ensures S.Left(AllOps(evs), user, token, now) <==> Left(evs, user, token, now)
  {
    if evs != [] {
      var before, ev := evs[..|evs| - 1], evs[|evs| - 1];
      SameLeft(before, user, token, now);
      RequestOps(AllOps(before), ev, user, token, now);
      LeftAfter(before, ev, user, token, now);
      assert evs == before + [ev];
    }
  }

  /** After any run of requests, a token is accepted for a user if and only if a login or a
      refresh stored it for the user less than seven days ago, no later logout or refresh of
      the user presented it, and the user's sessions were not revoked since. */
  lemma TokenAcceptedIff(evs: seq<Event>, compare: S.Compare, clock: Time, user: Id, token: Text, now: Time)
    requires Legal(EMPTY, evs, compare, clock) && ClockAfter(evs, clock) <= now
    requires FreshStores(evs) && TrueHashes(evs, compare, token)
    ensures S.Validates(After(EMPTY, evs).sessions, compare, user, token, now)
       <==> exists i | 0 <= i < |evs| ::
              Lives(evs, i, user, token) && now < evs[i].at + 7 * 24 * 60 * 60 * 1000
  {
    CreationsAreFresh(evs);
    HashesAreFaithful(evs, compare, token);
    TokenAcceptedIffStanding(evs, compare, clock, user, token, now);
    SameLeft(evs, user, token, now);
  }

  /** In particular a token is refused once it was presented to log out. */
  lemma LoggedOutIsRefused(evs: seq<Event>, k: nat, compare: S.Compare, clock: Time, now: Time)
    requires Legal(EMPTY, evs, compare, clock) && ClockAfter(evs, clock) <= now
    requires k < |evs| && evs[k].LoggedOut?
    requires FreshStores(evs) && TrueHashes(evs, compare, evs[k].presented)
    requires forall i | k < i < |evs| :: !StoresFor(evs[i], evs[k].user, evs[k].presented)
    ensures !S.Validates(After(EMPTY, evs).sessions, compare, evs[k].user, evs[k].presented, now)
  {
    var user, token := evs[k].user, evs[k].presented;
    TokenAcceptedIff(evs, compare, clock, user, token, now);
    assert Ends(evs[k], user, token);
    NoneLives(evs, k, user, token);
  }

  lemma NoneLives(evs: seq<Event>, k: nat, user: Id, token: Text)
    requires k < |evs| && Ends(evs[k], user, token) && !StoresFor(evs[k], user, token)
    requires forall i | k < i < |evs| :: !StoresFor(evs[i], user, token)
    ensures forall i | 0 <= i < |evs| :: !Lives(evs, i, user, token)
  {
  }

  /** And so is a text that was never stored for the user, among them the signed refresh token
      a login or refresh returns, which is not the one it stores. */
  lemma UnstoredIsRefused(evs: seq<Event>, compare: S.Compare, clock: Time, user: Id, jwt: Text, now: Time)
    requires Legal(EMPTY, evs, compare, clock) && ClockAfter(evs, clock) <= now
    requires FreshStores(evs) && TrueHashes(evs, compare, jwt)
    requires forall i | 0 <= i < |evs| :: !StoresFor(evs[i], user, jwt)
    ensures !S.Validates(After(EMPTY, evs).sessions, compare, user, jwt, now)
  {
    TokenAcceptedIff(evs, compare, clock, user, jwt, now);
  }
}
