/** The tables against the events: the audit log retells the failure counters and the
    number of sessions, and sessions stand as the session theorem says. */
module AuditReplay {
  import opened JsText
  import opened Option
  import opened Users
  import opened AuthEvents
  import S = Sessions

  /** The audit log with the admin's resets, which are not audited, marked in it. */
  datatype Item = Logged(row: AuditRow) | AdminMark(user: Id)

  function ItemsOf(ev: Event): seq<Item> {
    if AuditOf(ev) != [] then [Logged(AuditOf(ev)[0])]
    else if ev.UnlockedByAdmin? || ev.ResetByAdmin? then [AdminMark(ev.user)]
    else []
  }

  function Journal(evs: seq<Event>): seq<Item> {
    if evs == [] then [] else Journal(evs[..|evs| - 1]) + ItemsOf(evs[|evs| - 1])
  }

  function RowsIn(items: seq<Item>): seq<AuditRow> {
    if items == [] then []
    else
      var last := items[|items| - 1];
      RowsIn(items[..|items| - 1]) + (if last.Logged? then [last.row] else [])
  }

  /** The failed logins of a user since the last entry that sets the counter back. */
  function Replay(items: seq<Item>, user: Id): nat {
    if items == [] then 0
    else
      Count(items[|items| - 1], Replay(items[..|items| - 1], user), user)
  }

  /** What one item makes of a user's count `n`. */
  function Count(item: Item, n: nat, user: Id): nat {
    match item
    case AdminMark(u) => if u == user then 0 else n
    case Logged(row) =>
      if row.userId != Some(user) then n
      else if row.action == LOGIN_FAILED then n + 1
      else if row.action == LOGIN_SUCCESS || row.action == MFA_PENDING then 0
      else n
  }

  lemma ItemsAppend(items: seq<Item>, more: seq<Item>, user: Id)
    requires |more| <= 1
    ensures RowsIn(items + more) == RowsIn(items) + (if more != [] && more[0].Logged? then [more[0].row] else [])
    ensures Replay(items + more, user)
         == if more == [] then Replay(items, user) else Count(more[0], Replay(items, user), user)
  {
    if more == [] {
      assert items + more == items;
    } else {
      assert (items + more)[..|items|] == items;
    }
  }

  /** The item of an event and what it counts for. */
  lemma ItemOf(ev: Event, n: nat, user: Id)
    ensures var more := ItemsOf(ev);
            && |more| <= 1
            && AuditOf(ev) == (if more != [] && more[0].Logged? then [more[0].row] else [])
            && (if more == [] then n else Count(more[0], n, user)) == Counted(ev, n, user)
  {
  }

  /** What an event makes of a user's failure counter `n`. */
  function Counted(ev: Event, n: nat, user: Id): nat {
    if ev.LoginWrong? && ev.user == user then n + 1
    else if (ev.LoginPending? || ev.LoginDone? || ev.UnlockedByAdmin? || ev.ResetByAdmin?) && ev.user == user then 0
    else n
  }

  lemma JournalStep(items: seq<Item>, ev: Event, user: Id)
    ensures RowsIn(items + ItemsOf(ev)) == RowsIn(items) + AuditOf(ev)
    ensures Replay(items + ItemsOf(ev), user) == Counted(ev, Replay(items, user), user)
  {
    ItemOf(ev, Replay(items, user), user);
    ItemsAppend(items, ItemsOf(ev), user);
  }

  lemma CounterStep(u: User, ev: Event)
    requires HasUser(ev)
    ensures Changed(u, ev).failedAttempts == Counted(ev, u.failedAttempts, ev.user)
  {
  }

  /** A user's counter, 0 for one that does not exist yet. */
  function Counter(users: Table, id: Id): nat {
    if id in users then users[id].failedAttempts else 0
  }

  lemma TableCounterStep(w: World, ev: Event, compare: S.Compare, id: Id)
    requires Enabled(w, ev, compare)
    ensures Counter(Apply(w, ev).users, id) == Counted(ev, Counter(w.users, id), id)
  {
    if id in w.users && HasUser(ev) { CounterStep(w.users[id], ev); }
  }

  /** After any run from empty tables, the audit log holds exactly the entries of the
      journal, and every user's failure counter is what replaying the journal counts. */
  lemma {:induction false} AuditTellsTheCounters(evs: seq<Event>, compare: S.Compare, clock: Time, id: Id)
    requires Legal(EMPTY, evs, compare, clock)
    ensures After(EMPTY, evs).audit == RowsIn(Journal(evs))
    ensures Counter(After(EMPTY, evs).users, id) == Replay(Journal(evs), id)
  {
    if evs != [] {
      var before, ev := evs[..|evs| - 1], evs[|evs| - 1];
      AuditTellsTheCounters(before, compare, clock, id);
      JournalStep(Journal(before), ev, id);
      TableCounterStep(After(EMPTY, before), ev, compare, id);
    }
  }

  // ------------------------------------------------------------------------- sessions

  function AllOps(evs: seq<Event>): seq<S.Op> {
    if evs == [] then [] else AllOps(evs[..|evs| - 1]) + SessionOps(evs[|evs| - 1])
  }

  function Creations(ops: seq<S.Op>): nat {
    if ops == [] then 0 else Creations(ops[..|ops| - 1]) + (if ops[|ops| - 1].Create? then 1 else 0)
  }

  function Entries(rows: seq<AuditRow>, action: Action): nat {
    if rows == [] then 0
    else Entries(rows[..|rows| - 1], action) + (if rows[|rows| - 1].action == action then 1 else 0)
  }

  lemma {:induction false} CreationsAppend(ops: seq<S.Op>, more: seq<S.Op>)
    ensures Creations(ops + more) == Creations(ops) + Creations(more)
  {
    if more == [] {
      assert ops + more == ops;
    } else {
      var n := |more| - 1;
      CreationsAppend(ops, more[..n]);
      assert (ops + more)[..|ops| + n] == ops + more[..n];
    }
  }

  lemma {:induction false} EntriesAppend(rows: seq<AuditRow>, more: seq<AuditRow>, action: Action)
    ensures Entries(rows + more, action) == Entries(rows, action) + Entries(more, action)
  {
    if more == [] {
      assert rows + more == rows;
    } else {
      var n := |more| - 1;
      EntriesAppend(rows, more[..n], action);
      assert (rows + more)[..|rows| + n] == rows + more[..n];
    }
  }

  lemma CreationsOfFew(ops: seq<S.Op>)
    requires |ops| <= 2
    ensures Creations(ops)
         == (if |ops| > 0 && ops[0].Create? then 1 else 0) + (if |ops| > 1 && ops[1].Create? then 1 else 0)
  {
    if |ops| == 2 {
      assert ops[..1][0] == ops[0];
      CreationsOfFew(ops[..1]);
    }
  }

  lemma CreationsOf(ev: Event)
    ensures Creations(SessionOps(ev)) == if ev.LoginDone? || ev.Refreshed? then 1 else 0
  {
    CreationsOfFew(SessionOps(ev));
  }

  lemma EntriesOfFew(rows: seq<AuditRow>, action: Action)
    requires |rows| <= 1
    ensures Entries(rows, action) == if rows != [] && rows[0].action == action then 1 else 0
  {
  }

  lemma EntriesOf(ev: Event, action: Action)
    requires action == LOGIN_SUCCESS || action == TOKEN_REFRESH
    ensures Entries(AuditOf(ev), action)
         == if (if action == LOGIN_SUCCESS then ev.LoginDone? else ev.Refreshed?) then 1 else 0
  {
    EntriesOfFew(AuditOf(ev), action);
  }

  /** The sessions ever created are the LOGIN_SUCCESS and TOKEN_REFRESH entries. */
  lemma {:induction false} AuditTellsTheSessions(evs: seq<Event>)
    ensures Creations(AllOps(evs))
         == Entries(After(EMPTY, evs).audit, LOGIN_SUCCESS) + Entries(After(EMPTY, evs).audit, TOKEN_REFRESH)
  {
    if evs != [] {
      var before, ev := evs[..|evs| - 1], evs[|evs| - 1];
      AuditTellsTheSessions(before);
      var rows := After(EMPTY, before).audit;
      CreationsAppend(AllOps(before), SessionOps(ev));
      CreationsOf(ev);
      EntriesAppend(rows, AuditOf(ev), LOGIN_SUCCESS);
      EntriesAppend(rows, AuditOf(ev), TOKEN_REFRESH);
      EntriesOf(ev, LOGIN_SUCCESS);
      EntriesOf(ev, TOKEN_REFRESH);
    }
  }

  /** The event is a login, however it ended. */
  predicate IsLogin(ev: Event) {
    ev.LoginUnknown? || ev.LoginRefused? || ev.LoginWrong? || ev.LoginPending? || ev.LoginDone?
  }

  function Logins(evs: seq<Event>): nat {
    if evs == [] then 0 else Logins(evs[..|evs| - 1]) + (if IsLogin(evs[|evs| - 1]) then 1 else 0)
  }

  function LoginEntries(rows: seq<AuditRow>): nat {
    Entries(rows, LOGIN_FAILED) + Entries(rows, LOGIN_LOCKED)
    + Entries(rows, MFA_PENDING) + Entries(rows, LOGIN_SUCCESS)
  }

  lemma LoginEntriesAppend(rows: seq<AuditRow>, more: seq<AuditRow>)
    ensures LoginEntries(rows + more) == LoginEntries(rows) + LoginEntries(more)
  {
    EntriesAppend(rows, more, LOGIN_FAILED);
    EntriesAppend(rows, more, LOGIN_LOCKED);
    EntriesAppend(rows, more, MFA_PENDING);
    EntriesAppend(rows, more, LOGIN_SUCCESS);
  }

  lemma LoginEntriesOf(ev: Event)
    ensures LoginEntries(AuditOf(ev)) == if IsLogin(ev) then 1 else 0
  {
    EntriesOfFew(AuditOf(ev), LOGIN_FAILED);
    EntriesOfFew(AuditOf(ev), LOGIN_LOCKED);
    EntriesOfFew(AuditOf(ev), MFA_PENDING);
    EntriesOfFew(AuditOf(ev), LOGIN_SUCCESS);
  }

  /** Every login, however it ended, left exactly one audit entry, and nothing else did. */
  lemma {:induction false} AuditTellsTheLogins(evs: seq<Event>)
    ensures LoginEntries(After(EMPTY, evs).audit) == Logins(evs)
  {
    if evs != [] {
      var before, ev := evs[..|evs| - 1], evs[|evs| - 1];
      AuditTellsTheLogins(before);
      LoginEntriesAppend(After(EMPTY, before).audit, AuditOf(ev));
      LoginEntriesOf(ev);
    }
  }

  lemma SessionAppend(ops: seq<S.Op>, op: S.Op, compare: S.Compare, clock: Time)
    requires S.Legal(ops, compare, clock) && S.Enabled(S.After(ops), compare, op)
    requires S.ClockAfter(ops, clock) <= S.TimeOf(op, S.ClockAfter(ops, clock))
    ensures S.Legal(ops + [op], compare, clock)
    ensures S.After(ops + [op]) == S.Apply(S.After(ops), op)
    ensures S.ClockAfter(ops + [op], clock) == S.TimeOf(op, S.ClockAfter(ops, clock))
  {
    assert (ops + [op])[..|ops|] == ops;
  }

  /** When the event does one thing to the sessions, that is possible and in time. */
  lemma OneOp(w: World, ev: Event, compare: S.Compare, now: Time)
    requires |SessionOps(ev)| == 1 && Enabled(w, ev, compare) && Timely(ev) && now <= Start(ev)
    ensures S.Enabled(w.sessions, compare, SessionOps(ev)[0])
    ensures now <= S.TimeOf(SessionOps(ev)[0], now) <= ev.at
  {
  }

  lemma AppendOne(w: World, ops: seq<S.Op>, op: S.Op, compare: S.Compare, clock: Time, at: Time)
    requires S.Legal(ops, compare, clock) && S.After(ops) == w.sessions && S.Enabled(w.sessions, compare, op)
    requires S.ClockAfter(ops, clock) <= S.TimeOf(op, S.ClockAfter(ops, clock)) <= at
    ensures S.Legal(ops + [op], compare, clock) && S.After(ops + [op]) == S.Apply(w.sessions, op)
    ensures S.ClockAfter(ops + [op], clock) <= at
  {
    SessionAppend(ops, op, compare, clock);
  }

  lemma RefreshStep(w: World, ops: seq<S.Op>, ev: Event, compare: S.Compare, clock: Time)
    requires S.Legal(ops, compare, clock) && S.After(ops) == w.sessions && ev.Refreshed?
    requires S.ClockAfter(ops, clock) <= Start(ev) <= ev.at && Enabled(w, ev, compare)
    ensures var all := ops + SessionOps(ev);
            && S.Legal(all, compare, clock) && S.After(all) == Apply(w, ev).sessions
            && S.ClockAfter(all, clock) <= ev.at
  {
    var more := SessionOps(ev);
    var mid := World(w.users, S.Apply(w.sessions, more[0]), w.audit);
    AppendOne(w, ops, more[0], compare, clock, ev.at);
    assert ev.sid !in mid.sessions;
    AppendOne(mid, ops + [more[0]], more[1], compare, clock, ev.at);
    assert ops + more == ops + [more[0]] + [more[1]];
    ApplyTwo(w.sessions, more[0], more[1]);
  }

  lemma SingleStep(w: World, ops: seq<S.Op>, ev: Event, compare: S.Compare, clock: Time)
    requires S.Legal(ops, compare, clock) && S.After(ops) == w.sessions && |SessionOps(ev)| == 1
    requires S.ClockAfter(ops, clock) <= Start(ev) && Timely(ev) && Enabled(w, ev, compare)
    ensures var all := ops + SessionOps(ev);
            && S.Legal(all, compare, clock) && S.After(all) == Apply(w, ev).sessions
            && S.ClockAfter(all, clock) <= ev.at
  {
    var op := SessionOps(ev)[0];
    OneOp(w, ev, compare, S.ClockAfter(ops, clock));
    AppendOne(w, ops, op, compare, clock, ev.at);
    assert SessionOps(ev) == [op];
    ApplyOne(w.sessions, op);
  }

  lemma SessionStep(w: World, ops: seq<S.Op>, ev: Event, compare: S.Compare, clock: Time, now: Time)
    requires S.Legal(ops, compare, clock) && S.After(ops) == w.sessions
    requires S.ClockAfter(ops, clock) <= now <= Start(ev)
    requires Enabled(w, ev, compare) && Timely(ev)
    ensures var all := ops + SessionOps(ev);
            && S.Legal(all, compare, clock) && S.After(all) == Apply(w, ev).sessions
            && S.ClockAfter(all, clock) <= ev.at
  {
    var more := SessionOps(ev);
    if more == [] {
      assert ops + more == ops;
    } else if ev.Refreshed? {
      RefreshStep(w, ops, ev, compare, clock);
    } else {
      SingleStep(w, ops, ev, compare, clock);
    }
  }

  /** The sessions table of a run of requests is that of a legal run of session operations. */
  lemma {:induction false} RunsAreSessionRuns(evs: seq<Event>, compare: S.Compare, clock: Time)
    requires Legal(EMPTY, evs, compare, clock)
    ensures S.Legal(AllOps(evs), compare, clock)
    ensures S.After(AllOps(evs)) == After(EMPTY, evs).sessions
    ensures S.ClockAfter(AllOps(evs), clock) <= ClockAfter(evs, clock)
  {
    if evs != [] {
      var before, ev := evs[..|evs| - 1], evs[|evs| - 1];
      RunsAreSessionRuns(before, compare, clock);
      SessionStep(After(EMPTY, before), AllOps(before), ev, compare, clock, ClockAfter(before, clock));
    }
  }

  /** After any run of requests, a presented token is accepted exactly when a login or refresh
      stored it for the user less than seven days ago and no refresh, logout or revocation of
      it, nor a revocation of all the user's sessions, came later. */
  lemma TokenAcceptedIffStanding(evs: seq<Event>, compare: S.Compare, clock: Time, user: Id, token: Text, now: Time)
    requires Legal(EMPTY, evs, compare, clock) && ClockAfter(evs, clock) <= now
    requires S.FreshCreations(AllOps(evs))
    requires S.FaithfulHashes(AllOps(evs), compare, S.Tokens(AllOps(evs)) + {token})
    ensures S.Validates(After(EMPTY, evs).sessions, compare, user, token, now)
       <==> S.Left(AllOps(evs), user, token, now)
  {
    RunsAreSessionRuns(evs, compare, clock);
    S.AcceptedIffStanding(AllOps(evs), compare, clock, user, token, now);
  }

  /** A successful refresh keeps the number of sessions the user has open, and of every other. */
  lemma RefreshKeepsOpenSessions(w: World, ev: Event, compare: S.Compare)
    requires ev.Refreshed? && Enabled(w, ev, compare)
    ensures |S.Unrevoked(Apply(w, ev).sessions, ev.user)| == |S.Unrevoked(w.sessions, ev.user)|
    ensures forall u | u != ev.user :: S.Unrevoked(Apply(w, ev).sessions, u) == S.Unrevoked(w.sessions, u)
  {
    var ops := SessionOps(ev);
    ApplyTwo(w.sessions, ops[0], ops[1]);
    S.RefreshKeepsCount(w.sessions, compare, ev.user, ev.presented, ev.revoked,
      ev.sid, ev.token, ev.hash, ev.from.device, ev.from.ip, ev.check, ev.at);
  }
}
