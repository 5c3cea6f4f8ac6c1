/** Where the token pairs of the verify endpoints come from: each from its own pending
    login of the same user, not more than five minutes before. */
module MfaProvenance {
  import opened Option
  import opened Users
  import opened AuthEvents
  import S = Sessions

  predicate Begins(ev: Event, user: Id) { ev.LoginPending? && ev.user == user }

  predicate Issues(ev: Event, user: Id) { ev.MfaDone? && ev.user == user }

  /** The events after which the user's temporary token is gone or another one. */
  predicate EndsPending(ev: Event, user: Id) {
    (ev.LoginPending? || ev.MfaDone? || ev.MfaDisabled? || ev.ResetByAdmin?) && ev.user == user
  }

  /** The pending login of a user that is still open after a run. */
  function Pending(evs: seq<Event>, user: Id): (i: Option<nat>)
    ensures i.Some? ==> i.value < |evs| && Begins(evs[i.value], user)
    ensures i.Some? ==> forall k | i.value < k < |evs| :: !EndsPending(evs[k], user)
  {
    if evs == [] then None
    else
      var n := |evs| - 1;
      if Begins(evs[n], user) then Some(n)
      else if EndsPending(evs[n], user) then None
      else
        var i := Pending(evs[..n], user);
        assert i.Some? ==> evs[..n][i.value] == evs[i.value];
        assert i.Some? ==> forall k | i.value < k < n :: evs[..n][k] == evs[k];
        i
  }

  predicate NoTokens(w: World) {
    forall id | id in w.users :: w.users[id].mfaTempToken.None? && w.users[id].mfaTempTokenExpires.None?
  }

  /** A row's temporary token is that of the open pending login, and no other. */
  predicate TokenIsPending(u: User, evs: seq<Event>, id: Id) {
    var i := Pending(evs, id);
    && u.mfaTempToken == (if i.Some? then Some(evs[i.value].token) else None)
    && u.mfaTempTokenExpires == (if i.Some? then Some(evs[i.value].at + TEMP_TOKEN_TTL) else None)
  }

  predicate TokensArePending(w: World, evs: seq<Event>) {
    forall id | id in w.users :: TokenIsPending(w.users[id], evs, id)
  }

  lemma PendingAppend(before: seq<Event>, ev: Event, user: Id)
    ensures Pending(before + [ev], user)
         == if Begins(ev, user) then Some(|before|)
            else if EndsPending(ev, user) then None else Pending(before, user)
  {
    assert (before + [ev])[..|before|] == before;
  }

  lemma TokensStep(w: World, before: seq<Event>, ev: Event, compare: S.Compare)
    requires TokensArePending(w, before) && Enabled(w, ev, compare)
    requires ev.UserCreated? ==> Pending(before, ev.user).None?
    ensures TokensArePending(Apply(w, ev), before + [ev])
  {
    forall id | id in Apply(w, ev).users ensures TokenIsPending(Apply(w, ev).users[id], before + [ev], id) {
      if id in w.users {
        RowTokenStep(w.users[id], before, ev, id);
      } else {
        PendingAppend(before, ev, id);
      }
    }
  }

  lemma RowTokenStep(u: User, before: seq<Event>, ev: Event, id: Id)
    requires TokenIsPending(u, before, id)
    ensures TokenIsPending(if HasUser(ev) && ev.user == id then Changed(u, ev) else u, before + [ev], id)
  {
    PendingAppend(before, ev, id);
    TokenStep(u, ev);
    var i := Pending(before, id);
    assert i.Some? ==> (before + [ev])[i.value] == before[i.value];
  }

  lemma TokensLast(w: World, evs: seq<Event>, compare: S.Compare)
    requires evs != []
    requires var before, ev := evs[..|evs| - 1], evs[|evs| - 1];
             && TokensArePending(After(w, before), before) && Enabled(After(w, before), ev, compare)
             && (ev.UserCreated? ==> Pending(before, ev.user).None?)
    ensures TokensArePending(After(w, evs), evs)
  {
    var before, ev := evs[..|evs| - 1], evs[|evs| - 1];
    TokensStep(After(w, before), before, ev, compare);
    assert evs == before + [ev];
  }

  /** One event's effect on the token of the row it is about. */
  lemma TokenStep(u: User, ev: Event)
    ensures var v := Changed(u, ev);
            if ev.LoginPending?
            then v.mfaTempToken == Some(ev.token) && v.mfaTempTokenExpires == Some(ev.at + TEMP_TOKEN_TTL)
            else if ev.MfaDone? || ev.MfaDisabled? || ev.ResetByAdmin?
            then v.mfaTempToken.None? && v.mfaTempTokenExpires.None?
            else v.mfaTempToken == u.mfaTempToken && v.mfaTempTokenExpires == u.mfaTempTokenExpires
  {
  }

  lemma UnknownBefore(v: World, ev: Event, compare: S.Compare, user: Id)
    requires Enabled(v, ev, compare) && user !in Apply(v, ev).users
    ensures user !in v.users && !Begins(ev, user)
  {
  }

  /** Nothing is pending for a user that does not exist. */
  lemma {:induction false} UnknownHasNothingPending(w: World, evs: seq<Event>, compare: S.Compare, clock: Time,
                                                    user: Id)
    requires Legal(w, evs, compare, clock) && user !in After(w, evs).users
    ensures Pending(evs, user).None?
  {
    if evs != [] {
      var before, ev := evs[..|evs| - 1], evs[|evs| - 1];
      UnknownBefore(After(w, before), ev, compare, user);
      UnknownHasNothingPending(w, before, compare, clock, user);
      assert evs == before + [ev];
      PendingAppend(before, ev, user);
    }
  }

  lemma {:induction false} RunTokensArePending(w: World, evs: seq<Event>, compare: S.Compare, clock: Time)
    requires NoTokens(w) && Legal(w, evs, compare, clock)
    ensures TokensArePending(After(w, evs), evs)
  {
    if evs != [] {
      var before, ev := evs[..|evs| - 1], evs[|evs| - 1];
      RunTokensArePending(w, before, compare, clock);
      if ev.UserCreated? { UnknownHasNothingPending(w, before, compare, clock, ev.user); }
      TokensLast(w, evs, compare);
    }
  }

  lemma {:induction false} LegalPrefix(w: World, evs: seq<Event>, compare: S.Compare, clock: Time, n: nat)
    requires Legal(w, evs, compare, clock) && n <= |evs|
    ensures Legal(w, evs[..n], compare, clock)
    ensures n < |evs| ==> Enabled(After(w, evs[..n]), evs[n], compare)
  {
    if n < |evs| {
      var before := evs[..|evs| - 1];
      if n < |before| {
        LegalPrefix(w, before, compare, clock, n);
        assert before[..n] == evs[..n] && before[n] == evs[n];
      } else {
        assert evs[..n] == before;
      }
    } else {
      assert evs[..n] == evs;
    }
  }

  /** Every token pair an MFA endpoint issues goes back to an earlier pending login of the
      same user, which returned the very token presented, at most five minutes before, and
      since which the user neither began another login nor lost the token. */
  lemma EveryPairHasItsLogin(w: World, evs: seq<Event>, compare: S.Compare, clock: Time, j: nat)
    requires NoTokens(w) && Legal(w, evs, compare, clock)
    requires j < |evs| && evs[j].MfaDone?
    ensures var i := Pending(evs[..j], evs[j].user);
            && i.Some?
            && Begins(evs[i.value], evs[j].user)
            && evs[i.value].token == evs[j].token
            && evs[j].check <= evs[i.value].at + 5 * MINUTE
            && (forall k | i.value < k < j :: !EndsPending(evs[k], evs[j].user))
  {
    LegalPrefix(w, evs, compare, clock, j);
    RunTokensArePending(w, evs[..j], compare, clock);
    var i := Pending(evs[..j], evs[j].user);
    if i.Some? {
      assert evs[..j][i.value] == evs[i.value];
      assert forall k | i.value < k < j :: evs[..j][k] == evs[k];
    }
  }

  /** Two pairs never go back to the same login. */
  lemma LoginsAreUsedOnce(w: World, evs: seq<Event>, compare: S.Compare, clock: Time, j: nat, k: nat)
    requires NoTokens(w) && Legal(w, evs, compare, clock)
    requires j < k < |evs| && evs[j].MfaDone? && evs[k].MfaDone?
    ensures Pending(evs[..j], evs[j].user) != Pending(evs[..k], evs[k].user)
  {
    EveryPairHasItsLogin(w, evs, compare, clock, j);
    EveryPairHasItsLogin(w, evs, compare, clock, k);
    var i := Pending(evs[..k], evs[k].user).value;
    if Pending(evs[..j], evs[j].user) == Some(i) {
      assert evs[i].user == evs[j].user == evs[k].user;
      assert EndsPending(evs[j], evs[k].user);
      assert false;
    }
  }

  /** When the generator never repeats a token, the login a pair goes back to is the only one
      that ever returned the token presented, to whichever user. */
  lemma TokenNamesItsLogin(w: World, evs: seq<Event>, compare: S.Compare, clock: Time, j: nat, m: nat)
    requires NoTokens(w) && Legal(w, evs, compare, clock)
    requires forall a, b | 0 <= a < b < |evs| && evs[a].LoginPending? && evs[b].LoginPending? ::
               evs[a].token != evs[b].token
    requires j < |evs| && evs[j].MfaDone?
    requires m < |evs| && evs[m].LoginPending? && evs[m].token == evs[j].token
    ensures Pending(evs[..j], evs[j].user) == Some(m)
  {
    EveryPairHasItsLogin(w, evs, compare, clock, j);
  }

  function Count(evs: seq<Event>, p: Event -> bool): nat {
    if evs == [] then 0 else Count(evs[..|evs| - 1], p) + (if p(evs[|evs| - 1]) then 1 else 0)
  }

  /** No user is issued more MFA token pairs than that user began MFA logins. */
  lemma {:induction false} PairsWithinLogins(w: World, evs: seq<Event>, compare: S.Compare, clock: Time, user: Id)
    requires NoTokens(w) && Legal(w, evs, compare, clock)
    ensures Count(evs, ev => Issues(ev, user)) + (if Pending(evs, user).Some? then 1 else 0)
         <= Count(evs, ev => Begins(ev, user))
  {
    if evs != [] {
      var before, ev := evs[..|evs| - 1], evs[|evs| - 1];
      PairsWithinLogins(w, before, compare, clock, user);
      if ev.MfaDone? {
        EveryPairHasItsLogin(w, evs, compare, clock, |evs| - 1);
      }
    }
  }
}
