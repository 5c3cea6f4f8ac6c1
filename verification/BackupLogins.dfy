/** What storing backup codes encrypted, but parsing the column as it is, comes to: a login
    with a backup code is possible only while the column holds a plain list. */
module BackupLogins {
  import opened JsText
  import opened Option
  import opened Json
  import opened Users
  import opened AuthEvents
  import B = BackupCodes

  /** The alphabet of `toString('base64')` (section 4 of RFC 4648). */
  predicate IsBase64(s: Text) {
    forall i | 0 <= i < |s| ::
      48 <= s[i] <= 57 || 65 <= s[i] <= 90 || 97 <= s[i] <= 122 || s[i] == 43 || s[i] == 47 || s[i] == 61
  }

  lemma {:induction false} MembersAreNoList(s: Text, acc: seq<Field>)
    requires ParseMembers(s, acc).Parsed?
    ensures ParseMembers(s, acc).v.Obj?
    decreases |s|
  {
    var k := ParseKey(s);
    var p := ParseValue(k.rest);
    var n := ParseNext(p.rest, RBRACE);
    if n.More? { MembersAreNoList(n.next, Put(acc, k.s, p.v)); }
  }

  /** Only text that starts with a bracket parses as a list. */
  lemma ListsStartWithBracket(s: Text)
    requires s != [] && s[0] != LBRACKET && ParseValue(s).Parsed?
    ensures !ParseValue(s).v.Arr?
  {
    if s[0] == LBRACE {
      var r := SkipBlank(s[1..]);
      if r == [] || r[0] != RBRACE { MembersAreNoList(r, []); }
    }
  }

  /** No input is accepted against encrypted codes. */
  lemma EncryptedCodesAreRefused(stored: Text, code: Text, now: Text)
    requires IsBase64(stored)
    ensures var r := B.Validate(stored, code, now); r.Validation? ==> !r.valid && r.remainingCodes == []
  {
    assert SkipBlank(stored) == stored;
    if Parse(stored).Parsed? { ListsStartWithBracket(stored); }
  }

  lemma NullIsNoList()
    ensures B.ParseCodes(T("null")) == B.NotAList
  {
    var s := T("null");
    assert s[0] == LOWER_N && s[..4] == s && s[4..] == [];
    assert ParseValue(s) == ParseWord(s, T("null"), Null) == Parsed(Null, []);
  }

  /** Some input is accepted against the stored column. */
  ghost predicate Accepts(column: Option<Text>) {
    exists code, now :: B.Validate(column.GetOr(T("null")), code, now).Validation?
                        && B.Validate(column.GetOr(T("null")), code, now).valid
  }

  predicate CodesEncrypted(w: World) {
    forall id | id in w.users :: ColumnEncrypted(w.users[id])
  }

  predicate ColumnEncrypted(u: User) { u.mfaBackupCodes.Some? ==> IsBase64(u.mfaBackupCodes.value) }

  lemma EncryptedAcceptsNothing(column: Option<Text>)
    requires column.Some? ==> IsBase64(column.value)
    ensures !Accepts(column)
  {
    forall code, now
      ensures B.Validate(column.GetOr(T("null")), code, now).Validation?
              ==> !B.Validate(column.GetOr(T("null")), code, now).valid
    {
      if column.Some? { EncryptedCodesAreRefused(column.value, code, now); } else { NullIsNoList(); }
    }
  }

  /** The event stores only encrypted codes. */
  predicate StoresEncrypted(ev: Event) {
    (ev.SetupVerified? ==> IsBase64(ev.codes))
    && (ev.MfaDone? && ev.codesLeft.Some? ==> IsBase64(ev.codesLeft.value))
  }

  lemma RowStaysEncrypted(u: User, ev: Event)
    requires ColumnEncrypted(u) && StoresEncrypted(ev)
    ensures ColumnEncrypted(Changed(u, ev))
  {
  }

  lemma StepStaysEncrypted(w: World, ev: Event)
    requires CodesEncrypted(w) && StoresEncrypted(ev)
    ensures CodesEncrypted(Apply(w, ev))
  {
    var users := UsersAfter(w.users, ev);
    forall id | id in users ensures ColumnEncrypted(users[id]) {
      if id in w.users { RowStaysEncrypted(w.users[id], ev); }
    }
  }

  /** A login with a backup code. */
  predicate IsBackupLogin(ev: Event) { ev.MfaDone? && ev.endpoint == BackupCode }

  /** What the handlers see to: only encrypted codes are stored, and a login with a backup
      code succeeds only where the column accepts some input. */
  ghost predicate HandledAs(w: World, ev: Event) {
    && StoresEncrypted(ev)
    && (IsBackupLogin(ev) ==> ev.user in w.users && Accepts(w.users[ev.user].mfaBackupCodes))
  }

  ghost predicate AsHandled(w: World, evs: seq<Event>) {
    evs == [] || (
      var before, ev := evs[..|evs| - 1], evs[|evs| - 1];
      AsHandled(w, before) && HandledAs(After(w, before), ev))
  }

  lemma HandledSnoc(w: World, evs: seq<Event>, ev: Event)
    requires AsHandled(w, evs) && HandledAs(After(w, evs), ev)
    ensures AsHandled(w, evs + [ev])
  {
    assert (evs + [ev])[..|evs|] == evs;
  }

  /** In no run so handled does a login with a backup code ever succeed, although
      `verify-setup` hands the codes out. That the runs of the service are so handled is
      kept by every method of `Server`. */
  lemma {:induction false} BackupLoginNeverSucceeds(w: World, evs: seq<Event>)
    requires CodesEncrypted(w) && AsHandled(w, evs)
    ensures CodesEncrypted(After(w, evs))
    ensures forall i | 0 <= i < |evs| :: !IsBackupLogin(evs[i])
  {
    if evs != [] {
      var before, ev := evs[..|evs| - 1], evs[|evs| - 1];
      BackupLoginNeverSucceeds(w, before);
      StepStaysEncrypted(After(w, before), ev);
      if IsBackupLogin(ev) { EncryptedAcceptsNothing(After(w, before).users[ev.user].mfaBackupCodes); }
      assert forall i | 0 <= i < |before| :: evs[i] == before[i];
    }
  }

  /** With the codes stored as they are, the same login takes exactly the unused codes; so a
      backup code works if and only if the column starts as a list and holds it unused. */
  lemma AcceptsIffUnusedInList(stored: Text, code: Text, now: Text)
    ensures (B.Validate(stored, code, now).Validation? && B.Validate(stored, code, now).valid)
       <==> (B.ParseCodes(stored).Codes? && code in B.Unused(B.ParseCodes(stored).list))
    ensures B.ParseCodes(stored).Codes? && B.ParseCodes(stored).list != []
        ==> SkipBlank(stored) != [] && SkipBlank(stored)[0] == LBRACKET
  {
    if B.ParseCodes(stored).Codes? { B.FindUnusedFinds(B.ParseCodes(stored).list, code); }
    if Parse(stored).Parsed? && SkipBlank(stored) != [] && SkipBlank(stored)[0] != LBRACKET {
      ListsStartWithBracket(SkipBlank(stored));
    }
  }
}
