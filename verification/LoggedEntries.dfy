/** What a call of the logger puts into the log: the line that is written, the text that is
    hashed and the record the verifier reads, member by member. */
module LoggedEntries {
  import opened JsText
  import opened Decimal
  import opened Option
  import opened Json
  import opened JsRuntime
  import opened LogEntry
  import opened LogRuns

  /** The time that was given, or the clock's when none was or it was empty. */
  function TimeOf(f: Format, stamp: Text): Text {
    if f.timestamp.Some? && f.timestamp.value != [] then f.timestamp.value else stamp
  }

  /** A value as it is after printing: absent still, or without its undefined parts. */
  function AsPrinted(v: Value): Value { if v.Undef? then Undef else Normal(v) }

  /** The line is an object that says, under each name, what was logged. */
  predicate LineSays(R: Runtime, line: Text, f: Format, stamp: Text, m: Memory, hash: Text) {
    var p := ParseJson(R, line);
    && p.Parsed? && p.v.Obj?
    && Get(p.v, T("timestamp")) == Str(TimeOf(f, stamp))
    && Get(p.v, T("service")) == Str(f.service)
    && Get(p.v, T("user")) == Str(f.user)
    && Get(p.v, T("action")) == Str(f.action)
    && Get(p.v, T("result")) == Str(f.result)
    && Get(p.v, T("ip")) == Str(f.ip)
    && Get(p.v, T("device")) == AsPrinted(f.device)
    && Get(p.v, T("geo")) == AsPrinted(f.geo)
    && Get(p.v, T("metadata")) == AsPrinted(f.metadata)
    && Get(p.v, T("hash")) == Str(hash)
    && Get(p.v, T("hashAlgorithm")) == Str(T("SHA-256"))
    && Get(p.v, T("previousHash")) == Str(m.lastHash)
    && Get(p.v, T("logSequenceNumber")) == Num(IntegerText(m.seqNo + 1))
  }

  /** The text that is hashed: the previous hash, and the nine members in this order. */
  function HashedText(f: Format, stamp: Text, m: Memory): Text {
    m.lastHash + Print(Obj([
      Field(T("timestamp"), Str(TimeOf(f, stamp))), Field(T("service"), Str(f.service)),
      Field(T("user"), Str(f.user)), Field(T("action"), Str(f.action)), Field(T("result"), Str(f.result)),
      Field(T("ip"), Str(f.ip)), Field(T("device"), f.device), Field(T("geo"), f.geo),
      Field(T("metadata"), f.metadata)]))
  }

  /** The verifier reads these members from the line. */
  predicate ReadsAs(R: Runtime, line: Text, f: Format, stamp: Text, m: Memory, hash: Text) {
    var r := ReadRecord(R, line);
    && r.Some?
    && r.value.seqNo == Num(IntegerText(m.seqNo + 1)) && r.value.hash == Str(hash)
    && r.value.previousHash == Str(m.lastHash)
    && r.value.body == Body(
         timestamp := Str(TimeOf(f, stamp)), service := Str(f.service), user := Str(f.user),
         action := Str(f.action), result := Str(f.result), ip := Str(f.ip), device := AsPrinted(f.device),
         geo := AsPrinted(f.geo), metadata := AsPrinted(f.metadata))
  }

  lemma KeptIsAsPrinted(v: Value)
    ensures Kept(v) == AsPrinted(v)
  {
  }

  /** Reading the line's object gives, under each key of an entry, what the entry holds. */
  lemma MembersOfLine(R: Runtime, e: Entry)
    requires R.Valid() && RuntimeEntry(R, e)
    ensures ParseJson(R, LineOf(e)) == Parsed(Obj(NormalMembers(EntryMembers(e))), [])
    ensures forall i | 0 <= i < 13 ::
              Lookup(NormalMembers(EntryMembers(e)), EntryMembers(e)[i].key) == Kept(EntryMembers(e)[i].val)
  {
    EntryWellFormed(e);
    EntryPrinted(R, e);
    ReadPrinted(R, Obj(EntryMembers(e)));
    forall i | 0 <= i < 13
      ensures Lookup(NormalMembers(EntryMembers(e)), EntryMembers(e)[i].key) == Kept(EntryMembers(e)[i].val)
    {
      LookupEntry(e, i);
    }
  }

  /** The entry that follows memory `m` when `f` is logged: its hash is that of the text, and
      its line says what was logged, in the words of the log and as the verifier reads it. */
  lemma NextEntrySays(R: Runtime, m: Memory, f: Format, stamp: Text)
    ensures var e := NextEntry(R, m, BodyOf(f, stamp));
            e.hash == R.sha256(HashedText(f, stamp, m)) && e.previousHash == m.lastHash && e.seqNo == m.seqNo + 1
    ensures R.Valid() && f.Valid(R) && IsSafe(m.seqNo + 1) ==>
            var e := NextEntry(R, m, BodyOf(f, stamp));
            LineSays(R, LineOf(e), f, stamp, m, e.hash) && ReadsAs(R, LineOf(e), f, stamp, m, e.hash)
  {
    if R.Valid() && f.Valid(R) && IsSafe(m.seqNo + 1) {
      BodyOfValues(R, f, stamp);
      LineOfNext(R, m, f, stamp);
      RecordOfNext(R, m, f, stamp);
    }
  }

  lemma LineOfNext(R: Runtime, m: Memory, f: Format, stamp: Text)
    requires R.Valid() && IsSafe(m.seqNo + 1) && RuntimeBody(R, BodyOf(f, stamp))
    ensures var e := NextEntry(R, m, BodyOf(f, stamp)); LineSays(R, LineOf(e), f, stamp, m, e.hash)
  {
    var e := NextEntry(R, m, BodyOf(f, stamp));
    MembersOfLine(R, e);
    EntryMembersAre(e);
  }

  /** The thirteen members of an entry, by name. */
  lemma EntryMembersAre(e: Entry)
    ensures var fs := EntryMembers(e);
            && fs[0] == Field(T("timestamp"), e.body.timestamp) && fs[1] == Field(T("service"), e.body.service)
            && fs[2] == Field(T("user"), e.body.user) && fs[3] == Field(T("action"), e.body.action)
            && fs[4] == Field(T("result"), e.body.result) && fs[5] == Field(T("ip"), e.body.ip)
            && fs[6] == Field(T("device"), e.body.device) && fs[7] == Field(T("geo"), e.body.geo)
            && fs[8] == Field(T("metadata"), e.body.metadata) && fs[9] == Field(T("hash"), Str(e.hash))
            && fs[10] == Field(T("hashAlgorithm"), Str(T("SHA-256")))
            && fs[11] == Field(T("previousHash"), Str(e.previousHash))
            && fs[12] == Field(T("logSequenceNumber"), Num(IntegerText(e.seqNo)))
  {
  }

  lemma RecordOfNext(R: Runtime, m: Memory, f: Format, stamp: Text)
    requires R.Valid() && IsSafe(m.seqNo + 1) && RuntimeBody(R, BodyOf(f, stamp))
    ensures var e := NextEntry(R, m, BodyOf(f, stamp)); ReadsAs(R, LineOf(e), f, stamp, m, e.hash)
  {
    ReadLine(R, NextEntry(R, m, BodyOf(f, stamp)));
  }
}
