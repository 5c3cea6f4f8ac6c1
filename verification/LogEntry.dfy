/** One entry of the hash-chained log: what is hashed, the line that is written for it,
    and what a reader of that line sees. */
module LogEntry {
  import opened JsText
  import opened Decimal
  import opened Option
  import opened Json
  import opened JsRuntime

  const TIMESTAMP := T("timestamp")
  const SERVICE := T("service")
  const USER := T("user")
  const ACTION := T("action")
  const RESULT := T("result")
  const IP := T("ip")
  const DEVICE := T("device")
  const GEO := T("geo")
  const METADATA := T("metadata")
  const HASH := T("hash")
  const HASH_ALGORITHM := T("hashAlgorithm")
  const PREVIOUS_HASH := T("previousHash")
  const LOG_SEQUENCE_NUMBER := T("logSequenceNumber")

  const GENESIS := T("GENESIS")

  /** The nine members that are hashed. */
  datatype Body = Body(
    timestamp: Value, service: Value, user: Value, action: Value, result: Value,
    ip: Value, device: Value, geo: Value, metadata: Value)

  /** An entry as the logger builds it. */
  datatype Entry = Entry(body: Body, hash: Text, previousHash: Text, seqNo: int)

  /** An entry as the verifier finds it in a file; any member can be any value or absent. */
  datatype Record = Record(seqNo: Value, previousHash: Value, hash: Value, body: Body)

  function BodyMembers(b: Body): (fs: seq<Field>)
    ensures |fs| == 9
  {
    [Field(TIMESTAMP, b.timestamp), Field(SERVICE, b.service), Field(USER, b.user),
     Field(ACTION, b.action), Field(RESULT, b.result), Field(IP, b.ip),
     Field(DEVICE, b.device), Field(GEO, b.geo), Field(METADATA, b.metadata)]
  }

  function EntryMembers(e: Entry): (fs: seq<Field>)
    ensures |fs| == 13
  {
    BodyMembers(e.body) +
    [Field(HASH, Str(e.hash)), Field(HASH_ALGORITHM, Str(T("SHA-256"))),
     Field(PREVIOUS_HASH, Str(e.previousHash)), Field(LOG_SEQUENCE_NUMBER, Num(IntegerText(e.seqNo)))]
  }

  /** `previousHash + JSON.stringify(logEntry)`. */
  function Preimage(previousHash: Text, b: Body): Text {
    previousHash + Print(Obj(BodyMembers(b)))
  }

  /** The line written for an entry, without its newline. */
  function LineOf(e: Entry): Text { Print(Obj(EntryMembers(e))) }

  function ReadBody(v: Value): Body {
    Body(Get(v, TIMESTAMP), Get(v, SERVICE), Get(v, USER), Get(v, ACTION), Get(v, RESULT),
         Get(v, IP), Get(v, DEVICE), Get(v, GEO), Get(v, METADATA))
  }

  /** What the verifier takes from a line; `None` when reading it throws: the line does not
      parse, or is `null`. */
  function ReadRecord(R: Runtime, line: Text): Option<Record> {
    match ParseJson(R, line)
    case Fail => None
    case Parsed(v, _) =>
      if v.Null? then None
      else Some(Record(Get(v, LOG_SEQUENCE_NUMBER), Get(v, PREVIOUS_HASH), Get(v, HASH), ReadBody(v)))
  }

  // ------------------------------------------------------------------- the keys

  /** Distinguishes the thirteen member names: their length and first unit. */
  function KeyTag(key: Text): int {
    if key == [] then 0 else key[0] * 100 + |key|
  }

  lemma EntryKeysDistinct(e: Entry)
    ensures ObjectKeys(EntryMembers(e))
    ensures ObjectKeys(BodyMembers(e.body))
  {
    var fs := EntryMembers(e);
    EntryKeyTags(e);
    TagsDiffer();
    assert forall i | 0 <= i < 13 :: Tagged(fs[i].key, i);
    DistinctTags(fs, TAGS);
    assert forall i | 0 <= i < 9 :: fs[i] == BodyMembers(e.body)[i];
  }

  const TAGS := [11609, 11507, 11704, 9706, 11406, 10502, 10006, 10303, 10908, 10404, 10413, 11212, 10817]

  lemma TagsDiffer()
    ensures forall i, j | 0 <= i < j < 13 :: TAGS[i] != TAGS[j]
    ensures forall i | 0 <= i < 13 :: TAGS[i] >= 9000
  {
  }

  /** The key has the `i`-th tag. */
  predicate Tagged(key: Text, i: nat)
    requires i < 13
  {
    KeyTag(key) == TAGS[i] && |key| < 100
  }

  lemma BodyTags()
    ensures Tagged(TIMESTAMP, 0) && Tagged(SERVICE, 1) && Tagged(USER, 2) && Tagged(ACTION, 3) && Tagged(RESULT, 4)
    ensures Tagged(IP, 5) && Tagged(DEVICE, 6) && Tagged(GEO, 7) && Tagged(METADATA, 8)
  {
  }

  lemma HashTags()
    ensures Tagged(HASH, 9) && Tagged(HASH_ALGORITHM, 10)
    ensures Tagged(PREVIOUS_HASH, 11) && Tagged(LOG_SEQUENCE_NUMBER, 12)
  {
  }

  lemma EntryKeyTags(e: Entry)
    ensures forall i | 0 <= i < 13 :: Tagged(EntryMembers(e)[i].key, i)
  {
    BodyTags();
    HashTags();
  }

  lemma DistinctTags(fs: seq<Field>, tags: seq<int>)
    requires |fs| == |tags| && forall i | 0 <= i < |fs| :: KeyTag(fs[i].key) == tags[i] && |fs[i].key| < 100
    requires forall i, j | 0 <= i < j < |tags| :: tags[i] != tags[j]
    requires forall i | 0 <= i < |tags| :: 9000 <= tags[i]
    ensures ObjectKeys(fs)
  {
    forall i | 0 <= i < |fs| ensures !IsIndex(fs[i].key) {
      assert KeyTag(fs[i].key) == tags[i];
      IndexIsDigits(fs[i].key);
    }
  }

  // ------------------------------------------------------------ reading a line back

  predicate WellFormedBody(b: Body) {
    forall i | 0 <= i < 9 :: WellFormed(BodyMembers(b)[i].val)
  }

  /** The body as it comes back from disk: absent members dropped at every level. */
  function KeptBody(b: Body): Body {
    Body(Kept(b.timestamp), Kept(b.service), Kept(b.user), Kept(b.action), Kept(b.result),
         Kept(b.ip), Kept(b.device), Kept(b.geo), Kept(b.metadata))
  }

  function RecordOf(e: Entry): Record {
    Record(Num(IntegerText(e.seqNo)), Str(e.previousHash), Str(e.hash), KeptBody(e.body))
  }

  lemma LookupEntry(e: Entry, i: nat)
    requires i < 13
    ensures Lookup(NormalMembers(EntryMembers(e)), EntryMembers(e)[i].key) == Kept(EntryMembers(e)[i].val)
  {
    EntryKeysDistinct(e);
    LookupAt(EntryMembers(e), i);
    LookupNormal(EntryMembers(e), EntryMembers(e)[i].key);
  }

  lemma ReadBodyOfEntry(e: Entry)
    ensures ReadBody(Obj(NormalMembers(EntryMembers(e)))) == KeptBody(e.body)
  {
    LookupEntry(e, 0); LookupEntry(e, 1); LookupEntry(e, 2); LookupEntry(e, 3); LookupEntry(e, 4);
    LookupEntry(e, 5); LookupEntry(e, 6); LookupEntry(e, 7); LookupEntry(e, 8);
  }

  lemma EntryWellFormed(e: Entry)
    requires WellFormedBody(e.body)
    ensures WellFormed(Obj(EntryMembers(e)))
  {
    EntryKeysDistinct(e);
    IntegerTextIsNumber(e.seqNo);
    forall i | 0 <= i < 13 ensures WellFormed(EntryMembers(e)[i].val) {
      if i < 9 { assert WellFormed(BodyMembers(e.body)[i].val); }
    }
  }

  /** A body of values of the runtime. */
  predicate RuntimeBody(R: Runtime, b: Body) {
    WellFormedBody(b) && forall i | 0 <= i < 9 :: Printed(R, BodyMembers(b)[i].val)
  }

  /** An entry of values of the runtime, its number a safe one. */
  predicate RuntimeEntry(R: Runtime, e: Entry) { RuntimeBody(R, e.body) && IsSafe(e.seqNo) }

  lemma EntryPrinted(R: Runtime, e: Entry)
    requires R.Valid() && RuntimeEntry(R, e)
    ensures Printed(R, Obj(EntryMembers(e)))
  {
    forall i | 0 <= i < 13 ensures Printed(R, EntryMembers(e)[i].val) {
      if i < 9 { assert Printed(R, BodyMembers(e.body)[i].val); }
    }
  }

  lemma ReadHashesOfEntry(e: Entry)
    ensures var v := Obj(NormalMembers(EntryMembers(e)));
            && Get(v, HASH) == Str(e.hash) && Get(v, PREVIOUS_HASH) == Str(e.previousHash)
            && Get(v, LOG_SEQUENCE_NUMBER) == Num(IntegerText(e.seqNo))
  {
    LookupEntry(e, 9); LookupEntry(e, 11); LookupEntry(e, 12);
  }

  /** The line written for an entry is one line, and the verifier reads from it the
      entry's number, both hashes, and the body with absent members dropped. */
  lemma ReadLine(R: Runtime, e: Entry)
    requires R.Valid() && RuntimeEntry(R, e)
    ensures ReadRecord(R, LineOf(e)) == Some(RecordOf(e))
    ensures IsLine(LineOf(e))
    ensures var p := ParseJson(R, LineOf(e));
            p.Parsed? && p.v.Obj? && Get(p.v, HASH) == Str(e.hash)
            && Get(p.v, LOG_SEQUENCE_NUMBER) == Num(IntegerText(e.seqNo))
  {
    EntryWellFormed(e);
    EntryPrinted(R, e);
    PrintedObjectIsLine(Obj(EntryMembers(e)));
    ReadPrinted(R, Obj(EntryMembers(e)));
    ReadBodyOfEntry(e);
    ReadHashesOfEntry(e);
  }

  // --------------------------------------------------- the pre-image after reading

  function KeptMembers(fs: seq<Field>): (r: seq<Field>)
    ensures |r| == |fs|
    ensures forall i | 0 <= i < |fs| :: r[i] == Field(fs[i].key, Kept(fs[i].val))
  {
    if fs == [] then [] else [Field(fs[0].key, Kept(fs[0].val))] + KeptMembers(fs[1..])
  }

  lemma {:induction false} PrintKept(fs: seq<Field>, first: bool)
    ensures PrintMembers(KeptMembers(fs), first) == PrintMembers(fs, first)
  {
    if fs != [] {
      PrintNormal(fs[0].val);
      PrintKept(fs[1..], first);
      PrintKept(fs[1..], false);
      assert KeptMembers(fs)[1..] == KeptMembers(fs[1..]);
      NormalDefined(fs[0].val);
    }
  }

  lemma NormalDefined(v: Value)
    ensures !Normal(v).Undef?
  {
  }

  /** Hashing what was read back hashes the same text as when the entry was written,
      although absent members were dropped in between. */
  lemma PreimageKept(previousHash: Text, b: Body)
    ensures Preimage(previousHash, KeptBody(b)) == Preimage(previousHash, b)
  {
    PrintKept(BodyMembers(b), true);
    KeptBodyMembers(b);
  }

  lemma KeptBodyMembers(b: Body)
    ensures BodyMembers(KeptBody(b)) == KeptMembers(BodyMembers(b))
  {
    var fs, gs := BodyMembers(KeptBody(b)), KeptMembers(BodyMembers(b));
    assert forall i | 0 <= i < 9 :: fs[i] == gs[i];
  }

  // ------------------------------------------------------ the pre-image is injective

  lemma {:induction false} LookupWellFormed(fs: seq<Field>, key: Text)
    requires forall i | 0 <= i < |fs| :: WellFormed(fs[i].val)
    ensures WellFormed(Lookup(fs, key))
  {
    if fs != [] && fs[0].key != key {
      LookupWellFormed(fs[1..], key);
    }
  }

  lemma ReadRecordWellFormed(R: Runtime, line: Text)
    requires ReadRecord(R, line).Some?
    ensures WellFormedBody(ReadRecord(R, line).value.body)
  {
    ParsePlain(line);
    CanonWellFormed(R, Parse(line).v);
    var v := Canon(R, Parse(line).v);
    forall key ensures WellFormed(Get(v, key)) {
      if v.Obj? { LookupWellFormed(v.fields, key); }
    }
  }

  /** Two bodies that print alike are the same nine values, as far as printing can tell:
      absent members dropped, infinities null. */
  lemma PrintDeterminesBody(b: Body, c: Body)
    requires WellFormedBody(b) && WellFormedBody(c)
    requires Print(Obj(BodyMembers(b))) == Print(Obj(BodyMembers(c)))
    ensures KeptBody(b) == KeptBody(c)
  {
    var fs, gs := BodyMembers(b), BodyMembers(c);
    EntryKeysDistinct(Entry(b, [], [], 0));
    EntryKeysDistinct(Entry(c, [], [], 0));
    ParsePrint(Obj(fs));
    ParsePrint(Obj(gs));
    assert NormalMembers(fs) == NormalMembers(gs);
    forall i | 0 <= i < 9 ensures Kept(fs[i].val) == Kept(gs[i].val) {
      assert fs[i].key == gs[i].key;
      LookupAt(fs, i); LookupAt(gs, i);
      LookupNormal(fs, fs[i].key); LookupNormal(gs, fs[i].key);
    }
    KeptMembersDetermineBody(b, c);
  }

  lemma KeptMembersDetermineBody(b: Body, c: Body)
    requires forall i | 0 <= i < 9 :: Kept(BodyMembers(b)[i].val) == Kept(BodyMembers(c)[i].val)
    ensures KeptBody(b) == KeptBody(c)
  {
    assert Kept(BodyMembers(b)[0].val) == Kept(BodyMembers(c)[0].val);
    assert Kept(BodyMembers(b)[1].val) == Kept(BodyMembers(c)[1].val);
    assert Kept(BodyMembers(b)[2].val) == Kept(BodyMembers(c)[2].val);
    assert Kept(BodyMembers(b)[3].val) == Kept(BodyMembers(c)[3].val);
    assert Kept(BodyMembers(b)[4].val) == Kept(BodyMembers(c)[4].val);
    assert Kept(BodyMembers(b)[5].val) == Kept(BodyMembers(c)[5].val);
    assert Kept(BodyMembers(b)[6].val) == Kept(BodyMembers(c)[6].val);
    assert Kept(BodyMembers(b)[7].val) == Kept(BodyMembers(c)[7].val);
    assert Kept(BodyMembers(b)[8].val) == Kept(BodyMembers(c)[8].val);
  }

  /** A previous hash: the genesis mark or a digest. */
  predicate IsChainHash(h: Text) { h == GENESIS || IsHexDigest(h) }

  lemma GenesisIsNoDigest()
    ensures !IsHexDigest(GENESIS)
  {
    assert |GENESIS| == 7;
  }

  lemma HeadInside(p: Text, s: Text, q: Text, t: Text)
    requires |p| < |q| && s != [] && p + s == q + t
    ensures q[|p|] == s[0]
  {
    assert (p + s)[|p|] == s[0] && (q + t)[|p|] == q[|p|];
  }

  /** The pre-image splits in one way only into previous hash and body: the body starts
      with a brace, which no hash contains. */
  lemma PreimageInjective(p: Text, b: Body, q: Text, c: Body)
    requires IsChainHash(p) && IsChainHash(q) && WellFormedBody(b) && WellFormedBody(c)
    requires Preimage(p, b) == Preimage(q, c)
    ensures p == q && KeptBody(b) == KeptBody(c)
  {
    var s, t := Print(Obj(BodyMembers(b))), Print(Obj(BodyMembers(c)));
    GenesisIsNoDigest();
    if |p| < |q| {
      HeadInside(p, s, q, t);
      assert false;
    } else if |q| < |p| {
      HeadInside(q, t, p, s);
      assert false;
    }
    assert p == (p + s)[..|p|] && q == (q + t)[..|q|];
    assert s == (p + s)[|p|..] && t == (q + t)[|q|..];
    PrintDeterminesBody(b, c);
  }
}
