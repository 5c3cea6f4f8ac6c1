/** What a verified log binds, and which edits of an honest log are reported where.
    Nothing is assumed of the hash beyond its output form: each result asks only that
    no two different texts among those actually hashed share a digest. */
module Tampering {
  import opened JsText
  import opened Decimal
  import opened Option
  import opened Json
  import opened JsRuntime
  import opened LogEntry
  import opened LogDirectory
  import opened ChainScan
  import opened LogRuns

  ghost predicate CollisionFree(R: Runtime, texts: set<Text>) {
    forall x, y | x in texts && y in texts && R.sha256(x) == R.sha256(y) :: x == y
  }

  function RecordText(r: Record): Text { Preimage(Spoken(r.previousHash), r.body) }

  /** The texts hashed when these records are verified. */
  function Hashed(rs: seq<Record>): set<Text> {
    set i | 0 <= i < |rs| :: RecordText(rs[i])
  }

  predicate AllWellFormed(rs: seq<Record>) { forall i | 0 <= i < |rs| :: WellFormedBody(rs[i].body) }

  // ------------------------------------------------------------------------ binding

  lemma SoundRecord(R: Runtime, rs: seq<Record>, i: nat)
    requires R.Digests() && AllSound(R, rs) && i < |rs|
    ensures rs[i].hash == Str(R.sha256(RecordText(rs[i])))
    ensures rs[i].previousHash == ExpectedAt(rs, i)
    ensures rs[i].previousHash.Str? && IsChainHash(rs[i].previousHash.s)
    ensures i > 0 ==> rs[i].previousHash.s != GENESIS
  {
    assert Sound(R, rs, i);
    GenesisIsNoDigest();
    if i > 0 {
      assert Sound(R, rs, i - 1);
      assert IsHexDigest(R.sha256(RecordText(rs[i - 1])));
    }
  }

  lemma PrefixSound(R: Runtime, rs: seq<Record>)
    requires rs != [] && AllSound(R, rs) && AllWellFormed(rs)
    ensures AllSound(R, rs[..|rs| - 1]) && AllWellFormed(rs[..|rs| - 1])
    ensures Hashed(rs[..|rs| - 1]) <= Hashed(rs)
  {
    var ps := rs[..|rs| - 1];
    forall i | 0 <= i < |ps| ensures Sound(R, ps, i) {
      assert Sound(R, rs, i);
      assert ExpectedAt(ps, i) == ExpectedAt(rs, i);
    }
    forall t | t in Hashed(ps) ensures t in Hashed(rs) {
      var i :| 0 <= i < |ps| && t == RecordText(ps[i]);
      assert rs[i] == ps[i];
    }
  }

  /** The last entries carry the same hash, and no two of the texts hashed collide. */
  ghost predicate EndAlike(R: Runtime, rs: seq<Record>, qs: seq<Record>) {
    rs != [] && qs != [] && rs[|rs| - 1].hash == qs[|qs| - 1].hash && CollisionFree(R, Hashed(rs) + Hashed(qs))
  }

  /** A record whose previous hash and body can be told apart in its text. */
  predicate Splittable(r: Record) {
    r.previousHash.Str? && IsChainHash(r.previousHash.s) && WellFormedBody(r.body)
  }

  lemma SameTextSameEntry(r: Record, q: Record)
    requires Splittable(r) && Splittable(q) && RecordText(r) == RecordText(q)
    ensures KeptBody(r.body) == KeptBody(q.body) && r.previousHash == q.previousHash
  {
    PreimageInjective(r.previousHash.s, r.body, q.previousHash.s, q.body);
  }

  lemma SameHashSameText(R: Runtime, texts: set<Text>, x: Text, y: Text)
    requires CollisionFree(R, texts) && x in texts && y in texts && Str(R.sha256(x)) == Str(R.sha256(y))
    ensures x == y
  {
  }

  lemma LastIsSplittable(R: Runtime, rs: seq<Record>)
    requires R.Digests() && AllSound(R, rs) && AllWellFormed(rs) && rs != []
    ensures var r := rs[|rs| - 1];
            Splittable(r) && r.hash == Str(R.sha256(RecordText(r))) && RecordText(r) in Hashed(rs)
  {
    SoundRecord(R, rs, |rs| - 1);
    TextIsHashed(rs, |rs| - 1);
  }

  lemma TextIsHashed(rs: seq<Record>, i: nat)
    requires i < |rs|
    ensures RecordText(rs[i]) in Hashed(rs)
  {
  }

  /** The last entries of two sound logs with the same hash are the same entry. */
  lemma LastBinds(R: Runtime, rs: seq<Record>, qs: seq<Record>)
    requires R.Digests() && AllSound(R, rs) && AllSound(R, qs) && AllWellFormed(rs) && AllWellFormed(qs)
    requires CollisionFree(R, Hashed(rs) + Hashed(qs))
    requires rs != [] && qs != [] && rs[|rs| - 1].hash == qs[|qs| - 1].hash
    ensures var r, q := rs[|rs| - 1], qs[|qs| - 1];
            KeptBody(r.body) == KeptBody(q.body) && r.previousHash == q.previousHash
  {
    var r, q := rs[|rs| - 1], qs[|qs| - 1];
    LastIsSplittable(R, rs);
    LastIsSplittable(R, qs);
    SameHashSameText(R, Hashed(rs) + Hashed(qs), RecordText(r), RecordText(q));
    SameTextSameEntry(r, q);
  }

  /** The two records carry the same two hashes and print the same nine members. */
  predicate SameContent(r: Record, q: Record) {
    KeptBody(r.body) == KeptBody(q.body) && r.hash == q.hash && r.previousHash == q.previousHash
  }

  predicate SameContents(rs: seq<Record>, qs: seq<Record>) {
    |rs| == |qs| && forall i | 0 <= i < |rs| :: SameContent(rs[i], qs[i])
  }

  /** Only a first entry names GENESIS, so two sound logs whose last entries name the same
      hash are both of one entry or both longer. */
  lemma FirstTogether(R: Runtime, rs: seq<Record>, qs: seq<Record>)
    requires R.Digests() && AllSound(R, rs) && AllSound(R, qs) && rs != [] && qs != []
    requires rs[|rs| - 1].previousHash == qs[|qs| - 1].previousHash
    ensures |rs| == 1 <==> |qs| == 1
    ensures |rs| > 1 && |qs| > 1 ==> rs[|rs| - 2].hash == qs[|qs| - 2].hash
  {
    SoundRecord(R, rs, |rs| - 1);
    SoundRecord(R, qs, |qs| - 1);
  }

  lemma PrefixesCollisionFree(R: Runtime, rs: seq<Record>, qs: seq<Record>, ps: seq<Record>, os: seq<Record>)
    requires CollisionFree(R, Hashed(rs) + Hashed(qs)) && Hashed(ps) <= Hashed(rs) && Hashed(os) <= Hashed(qs)
    ensures CollisionFree(R, Hashed(ps) + Hashed(os))
  {
  }

  lemma PrefixesAlike(R: Runtime, rs: seq<Record>, qs: seq<Record>)
    requires R.Digests() && AllSound(R, rs) && AllSound(R, qs) && AllWellFormed(rs) && AllWellFormed(qs)
    requires EndAlike(R, rs, qs) && |rs| > 1 && |qs| > 1 && rs[|rs| - 2].hash == qs[|qs| - 2].hash
    ensures var ps, os := rs[..|rs| - 1], qs[..|qs| - 1];
            && AllSound(R, ps) && AllSound(R, os) && AllWellFormed(ps) && AllWellFormed(os)
            && EndAlike(R, ps, os)
  {
    PrefixSound(R, rs);
    PrefixSound(R, qs);
    PrefixesCollisionFree(R, rs, qs, rs[..|rs| - 1], qs[..|qs| - 1]);
  }

  /** Two sound logs that end in the same hash have the same length and the same contents
      at every position. */
  lemma {:induction false} SoundLogsBind(R: Runtime, rs: seq<Record>, qs: seq<Record>)
    requires R.Digests() && AllSound(R, rs) && AllSound(R, qs) && AllWellFormed(rs) && AllWellFormed(qs)
    requires EndAlike(R, rs, qs)
    ensures SameContents(rs, qs)
    decreases |rs|
  {
    LastBinds(R, rs, qs);
    FirstTogether(R, rs, qs);
    if |rs| > 1 {
      PrefixesAlike(R, rs, qs);
      SoundLogsBind(R, rs[..|rs| - 1], qs[..|qs| - 1]);
    }
    SameContentsExtend(rs, qs);
  }

  lemma SameContentsExtend(rs: seq<Record>, qs: seq<Record>)
    requires rs != [] && qs != [] && SameContents(rs[..|rs| - 1], qs[..|qs| - 1])
    requires SameContent(rs[|rs| - 1], qs[|qs| - 1])
    ensures SameContents(rs, qs)
  {
    var ps, os := rs[..|rs| - 1], qs[..|qs| - 1];
    assert forall i | 0 <= i < |ps| :: rs[i] == ps[i] && qs[i] == os[i];
  }

  /** The lines of all log files of a directory, as the verifier reads them. */
  function LogOf(R: Runtime, d: Disk): seq<Line> { Flatten(DecodeFiles(R, LogFiles(d))) }

  lemma {:induction false} FlattenAt<X>(xss: seq<seq<X>>, i: nat)
    requires i < |Flatten(xss)|
    ensures exists f, k | 0 <= f < |xss| && 0 <= k < |xss[f]| :: Flatten(xss)[i] == xss[f][k]
  {
    if i >= |xss[0]| {
      FlattenAt(xss[1..], i - |xss[0]|);
      var f, k :| 0 <= f < |xss[1..]| && 0 <= k < |xss[1..][f]| && Flatten(xss[1..])[i - |xss[0]|] == xss[1..][f][k];
      assert xss[f + 1][k] == Flatten(xss)[i];
    } else {
      assert Flatten(xss)[i] == xss[0][i];
    }
  }

  lemma LogIsWellFormed(R: Runtime, d: Disk)
    requires AllRead(LogOf(R, d))
    ensures AllWellFormed(RecordsOf(LogOf(R, d)))
  {
    var fs := LogFiles(d);
    var rs := RecordsOf(LogOf(R, d));
    forall i | 0 <= i < |rs| ensures WellFormedBody(rs[i].body) {
      FlattenAt(DecodeFiles(R, fs), i);
      var f, k :| 0 <= f < |fs| && 0 <= k < |DecodeFiles(R, fs)[f]| && LogOf(R, d)[i] == DecodeFiles(R, fs)[f][k];
      DecodedAt(R, fs, f);
      ReadRecordWellFormed(R, Lines(fs[f].content)[k]);
    }
  }

  /** A directory that verifies from entry 1 with no number out of range. */
  predicate VerifiedWhole(R: Runtime, d: Disk, end: int) {
    end != 0 && AllInRange(R, LogOf(R, d), 1, end) && Verify(R, d, Some(1), Some(end), 0).Valid()
  }

  lemma VerifiedWholeIsSound(R: Runtime, d: Disk, end: int)
    requires VerifiedWhole(R, d, end)
    ensures AllRead(LogOf(R, d)) && AllSound(R, RecordsOf(LogOf(R, d))) && AllWellFormed(RecordsOf(LogOf(R, d)))
  {
    VerifiedIffSound(R, DecodeFiles(R, LogFiles(d)), 1, end);
    LogIsWellFormed(R, d);
  }

  /** Two directories, whatever text their files hold: when both verify from entry 1 with no
      number out of range and their last entries carry the same hash, then they hold the
      same number of entries, with the same hashes and the same nine members as printed, at
      every position. The numbers themselves are not hashed and so not bound. */
  lemma VerifiedLogsBind(R: Runtime, d: Disk, e: Disk, endD: int, endE: int)
    requires R.Digests() && VerifiedWhole(R, d, endD) && VerifiedWhole(R, e, endE)
    ensures AllRead(LogOf(R, d)) && AllRead(LogOf(R, e))
    ensures EndAlike(R, RecordsOf(LogOf(R, d)), RecordsOf(LogOf(R, e)))
        ==> SameContents(RecordsOf(LogOf(R, d)), RecordsOf(LogOf(R, e)))
  {
    VerifiedWholeIsSound(R, d, endD);
    VerifiedWholeIsSound(R, e, endE);
    EndAlikeBinds(R, RecordsOf(LogOf(R, d)), RecordsOf(LogOf(R, e)));
  }

  lemma EndAlikeBinds(R: Runtime, rs: seq<Record>, qs: seq<Record>)
    requires R.Digests() && AllSound(R, rs) && AllSound(R, qs) && AllWellFormed(rs) && AllWellFormed(qs)
    ensures EndAlike(R, rs, qs) ==> SameContents(rs, qs)
  {
    if EndAlike(R, rs, qs) { SoundLogsBind(R, rs, qs); }
  }

  /** Nothing else matters for the verdict: two logs with the same contents, read through
      whatever files and numbered in whatever way within the range, both verify or neither
      does. So renumbering entries goes unreported. */
  lemma ContentsDecide(R: Runtime, files: seq<seq<Line>>, rs: seq<Record>, others: seq<seq<Line>>, qs: seq<Record>,
                       start: int, end: int)
    requires Reads(Flatten(files), rs) && Reads(Flatten(others), qs) && SameContents(rs, qs)
    requires forall i | 0 <= i < |rs| :: InRange(R, rs[i], start, end) && InRange(R, qs[i], start, end)
    ensures ScanFiles(R, files, start, end, Str(GENESIS)).Valid()
       <==> ScanFiles(R, others, start, end, Str(GENESIS)).Valid()
  {
    VerifiedIffSound(R, files, start, end);
    VerifiedIffSound(R, others, start, end);
    assert RecordsOf(Flatten(files)) == rs && RecordsOf(Flatten(others)) == qs;
    forall i | 0 <= i < |rs| ensures Sound(R, rs, i) <==> Sound(R, qs, i) { SameContentsSound(R, rs, qs, i); }
  }

  lemma SameContentsSound(R: Runtime, rs: seq<Record>, qs: seq<Record>, i: nat)
    requires SameContents(rs, qs) && i < |rs|
    ensures Sound(R, rs, i) <==> Sound(R, qs, i)
  {
    SameContentHashes(R, rs[i], qs[i]);
    assert SameContent(rs[i], qs[i]);
    if i > 0 { assert SameContent(rs[i - 1], qs[i - 1]); }
  }

  lemma SameContentHashes(R: Runtime, r: Record, q: Record)
    requires SameContent(r, q)
    ensures HashHolds(R, r) <==> HashHolds(R, q)
  {
    PreimageKept(Spoken(r.previousHash), r.body);
    PreimageKept(Spoken(q.previousHash), q.body);
  }

  // --------------------------------------------------------- all hashes of a chain differ

  lemma KeptBodyWellFormed(b: Body)
    requires WellFormedBody(b)
    ensures WellFormedBody(KeptBody(b))
  {
    KeptBodyMembers(b);
    forall i | 0 <= i < 9 ensures WellFormed(BodyMembers(KeptBody(b))[i].val) {
      var v := BodyMembers(b)[i].val;
      assert WellFormed(v);
      NormalIsPlain(v);
      PlainIsWellFormed(Normal(v));
    }
  }

  lemma PlainIsWellFormed(v: Value)
    requires Plain(v)
    ensures WellFormed(v)
  {
  }

  lemma ChainedRecords(R: Runtime, es: seq<Entry>)
    requires R.Valid() && Chained(R, es)
    ensures AllSound(R, RecordsFor(es)) && AllWellFormed(RecordsFor(es))
  {
    ChainedIsSound(R, es);
    forall i | 0 <= i < |es| ensures WellFormedBody(RecordsFor(es)[i].body) {
      ChainedAt(R, es, i);
      KeptBodyWellFormed(es[i].body);
    }
  }

  /** Equal hashes at two positions would walk back to the first entry and there name
      GENESIS as a digest. */
  lemma {:induction false} HashesDiffer(R: Runtime, rs: seq<Record>, i: nat, j: nat)
    requires R.Valid() && AllSound(R, rs) && AllWellFormed(rs) && CollisionFree(R, Hashed(rs))
    requires i < j < |rs|
    ensures rs[i].hash != rs[j].hash
  {
    if rs[i].hash == rs[j].hash {
      SoundRecord(R, rs, i);
      SoundRecord(R, rs, j);
      assert RecordText(rs[i]) in Hashed(rs) && RecordText(rs[j]) in Hashed(rs);
      PreimageInjective(rs[i].previousHash.s, rs[i].body, rs[j].previousHash.s, rs[j].body);
      if i > 0 { HashesDiffer(R, rs, i - 1, j - 1); }
      assert false;
    }
  }

  /** No later hash is the one expected at an earlier position. */
  lemma ExpectedDiffers(R: Runtime, rs: seq<Record>, i: nat, j: nat)
    requires R.Valid() && AllSound(R, rs) && AllWellFormed(rs) && CollisionFree(R, Hashed(rs))
    requires i <= j < |rs|
    ensures ExpectedAt(rs, i) != rs[j].hash
  {
    SoundRecord(R, rs, j);
    GenesisIsNoDigest();
    if i > 0 { HashesDiffer(R, rs, i - 1, j); }
  }

  // -------------------------------------------------------------------- single edits

  /** The files, read in order, hold these records; the walk starts at entry 1. */
  function VerdictOn(R: Runtime, files: seq<seq<Line>>, end: int): Verdict {
    ScanFiles(R, files, 1, end, Str(GENESIS))
  }

  lemma SoundSplice(R: Runtime, rs: seq<Record>, qs: seq<Record>, i: nat)
    requires i < |rs| && i < |qs| && qs[..i + 1] == rs[..i + 1] && Sound(R, rs, i)
    ensures Sound(R, qs, i)
  {
    assert qs[i] == qs[..i + 1][i] == rs[i];
    if i > 0 { assert qs[i - 1] == qs[..i + 1][i - 1] == rs[..i + 1][i - 1] == rs[i - 1]; }
  }

  lemma SoundHead(R: Runtime, rs: seq<Record>, qs: seq<Record>, k: nat)
    requires k <= |rs| && k <= |qs| && qs[..k] == rs[..k] && AllSound(R, rs)
    ensures forall i | 0 <= i < k :: Sound(R, qs, i)
    ensures ExpectedAt(qs, k) == ExpectedAt(rs, k)
  {
    forall i | 0 <= i < k ensures Sound(R, qs, i) {
      assert qs[..i + 1] == qs[..k][..i + 1] == rs[..i + 1];
      SoundSplice(R, rs, qs, i);
    }
    if k > 0 { assert qs[k - 1] == qs[..k][k - 1] == rs[k - 1]; }
  }

  /** What the verifier reads of an untouched log: `n` sound entries numbered 1 to `n`. */
  ghost predicate HonestLog(R: Runtime, rs: seq<Record>) {
    && R.Valid()
    && AllSound(R, rs)
    && AllWellFormed(rs)
    && CollisionFree(R, Hashed(rs))
    && Numbered(rs)
  }

  /** Every run of the logger leaves such a log, in whatever order the directory is listed. */
  lemma RunLeavesHonestLog(R: Runtime, d: Disk, evs: seq<Event>, listed: Disk)
    requires R.Valid() && DistinctNames(d) && LogsIn(d) == [] && Calendar(R, evs, None) && |evs| < SAFE
    requires DistinctNames(listed) && multiset(listed) == multiset(Run(R, Initial(d), evs).disk)
    ensures AllRead(LogOf(R, listed))
    ensures var rs := RecordsOf(LogOf(R, listed));
            |rs| == Run(R, Initial(d), evs).mem.seqNo
            && rs == RecordsFor(Entries(Run(R, Initial(d), evs).written))
            && (CollisionFree(R, Hashed(rs)) ==> HonestLog(R, rs))
  {
    RecoveryIsNoOp(R, d, evs, listed);
    InitialConsistent(R, d);
    RunConsistent(R, Initial(d), evs);
    var s := Run(R, Initial(d), evs);
    RunRecords(R, s.written);
    var rs := RecordsFor(Entries(s.written));
    assert LogOf(R, listed) == Flatten(DecodeFiles(R, FilesOf(s.written)));
    assert RecordsOf(LogOf(R, listed)) == rs;
  }

  lemma RunRecords(R: Runtime, gs: seq<Group>)
    requires R.Valid() && Chained(R, Entries(gs))
    ensures var rs := RecordsFor(Entries(gs));
            Reads(Flatten(DecodeFiles(R, FilesOf(gs))), rs) && AllSound(R, rs) && AllWellFormed(rs) && Numbered(rs)
  {
    var es := Entries(gs);
    ChainedBodies(R, es);
    DecodeGroups(R, gs);
    ChainedRecords(R, es);
    RecordsNumbered(R, es);
  }

  /** A record whose previous hash is a hash of a later position breaks the link. */
  lemma LaterLinkBreaks(R: Runtime, rs: seq<Record>, qs: seq<Record>, k: nat, j: nat)
    requires R.Valid() && AllSound(R, rs) && AllWellFormed(rs) && CollisionFree(R, Hashed(rs))
    requires k < |qs| && k < j < |rs| && qs[..k] == rs[..k] && qs[k].previousHash == rs[j].previousHash
    ensures !Linked(qs, k) && forall i | 0 <= i < k :: Sound(R, qs, i)
  {
    SoundHead(R, rs, qs, k);
    SoundRecord(R, rs, j);
    ExpectedDiffers(R, rs, k, j - 1);
  }

  /** An entry brought forward to an earlier position is where the break is reported. */
  lemma EarlyEntryReported(R: Runtime, rs: seq<Record>, qs: seq<Record>, k: nat, j: nat, files: seq<seq<Line>>)
    requires HonestLog(R, rs) && k < j < |rs| && k < |qs|
    requires qs[..k] == rs[..k] && qs[k] == rs[j]
    requires forall i | 0 <= i < |qs| :: InRange(R, qs[i], 1, |rs|)
    requires Reads(Flatten(files), qs)
    ensures VerdictOn(R, files, |rs|) == LinkBroken(Num(IntegerText(j + 1)))
  {
    LaterLinkBreaks(R, rs, qs, k, j);
    FirstUnsoundReported(R, files, qs, k, 1, |rs|);
  }

  /** The log without the entry numbered `j`. */
  function Without(rs: seq<Record>, j: nat): (qs: seq<Record>)
    requires 1 <= j <= |rs|
    ensures |qs| == |rs| - 1
    ensures forall i | 0 <= i < |qs| :: qs[i] == if i < j - 1 then rs[i] else rs[i + 1]
  {
    rs[..j - 1] + rs[j..]
  }

  /** The log with the entries numbered `j` and `j + 1` exchanged. */
  function Swapped(rs: seq<Record>, j: nat): seq<Record>
    requires 1 <= j < |rs|
  {
    rs[j - 1 := rs[j]][j := rs[j - 1]]
  }

  /** Removing the entry numbered `j` is reported at `j + 1`, unless it was the last. */
  lemma DeletionReported(R: Runtime, rs: seq<Record>, j: nat, files: seq<seq<Line>>)
    requires HonestLog(R, rs) && 1 <= j <= |rs|
    requires Reads(Flatten(files), Without(rs, j))
    ensures VerdictOn(R, files, |rs|) == if j < |rs| then LinkBroken(Num(IntegerText(j + 1))) else Intact
  {
    var qs := Without(rs, j);
    if j < |rs| {
      assert qs[..j - 1] == rs[..j - 1];
      EarlyEntryReported(R, rs, qs, j - 1, j, files);
    } else {
      assert qs == rs[..j - 1];
      TruncationVerifies(R, rs, j - 1, |rs|, files);
    }
  }

  /** Swapping the entries numbered `j` and `j + 1` is reported at `j + 1`. */
  lemma SwapReported(R: Runtime, rs: seq<Record>, j: nat, files: seq<seq<Line>>)
    requires HonestLog(R, rs) && 1 <= j < |rs|
    requires Reads(Flatten(files), Swapped(rs, j))
    ensures VerdictOn(R, files, |rs|) == LinkBroken(Num(IntegerText(j + 1)))
  {
    var qs := Swapped(rs, j);
    assert qs[..j - 1] == rs[..j - 1];
    assert forall i | 0 <= i < |qs| :: qs[i] == if i == j - 1 then rs[j] else if i == j then rs[j - 1] else rs[i];
    EarlyEntryReported(R, rs, qs, j - 1, j, files);
  }

  /** A log with the same contents and numbers as an honest one verifies like it. */
  lemma SameContentsVerify(R: Runtime, rs: seq<Record>, qs: seq<Record>, files: seq<seq<Line>>)
    requires HonestLog(R, rs) && SameContents(rs, qs) && Numbered(qs) && Reads(Flatten(files), qs)
    ensures VerdictOn(R, files, |rs|) == Intact
  {
    forall i | 0 <= i < |qs| ensures Sound(R, qs, i) {
      assert Sound(R, rs, i);
      SameContentsSound(R, rs, qs, i);
    }
    SoundVerifies(R, files, qs, 1, |rs|);
  }

  lemma SameContentsUpdate(rs: seq<Record>, k: nat, q: Record)
    requires k < |rs| && SameContent(rs[k], q)
    ensures SameContents(rs, rs[k := q])
  {
  }

  lemma NumberedUpdate(rs: seq<Record>, k: nat, q: Record)
    requires Numbered(rs) && k < |rs| && q.seqNo == rs[k].seqNo
    ensures Numbered(rs[k := q])
  {
  }

  lemma NumberedInRange(R: Runtime, rs: seq<Record>)
    requires R.Valid() && Numbered(rs)
    ensures forall i | 0 <= i < |rs| :: InRange(R, rs[i], 1, |rs|)
  {
  }

  /** An entry that was given another body and another number, and kept its hashes. */
  function Altered(r: Record, b: Body, v: Value): Record { r.(body := b, seqNo := v) }

  /** What changing an entry's body and number, but not its hash, comes to. A number below 1
      makes the verifier pass the entry over, whatever it says. A number in range leaves it to
      the body, which is reported if and only if it prints differently. A number past the end
      makes the verifier leave the file, which is reported if and only if entries follow that
      file, at the first of them. */
  lemma AlteredEntry(R: Runtime, rs: seq<Record>, j: nat, b: Body, v: Value, files: seq<seq<Line>>)
    requires HonestLog(R, rs) && 1 <= j <= |rs| && WellFormedBody(b)
    requires CollisionFree(R, Hashed(rs) + {Preimage(Spoken(rs[j - 1].previousHash), b)})
    requires Reads(Flatten(files), rs[j - 1 := Altered(rs[j - 1], b, v)])
    ensures R.below(v, 1) ==> VerdictOn(R, files, |rs|) == Intact
    ensures !R.below(v, 1) && !R.above(v, |rs|) ==>
            VerdictOn(R, files, |rs|) == if KeptBody(b) == KeptBody(rs[j - 1].body) then Intact else HashMismatch(v)
    ensures !R.below(v, 1) && R.above(v, |rs|) ==>
            var m := FileEnd(files, j - 1);
            VerdictOn(R, files, |rs|) == if m == |rs| then Intact else LinkBroken(Num(IntegerText(m + 1)))
  {
    var k, q := j - 1, Altered(rs[j - 1], b, v);
    var qs := rs[k := q];
    NumberedInRange(R, rs);
    OthersStaySound(R, rs, qs, k);
    if R.below(v, 1) {
      PassedOver(R, rs, qs, k, files);
    } else if R.above(v, |rs|) {
      FileLeft(R, rs, qs, j, files);
    } else {
      assert forall i | 0 <= i < |qs| :: InRange(R, qs[i], 1, |rs|);
      if KeptBody(b) == KeptBody(rs[k].body) {
        AlikeIsSound(R, rs, qs, k);
        AllSoundVerifies(R, files, qs, 1, |rs|);
      } else {
        ChangedIsUnsound(R, rs, qs, k, b, v);
        FirstUnsoundReported(R, files, qs, k, 1, |rs|);
      }
    }
  }

  lemma AllSoundVerifies(R: Runtime, files: seq<seq<Line>>, qs: seq<Record>, start: int, end: int)
    requires Reads(Flatten(files), qs) && AllSound(R, qs) && forall i | 0 <= i < |qs| :: InRange(R, qs[i], start, end)
    ensures ScanFiles(R, files, start, end, Str(GENESIS)) == Intact
  {
    VerifiedIffSound(R, files, start, end);
    assert RecordsOf(Flatten(files)) == qs;
  }

  lemma OthersStaySound(R: Runtime, rs: seq<Record>, qs: seq<Record>, k: nat)
    requires AllSound(R, rs) && |qs| == |rs| && k < |rs| && qs[k].hash == rs[k].hash
    requires forall i | 0 <= i < |rs| && i != k :: qs[i] == rs[i]
    ensures forall i | 0 <= i < |rs| && i != k :: Sound(R, qs, i)
  {
    forall i | 0 <= i < |rs| && i != k ensures Sound(R, qs, i) {
      assert Sound(R, rs, i);
      assert ExpectedAt(qs, i) == ExpectedAt(rs, i);
    }
  }

  lemma AlikeIsSound(R: Runtime, rs: seq<Record>, qs: seq<Record>, k: nat)
    requires AllSound(R, rs) && |qs| == |rs| && k < |rs| && SameContent(rs[k], qs[k])
    requires forall i | 0 <= i < |rs| && i != k :: qs[i] == rs[i]
    ensures AllSound(R, qs)
  {
    assert SameContents(rs, qs);
    forall i | 0 <= i < |qs| ensures Sound(R, qs, i) {
      assert Sound(R, rs, i);
      SameContentsSound(R, rs, qs, i);
    }
  }

  /** A number below the start: nothing is bad. */
  lemma PassedOver(R: Runtime, rs: seq<Record>, qs: seq<Record>, k: nat, files: seq<seq<Line>>)
    requires k < |rs| == |qs| && Reads(Flatten(files), qs) && Early(R, qs[k], 1)
    requires forall i | 0 <= i < |rs| && i != k :: InRange(R, qs[i], 1, |rs|) && Sound(R, qs, i)
    ensures VerdictOn(R, files, |rs|) == Intact
  {
    var ds := Flatten(files);
    forall i | 0 <= i < |ds| ensures !Cuts(R, ds[i], 1, |rs|) && !BadAt(R, ds, i, 1, Str(GENESIS)) {
      BadIsUnsound(R, ds, qs, i, 1);
    }
    NoCutIsSeen(R, files, 1, |rs|);
    FirstBadIs(R, ds, |ds|, 1, Str(GENESIS));
    VerdictIsFirstBad(R, files, 1, |rs|, Str(GENESIS));
  }

  /** A number past the end: the walk goes on with the first entry of the next file. */
  lemma FileLeft(R: Runtime, rs: seq<Record>, qs: seq<Record>, j: nat, files: seq<seq<Line>>)
    requires HonestLog(R, rs) && 1 <= j <= |rs| == |qs| && Reads(Flatten(files), qs)
    requires !Early(R, qs[j - 1], 1) && Past(R, qs[j - 1], |rs|)
    requires forall i | 0 <= i < |rs| && i != j - 1 :: qs[i] == rs[i] && InRange(R, rs[i], 1, |rs|)
    ensures var m := FileEnd(files, j - 1);
            VerdictOn(R, files, |rs|) == if m == |rs| then Intact else LinkBroken(Num(IntegerText(m + 1)))
  {
    var ds, k := Flatten(files), j - 1;
    OnlyThisCuts(R, ds, qs, k);
    var m := FileEnd(files, k);
    SeenAroundCut(R, files, k, 1, |rs|);
    GapReads(ds, rs, qs, k, m);
    GapReported(R, rs, k, m, Gap(ds, k, m));
    VerdictIsFirstBad(R, files, 1, |rs|, Str(GENESIS));
  }

  lemma OnlyThisCuts(R: Runtime, ds: seq<Line>, qs: seq<Record>, k: nat)
    requires Reads(ds, qs) && k < |qs| && !Early(R, qs[k], 1) && Past(R, qs[k], |qs|)
    requires forall i | 0 <= i < |qs| && i != k :: InRange(R, qs[i], 1, |qs|)
    ensures OnlyCut(R, ds, k, 1, |qs|)
  {
  }

  lemma GapReads(ds: seq<Line>, rs: seq<Record>, qs: seq<Record>, k: nat, m: nat)
    requires Reads(ds, qs) && k < m <= |qs| == |rs| && forall i | 0 <= i < |rs| && i != k :: qs[i] == rs[i]
    ensures Reads(Gap(ds, k, m), rs[..k] + rs[m..])
  {
  }

  lemma GapReported(R: Runtime, rs: seq<Record>, k: nat, m: nat, ds: seq<Line>)
    requires HonestLog(R, rs) && k < m <= |rs| && Reads(ds, rs[..k] + rs[m..])
    ensures ReportAt(ds, FirstBad(R, ds, 1, Str(GENESIS)), Str(GENESIS))
         == if m == |rs| then Intact else LinkBroken(Num(IntegerText(m + 1)))
  {
    var os := rs[..k] + rs[m..];
    assert os[..k] == rs[..k];
    SoundHead(R, rs, os, k);
    NumberedInRange(R, rs);
    if m < |rs| {
      assert os[k] == rs[m];
      LaterLinkBreaks(R, rs, os, k, m);
      BadIsUnsound(R, ds, os, k, 1);
    }
    forall i | 0 <= i < k ensures !BadAt(R, ds, i, 1, Str(GENESIS)) { BadIsUnsound(R, ds, os, i, 1); }
    FirstBadIs(R, ds, k, 1, Str(GENESIS));
  }

  /** Changing a body and keeping its hash is reported at that entry, if and only if the body
      then prints differently: writing `1.0` for `1`, say, is no change. */
  lemma ChangeReported(R: Runtime, rs: seq<Record>, j: nat, b: Body, files: seq<seq<Line>>)
    requires HonestLog(R, rs) && 1 <= j <= |rs| && WellFormedBody(b)
    requires var r := rs[j - 1];
             && CollisionFree(R, Hashed(rs) + {Preimage(Spoken(r.previousHash), b)})
             && Reads(Flatten(files), rs[j - 1 := r.(body := b)])
    ensures VerdictOn(R, files, |rs|)
         == if KeptBody(b) == KeptBody(rs[j - 1].body) then Intact else HashMismatch(Num(IntegerText(j)))
  {
    NumberedInRange(R, rs);
    assert InRange(R, rs[j - 1], 1, |rs|);
    AlteredEntry(R, rs, j, b, rs[j - 1].seqNo, files);
  }

  lemma ChangedIsUnsound(R: Runtime, rs: seq<Record>, qs: seq<Record>, k: nat, b: Body, v: Value)
    requires R.Valid() && AllSound(R, rs) && AllWellFormed(rs)
    requires k < |rs| && qs == rs[k := Altered(rs[k], b, v)]
    requires WellFormedBody(b) && KeptBody(b) != KeptBody(rs[k].body)
    requires CollisionFree(R, Hashed(rs) + {Preimage(Spoken(rs[k].previousHash), b)})
    ensures (forall i | 0 <= i < k :: Sound(R, qs, i)) && !Sound(R, qs, k)
    ensures Report(Some(qs[k]), ExpectedAt(qs, k)) == HashMismatch(v)
  {
    assert qs[..k] == rs[..k];
    SoundHead(R, rs, qs, k);
    SoundRecord(R, rs, k);
    RehashDiffers(R, rs, k, b);
  }

  lemma RehashDiffers(R: Runtime, rs: seq<Record>, k: nat, b: Body)
    requires R.Valid() && AllSound(R, rs) && AllWellFormed(rs) && k < |rs|
    requires WellFormedBody(b) && KeptBody(b) != KeptBody(rs[k].body)
    requires CollisionFree(R, Hashed(rs) + {Preimage(Spoken(rs[k].previousHash), b)})
    ensures Str(R.sha256(Preimage(Spoken(rs[k].previousHash), b))) != rs[k].hash
  {
    SoundRecord(R, rs, k);
    assert RecordText(rs[k]) in Hashed(rs);
    var p := rs[k].previousHash.s;
    if R.sha256(Preimage(p, b)) == R.sha256(RecordText(rs[k])) {
      PreimageInjective(p, b, p, rs[k].body);
      assert false;
    }
  }

  /** The record after its body was replaced and its hash recomputed. */
  function Rehashed(R: Runtime, r: Record, b: Body): Record {
    r.(body := b, hash := Str(R.sha256(Preimage(Spoken(r.previousHash), b))))
  }

  /** A recomputed entry is sound itself, but no longer hands on the hash that was linked. */
  lemma RehashedFacts(R: Runtime, rs: seq<Record>, k: nat, b: Body)
    requires R.Valid() && AllSound(R, rs) && AllWellFormed(rs) && k < |rs|
    requires WellFormedBody(b) && KeptBody(b) != KeptBody(rs[k].body)
    requires CollisionFree(R, Hashed(rs) + {Preimage(Spoken(rs[k].previousHash), b)})
    ensures var qs := rs[k := Rehashed(R, rs[k], b)];
            && (forall i | 0 <= i <= k :: Sound(R, qs, i))
            && (k + 1 < |rs| ==> !Linked(qs, k + 1))
  {
    var qs := rs[k := Rehashed(R, rs[k], b)];
    assert qs[..k] == rs[..k];
    SoundHead(R, rs, qs, k);
    RehashedIsSound(R, rs, k, b);
    RehashDiffers(R, rs, k, b);
    if k + 1 < |rs| { NextLinkBreaks(R, rs, qs, k); }
  }

  lemma RehashedIsSound(R: Runtime, rs: seq<Record>, k: nat, b: Body)
    requires AllSound(R, rs) && k < |rs|
    ensures Sound(R, rs[k := Rehashed(R, rs[k], b)], k)
  {
    assert Sound(R, rs, k);
  }

  lemma NextLinkBreaks(R: Runtime, rs: seq<Record>, qs: seq<Record>, k: nat)
    requires R.Valid() && AllSound(R, rs) && k + 1 < |rs| == |qs|
    requires qs[k + 1] == rs[k + 1] && qs[k].hash != rs[k].hash
    ensures !Linked(qs, k + 1)
  {
    SoundRecord(R, rs, k + 1);
  }

  /** Changing a body and recomputing its hash is reported at the next entry; at the last
      entry it is not reported, nor is a change that prints alike. */
  lemma RehashedChangeReported(R: Runtime, rs: seq<Record>, j: nat, b: Body, files: seq<seq<Line>>)
    requires HonestLog(R, rs) && 1 <= j <= |rs| && WellFormedBody(b)
    requires var r := rs[j - 1];
             && CollisionFree(R, Hashed(rs) + {Preimage(Spoken(r.previousHash), b)})
             && Reads(Flatten(files), rs[j - 1 := Rehashed(R, r, b)])
    ensures var alike := KeptBody(b) == KeptBody(rs[j - 1].body);
            VerdictOn(R, files, |rs|) == if j < |rs| && !alike then LinkBroken(Num(IntegerText(j + 1))) else Intact
  {
    var q := Rehashed(R, rs[j - 1], b);
    NumberedUpdate(rs, j - 1, q);
    if KeptBody(b) == KeptBody(rs[j - 1].body) {
      RehashedAlike(R, rs, j - 1, b);
      SameContentsUpdate(rs, j - 1, q);
      SameContentsVerify(R, rs, rs[j - 1 := q], files);
    } else {
      RehashedFacts(R, rs, j - 1, b);
      RehashedReported(R, rs[j - 1 := q], j, files);
    }
  }

  /** Sound before position `j`, and not linked there. */
  lemma RehashedReported(R: Runtime, qs: seq<Record>, j: nat, files: seq<seq<Line>>)
    requires R.Valid() && Numbered(qs) && j <= |qs| && Reads(Flatten(files), qs)
    requires (forall i | 0 <= i < j :: Sound(R, qs, i)) && (j < |qs| ==> !Linked(qs, j))
    ensures VerdictOn(R, files, |qs|) == if j < |qs| then LinkBroken(Num(IntegerText(j + 1))) else Intact
  {
    if j < |qs| {
      NumberedInRange(R, qs);
      FirstUnsoundReported(R, files, qs, j, 1, |qs|);
    } else {
      SoundVerifies(R, files, qs, 1, |qs|);
    }
  }

  lemma RehashedAlike(R: Runtime, rs: seq<Record>, k: nat, b: Body)
    requires AllSound(R, rs) && k < |rs| && KeptBody(b) == KeptBody(rs[k].body)
    ensures SameContent(rs[k], Rehashed(R, rs[k], b))
  {
    assert Sound(R, rs, k);
    PreimageKept(Spoken(rs[k].previousHash), b);
    PreimageKept(Spoken(rs[k].previousHash), rs[k].body);
  }

  /** A log cut off after any number of entries still verifies. */
  lemma TruncationVerifies(R: Runtime, rs: seq<Record>, n: nat, end: int, files: seq<seq<Line>>)
    requires R.Valid() && AllSound(R, rs) && Numbered(rs) && n <= |rs|
    requires Reads(Flatten(files), rs[..n])
    ensures VerdictOn(R, files, end).Valid()
  {
    SoundHead(R, rs, rs[..n], n);
    SoundVerifies(R, files, rs[..n], 1, end);
  }

  // ----------------------------------------------------- the same contents, renumbered

  /** A directory with one entry, the first of its chain, that carries the number `n`. */
  function OneEntry(R: Runtime, b: Body, n: int): Entry { Entry(b, R.sha256(Preimage(GENESIS, b)), GENESIS, n) }

  function OneFile(R: Runtime, b: Body, n: int): Disk {
    FilesOf([Group(Day(2024, 1, 1), [OneEntry(R, b, n)])])
  }

  lemma OneLogFile(f: File)
    requires EndsWith(f.name, SUFFIX)
    ensures LogFiles([f]) == [f]
  {
    assert [f][1..] == [];
    assert LogsIn([f]) == [f] + LogsIn([]) == [f];
    assert Sort([f]) == Insert(f, Sort([])) == [f];
  }

  lemma OneGroupRead(R: Runtime, g: Group)
    requires R.Valid() && |g.entries| == 1 && RuntimeEntry(R, g.entries[0])
    ensures LogOf(R, FilesOf([g])) == [Some(RecordOf(g.entries[0]))]
  {
    FileNameIsLog(g.day);
    assert [g][1..] == [] && FilesOf([g]) == [FileOf(g)];
    OneLogFile(FileOf(g));
    EntriesOfOne(g);
    DecodeGroups(R, [g]);
  }

  lemma OneEntryIsSound(R: Runtime, b: Body, n: int)
    ensures Sound(R, [RecordOf(OneEntry(R, b, n))], 0)
  {
    PreimageKept(GENESIS, b);
    assert RecordOf(OneEntry(R, b, n)).hash == Str(R.sha256(Preimage(GENESIS, b)));
  }

  lemma OneEntryInRange(R: Runtime, r: Record, n: int, end: int)
    requires R.Valid() && r.seqNo == Num(IntegerText(n)) && 1 <= n <= end && n < SAFE
    ensures InRange(R, r, 1, end)
  {
  }

  lemma OneFileVerifies(R: Runtime, b: Body, n: int, end: int)
    requires R.Valid() && RuntimeBody(R, b) && 1 <= n <= end && n < SAFE
    ensures VerifiedWhole(R, OneFile(R, b, n), end)
  {
    OneGroupRead(R, Group(Day(2024, 1, 1), [OneEntry(R, b, n)]));
    OneEntryIsSound(R, b, n);
    OneEntryInRange(R, RecordOf(OneEntry(R, b, n)), n, end);
    OneRecordVerifies(R, DecodeFiles(R, LogFiles(OneFile(R, b, n))), RecordOf(OneEntry(R, b, n)), end);
  }

  lemma OneRecordVerifies(R: Runtime, files: seq<seq<Line>>, r: Record, end: int)
    requires Flatten(files) == [Some(r)] && InRange(R, r, 1, end) && Sound(R, [r], 0)
    ensures AllInRange(R, Flatten(files), 1, end) && ScanFiles(R, files, 1, end, Str(GENESIS)).Valid()
  {
    assert RecordsOf(Flatten(files)) == [r];
    VerifiedIffSound(R, files, 1, end);
  }

  const SAMPLE := Body(Str(T("2024-01-01T00:00:00.000Z")), Str(T("iam")), Str(T("u")), Str(T("LOGIN")),
                       Str(T("SUCCESS")), Str(T("127.0.0.1")), Undef, Undef, Undef)

  lemma SampleIsValue(R: Runtime)
    ensures RuntimeBody(R, SAMPLE)
  {
    forall i | 0 <= i < 9 ensures WellFormed(BodyMembers(SAMPLE)[i].val) && Printed(R, BodyMembers(SAMPLE)[i].val) {
      assert BodyMembers(SAMPLE)[i].val.Str? || BodyMembers(SAMPLE)[i].val.Undef?;
    }
  }

  lemma OneRecordLogs(ds: seq<Line>, es: seq<Line>, r: Record, q: Record)
    requires ds == [Some(r)] && es == [Some(q)] && SameContent(r, q)
    ensures AllRead(ds) && AllRead(es) && SameContents(RecordsOf(ds), RecordsOf(es))
  {
  }

  /** One and the same entry verifies under number 1 and under number 2. */
  lemma RenumberedVerifies(R: Runtime)
    requires R.Valid()
    ensures var d, e := OneFile(R, SAMPLE, 1), OneFile(R, SAMPLE, 2);
            VerifiedWhole(R, d, 2) && VerifiedWhole(R, e, 2) && LogOf(R, d) != LogOf(R, e)
            && AllRead(LogOf(R, d)) && AllRead(LogOf(R, e))
            && SameContents(RecordsOf(LogOf(R, d)), RecordsOf(LogOf(R, e)))
  {
    SampleIsValue(R);
    OneFileVerifies(R, SAMPLE, 1, 2);
    OneFileVerifies(R, SAMPLE, 2, 2);
    RenumberedLogs(R, SAMPLE, 1, 2);
  }

  lemma RenumberedLogs(R: Runtime, b: Body, n: int, m: int)
    requires R.Valid() && RuntimeBody(R, b) && n != m && IsSafe(n) && IsSafe(m)
    ensures var ds, es := LogOf(R, OneFile(R, b, n)), LogOf(R, OneFile(R, b, m));
            ds != es && AllRead(ds) && AllRead(es) && SameContents(RecordsOf(ds), RecordsOf(es))
  {
    var e, f := OneEntry(R, b, n), OneEntry(R, b, m);
    OneGroupRead(R, Group(Day(2024, 1, 1), [e]));
    OneGroupRead(R, Group(Day(2024, 1, 1), [f]));
    OneRecordLogs(LogOf(R, OneFile(R, b, n)), LogOf(R, OneFile(R, b, m)), RecordOf(e), RecordOf(f));
    IntegerTextIsNumber(n);
    IntegerTextIsNumber(m);
    assert RecordOf(e).seqNo != RecordOf(f).seqNo;
  }
}
