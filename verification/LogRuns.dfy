/** Runs of the logger: writes and restarts, what the files hold after them, that
    recovery finds the writer's state again, and that every run verifies. */
module LogRuns {
  import opened JsText
  import opened Decimal
  import opened Option
  import opened Json
  import opened JsRuntime
  import opened LogEntry
  import opened LogDirectory
  import opened ChainScan

  /** What a caller logs. */
  datatype Format = Format(
    timestamp: Option<Text>, service: Text, user: Text, action: Text, result: Text, ip: Text,
    device: Value, geo: Value, metadata: Value)
  {
    /** Its values are values of the runtime. */
    predicate Valid(R: Runtime) {
      && WellFormed(device) && WellFormed(geo) && WellFormed(metadata)
      && Printed(R, device) && Printed(R, geo) && Printed(R, metadata)
    }
  }

  /** The fields of the logger that a restart loses. */
  datatype Memory = Memory(lastHash: Text, seqNo: int)

  const FRESH := Memory(GENESIS, 0)

  /** The nine members that are logged; `stamp` is the clock's reading in ISO form. */
  function BodyOf(f: Format, stamp: Text): Body {
    var time := if f.timestamp.None? || f.timestamp.value == [] then stamp else f.timestamp.value;
    Body(Str(time), Str(f.service), Str(f.user), Str(f.action), Str(f.result), Str(f.ip),
         f.device, f.geo, f.metadata)
  }

  lemma BodyOfValues(R: Runtime, f: Format, stamp: Text)
    requires f.Valid(R)
    ensures RuntimeBody(R, BodyOf(f, stamp))
  {
    var ms := BodyMembers(BodyOf(f, stamp));
    forall i | 0 <= i < 9 ensures WellFormed(ms[i].val) && Printed(R, ms[i].val) {
      if i < 6 { assert ms[i].val.Str?; }
    }
  }

  function NextEntry(R: Runtime, m: Memory, b: Body): Entry {
    Entry(b, R.sha256(Preimage(m.lastHash, b)), m.lastHash, m.seqNo + 1)
  }

  function Remember(e: Entry): Memory { Memory(e.hash, e.seqNo) }

  function WriteEntry(d: Disk, day: Day, e: Entry): Disk
    requires DistinctNames(d)
  {
    Append(d, FileName(day), LineOf(e) + [NEWLINE])
  }

  /** `v || 'GENESIS'`. */
  function HashOr(v: Value): Text {
    if v.Str? && v.s != [] then v.s else GENESIS
  }

  /** `v || 0`. */
  function NumberOr(v: Value): int {
    if v.Num? then IntegerOf(v.tok).GetOr(0) else 0
  }

  /** `initializeFromLastLog` on a logger whose memory is `m`. */
  function Recover(R: Runtime, d: Disk, m: Memory): Memory { RecoverFrom(R, LogFiles(d), m) }

  function RecoverFrom(R: Runtime, files: Disk, m: Memory): Memory {
    if files == [] then m
    else
      var lines := Lines(files[|files| - 1].content);
      if lines == [] then m else RecoverLine(R, lines[|lines| - 1])
  }

  /** The memory a last line stands for; reading a member of `null` throws like a line
      that does not parse. */
  function RecoverLine(R: Runtime, line: Text): Memory {
    match ParseJson(R, line)
    case Fail => FRESH
    case Parsed(v, _) =>
      if v.Null? then FRESH else Memory(HashOr(Get(v, HASH)), NumberOr(Get(v, LOG_SEQUENCE_NUMBER)))
  }

  /** A last line that does not parse, or is `null`, starts the log afresh; one without the two
      members stands for the beginning too. */
  lemma GarbledLineStartsAfresh(R: Runtime, files: Disk, m: Memory)
    requires files != [] && Lines(files[|files| - 1].content) != []
    ensures var ls := Lines(files[|files| - 1].content);
            var p := ParseJson(R, ls[|ls| - 1]);
            p.Fail? || p.v.Null? || (Get(p.v, T("hash")).Undef? && Get(p.v, T("logSequenceNumber")).Undef?)
            ==> RecoverFrom(R, files, m) == Memory(T("GENESIS"), 0)
  {
  }

  /** A last line with a hash and a number is taken up, an empty hash standing for none. */
  lemma LineTakenUp(R: Runtime, line: Text, hash: Text, n: int)
    ensures var p := ParseJson(R, line);
            p.Parsed? && Get(p.v, T("hash")) == Str(hash) && Get(p.v, T("logSequenceNumber")) == Num(IntegerText(n))
            ==> RecoverLine(R, line) == Memory(if hash == [] then T("GENESIS") else hash, n)
  {
    IntegerTextIsNumber(n);
  }

  /** A bound of the range: absent and 0 both mean the default. */
  function Bound(given: Option<int>, default: int): int {
    if given.None? || given.value == 0 then default else given.value
  }

  function DecodeFiles(R: Runtime, fs: Disk): (r: seq<seq<Line>>)
    ensures |r| == |fs|
  {
    if fs == [] then [] else [Decode(R, Lines(fs[0].content))] + DecodeFiles(R, fs[1..])
  }

  lemma {:induction false} DecodedAt(R: Runtime, fs: Disk, i: nat)
    requires i < |fs|
    ensures DecodeFiles(R, fs)[i] == Decode(R, Lines(fs[i].content))
  {
    if i > 0 { DecodedAt(R, fs[1..], i - 1); }
  }

  /** `verifyChainIntegrity(startSeq, endSeq)` of a logger that has written up to `seqNo`. */
  function Verify(R: Runtime, d: Disk, startSeq: Option<int>, endSeq: Option<int>, seqNo: int): Verdict {
    ScanFiles(R, DecodeFiles(R, LogFiles(d)), Bound(startSeq, 1), Bound(endSeq, seqNo), Str(GENESIS))
  }

  /** The range in numbers: from 1 and up to the last number written, unless a bound other than
      0 is given. */
  lemma VerifyRange(R: Runtime, d: Disk, seqNo: int, start: int, end: int, a: Option<int>, b: Option<int>)
    requires a == None || a == Some(0)
    requires b == None || b == Some(0)
    ensures Verify(R, d, a, b, seqNo)
         == ScanFiles(R, DecodeFiles(R, LogFiles(d)), 1, seqNo, Str(T("GENESIS")))
    ensures start != 0 ==> (Verify(R, d, Some(start), b, seqNo)
              == ScanFiles(R, DecodeFiles(R, LogFiles(d)), start, seqNo, Str(T("GENESIS"))))
    ensures end != 0 ==> (Verify(R, d, a, Some(end), seqNo)
              == ScanFiles(R, DecodeFiles(R, LogFiles(d)), 1, end, Str(T("GENESIS"))))
    ensures start != 0 && end != 0 ==> (Verify(R, d, Some(start), Some(end), seqNo)
              == ScanFiles(R, DecodeFiles(R, LogFiles(d)), start, end, Str(T("GENESIS"))))
  {
  }

  // --------------------------------------------------------------------------- runs

  datatype Event =
    | Write(format: Format, stamp: Text, day: Day)
    | Restart

  /** The entries written to one day's file. */
  datatype Group = Group(day: Day, entries: seq<Entry>)

  /** Memory and disk, with the entries written so far kept beside them. */
  datatype State = State(mem: Memory, disk: Disk, written: seq<Group>)

  function Extend(gs: seq<Group>, day: Day, e: Entry): seq<Group> {
    if gs != [] && gs[|gs| - 1].day == day
    then gs[..|gs| - 1] + [Group(day, gs[|gs| - 1].entries + [e])]
    else gs + [Group(day, [e])]
  }

  function Step(R: Runtime, s: State, ev: Event): (r: State)
    requires DistinctNames(s.disk)
    ensures DistinctNames(r.disk)
  {
    match ev
    case Write(f, stamp, day) =>
      var e := NextEntry(R, s.mem, BodyOf(f, stamp));
      State(Remember(e), WriteEntry(s.disk, day, e), Extend(s.written, day, e))
    case Restart => State(Recover(R, s.disk, FRESH), s.disk, s.written)
  }

  function Run(R: Runtime, s: State, evs: seq<Event>): State
    requires DistinctNames(s.disk)
    decreases evs
  {
    if evs == [] then s else Run(R, Step(R, s, evs[0]), evs[1..])
  }

  function LastDay(gs: seq<Group>): Option<Day> {
    if gs == [] then None else Some(gs[|gs| - 1].day)
  }

  predicate NotBefore(day: Day, last: Option<Day>) {
    last.None? || !Earlier(day, last.value)
  }

  /** The clock never goes back to an earlier day, across restarts too. */
  predicate Calendar(R: Runtime, evs: seq<Event>, last: Option<Day>) {
    evs == [] || (
      match evs[0]
      case Write(f, _, day) =>
        f.Valid(R) && day.Valid() && NotBefore(day, last) && Calendar(R, evs[1..], Some(day))
      case Restart => Calendar(R, evs[1..], last))
  }

  // ------------------------------------------------------------------- the invariant

  function Entries(gs: seq<Group>): seq<Entry> {
    if gs == [] then [] else gs[0].entries + Entries(gs[1..])
  }

  function LinesOf(es: seq<Entry>): (ls: seq<Text>)
    ensures |ls| == |es|
    ensures forall i | 0 <= i < |es| :: ls[i] == LineOf(es[i])
  {
    if es == [] then [] else [LineOf(es[0])] + LinesOf(es[1..])
  }

  function FileOf(g: Group): File { File(FileName(g.day), Terminated(LinesOf(g.entries))) }

  function FilesOf(gs: seq<Group>): (d: Disk)
    ensures |d| == |gs|
    ensures forall i | 0 <= i < |gs| :: d[i] == FileOf(gs[i])
  {
    if gs == [] then [] else [FileOf(gs[0])] + FilesOf(gs[1..])
  }

  predicate DaysAscend(gs: seq<Group>) {
    (forall i | 0 <= i < |gs| :: gs[i].day.Valid() && gs[i].entries != [])
    && forall i, j | 0 <= i < j < |gs| :: Earlier(gs[i].day, gs[j].day)
  }

  function PreviousAt(es: seq<Entry>, i: nat): Text
    requires i <= |es|
  {
    if i == 0 then GENESIS else es[i - 1].hash
  }

  /** Numbered from 1 without gaps, each entry naming the hash before it and carrying the
      hash of its own contents. */
  predicate Chained(R: Runtime, es: seq<Entry>) {
    forall i | 0 <= i < |es| :: InChain(R, es, i)
  }

  predicate InChain(R: Runtime, es: seq<Entry>, i: nat)
    requires i < |es|
  {
    && es[i].seqNo == i + 1
    && es[i].previousHash == PreviousAt(es, i)
    && es[i].hash == R.sha256(Preimage(es[i].previousHash, es[i].body))
    && RuntimeEntry(R, es[i])
  }

  function MemoryAfter(es: seq<Entry>): Memory {
    if es == [] then FRESH else Remember(es[|es| - 1])
  }

  /** What holds between any two events: the log files are exactly the days written, in
      order and none empty, their entries are chained, and memory is the last of them. */
  predicate Consistent(R: Runtime, s: State) {
    && DistinctNames(s.disk)
    && LogsIn(s.disk) == FilesOf(s.written)
    && DaysAscend(s.written)
    && Chained(R, Entries(s.written))
    && s.mem == MemoryAfter(Entries(s.written))
  }

  /** What being chained says of one position. */
  lemma ChainedAt(R: Runtime, es: seq<Entry>, i: nat)
    requires Chained(R, es) && i < |es|
    ensures es[i].seqNo == i + 1 && es[i].previousHash == PreviousAt(es, i)
    ensures es[i].hash == R.sha256(Preimage(es[i].previousHash, es[i].body)) && RuntimeEntry(R, es[i])
  {
    assert InChain(R, es, i);
  }

  // -------------------------------------------------------------- files of the groups

  lemma {:induction false} AppendToLast(d: Disk, name: Text, text: Text)
    requires DistinctNames(d) && d != [] && d[|d| - 1].name == name
    ensures Append(d, name, text) == d[..|d| - 1] + [File(name, d[|d| - 1].content + text)]
  {
    if |d| > 1 {
      AppendToLast(d[1..], name, text);
      assert d[0].name != d[|d| - 1].name;
      assert d[..|d| - 1] == [d[0]] + d[1..][..|d| - 2];
    }
  }

  lemma {:induction false} AppendNew(d: Disk, name: Text, text: Text)
    requires DistinctNames(d) && forall f | f in d :: f.name != name
    ensures Append(d, name, text) == d + [File(name, text)]
  {
    if d != [] {
      AppendNew(d[1..], name, text);
      assert d == [d[0]] + d[1..];
    }
  }

  lemma FilesOfSorted(gs: seq<Group>)
    requires DaysAscend(gs)
    ensures Sorted(FilesOf(gs)) && DistinctNames(FilesOf(gs))
  {
    var d := FilesOf(gs);
    forall i, j | 0 <= i < j < |d| ensures Before(d[i].name, d[j].name) && d[i].name != d[j].name {
      NameOrderIsDayOrder(gs[i].day, gs[j].day);
    }
  }

  /** File order is chain order: sorting the names puts the days in the order written. */
  lemma SortedFilesAreTheDays(R: Runtime, s: State)
    requires Consistent(R, s)
    ensures LogFiles(s.disk) == FilesOf(s.written)
  {
    FilesOfSorted(s.written);
    SortSorted(FilesOf(s.written));
    SortedUnique(Sort(FilesOf(s.written)), FilesOf(s.written));
  }

  lemma {:induction false} LinesOfAppend(es: seq<Entry>, e: Entry)
    ensures LinesOf(es + [e]) == LinesOf(es) + [LineOf(e)]
  {
    if es == [] {
      assert es + [e] == [e];
    } else {
      LinesOfAppend(es[1..], e);
      assert (es + [e])[1..] == es[1..] + [e];
    }
  }

  lemma FilesOfAppend(gs: seq<Group>, g: Group)
    ensures FilesOf(gs + [g]) == FilesOf(gs) + [FileOf(g)]
  {
  }

  /** One more line in the file of a group. */
  lemma FileGrows(g: Group, e: Entry)
    ensures FileOf(Group(g.day, g.entries + [e]))
         == File(FileName(g.day), FileOf(g).content + (LineOf(e) + [NEWLINE]))
  {
    var ls, l := LinesOf(g.entries), LineOf(e);
    LinesOfAppend(g.entries, e);
    TerminatedAppend(ls, l);
    assert Terminated(ls) + (l + [NEWLINE]) == Terminated(ls) + l + [NEWLINE];
  }

  lemma WriteExtendsLast(gs: seq<Group>, g: Group, e: Entry)
    requires DaysAscend(gs + [g])
    ensures var text := LineOf(e) + [NEWLINE];
            DistinctNames(FilesOf(gs + [g]))
            && Append(FilesOf(gs + [g]), FileName(g.day), text) == FilesOf(Extend(gs + [g], g.day, e))
  {
    var text := LineOf(e) + [NEWLINE];
    var bigger := Group(g.day, g.entries + [e]);
    FilesOfSorted(gs + [g]);
    FilesOfAppend(gs, g);
    FilesOfAppend(gs, bigger);
    FileGrows(g, e);
    AppendToLast(FilesOf(gs + [g]), FileName(g.day), text);
    assert Extend(gs + [g], g.day, e) == gs + [bigger];
  }

  lemma WriteAddsFile(gs: seq<Group>, day: Day, e: Entry)
    requires DaysAscend(gs + [Group(day, [e])])
    ensures var text := LineOf(e) + [NEWLINE];
            DistinctNames(FilesOf(gs))
            && Append(FilesOf(gs), FileName(day), text) == FilesOf(gs + [Group(day, [e])])
  {
    var g := Group(day, [e]);
    FilesOfSorted(gs + [g]);
    FilesOfAppend(gs, g);
    LastNameIsNew(FilesOf(gs), FileOf(g));
    AppendNew(FilesOf(gs), FileName(day), LineOf(e) + [NEWLINE]);
    FileOfOne(day, e);
  }

  lemma LastNameIsNew(d: Disk, f: File)
    requires DistinctNames(d + [f])
    ensures DistinctNames(d) && forall g | g in d :: g.name != f.name
  {
    var all := d + [f];
    assert all[|d|] == f && forall i | 0 <= i < |d| :: d[i] == all[i];
  }

  lemma FileOfOne(day: Day, e: Entry)
    ensures FileOf(Group(day, [e])) == File(FileName(day), LineOf(e) + [NEWLINE])
  {
    assert LinesOf([e]) == [LineOf(e)];
    assert Terminated([LineOf(e)]) == LineOf(e) + [NEWLINE] + Terminated([]);
  }

  /** Writing an entry to disk adds it to its day's file and touches no other. */
  lemma WriteExtends(gs: seq<Group>, day: Day, e: Entry)
    requires DaysAscend(gs) && day.Valid() && NotBefore(day, LastDay(gs))
    ensures var text := LineOf(e) + [NEWLINE];
            DistinctNames(FilesOf(gs))
            && Append(FilesOf(gs), FileName(day), text) == FilesOf(Extend(gs, day, e))
  {
    ExtendAscends(gs, day, e);
    if gs != [] && gs[|gs| - 1].day == day {
      assert gs == gs[..|gs| - 1] + [gs[|gs| - 1]];
      WriteExtendsLast(gs[..|gs| - 1], gs[|gs| - 1], e);
    } else {
      WriteAddsFile(gs, day, e);
    }
  }

  lemma ExtendAscends(gs: seq<Group>, day: Day, e: Entry)
    requires DaysAscend(gs) && day.Valid() && NotBefore(day, LastDay(gs))
    ensures DaysAscend(Extend(gs, day, e)) && LastDay(Extend(gs, day, e)) == Some(day)
  {
  }

  lemma {:induction false} EntriesExtend(gs: seq<Group>, day: Day, e: Entry)
    ensures Entries(Extend(gs, day, e)) == Entries(gs) + [e]
  {
    if gs == [] {
    } else if |gs| == 1 {
      EntriesOfOne(gs[0]);
      if gs[0].day == day { EntriesOfOne(Group(day, gs[0].entries + [e])); }
      else { assert Extend(gs, day, e)[1..] == [Group(day, [e])]; EntriesOfOne(Group(day, [e])); }
    } else {
      EntriesExtend(gs[1..], day, e);
      assert Extend(gs, day, e)[1..] == Extend(gs[1..], day, e);
      assert Extend(gs, day, e)[0] == gs[0];
    }
  }

  lemma EntriesOfOne(g: Group)
    ensures Entries([g]) == g.entries
  {
    assert [g][1..] == [];
  }

  lemma {:induction false} LastEntry(gs: seq<Group>)
    requires gs != [] && DaysAscend(gs)
    ensures var g := gs[|gs| - 1];
            Entries(gs) != [] && Entries(gs)[|Entries(gs)| - 1] == g.entries[|g.entries| - 1]
  {
    if |gs| == 1 {
      EntriesOfOne(gs[0]);
      assert gs == [gs[0]];
    } else {
      LastEntry(gs[1..]);
    }
  }

  lemma {:induction false} GroupInEntries(gs: seq<Group>, k: nat)
    requires k < |gs|
    ensures forall e | e in gs[k].entries :: e in Entries(gs)
  {
    if k > 0 {
      GroupInEntries(gs[1..], k - 1);
    }
  }

  lemma LinesAreLines(R: Runtime, es: seq<Entry>)
    requires R.Valid() && forall e | e in es :: RuntimeEntry(R, e)
    ensures Lines(Terminated(LinesOf(es))) == LinesOf(es)
  {
    forall l | l in LinesOf(es) ensures IsLine(l) {
      var i :| 0 <= i < |es| && LinesOf(es)[i] == l;
      ReadLine(R, es[i]);
    }
    LinesOfTerminated(LinesOf(es));
  }

  // ------------------------------------------------------- recovery changes nothing

  lemma RecoverLineOf(R: Runtime, e: Entry)
    requires R.Valid() && IsHexDigest(e.hash) && RuntimeEntry(R, e)
    ensures RecoverLine(R, LineOf(e)) == Remember(e)
  {
    ReadLine(R, e);
    IntegerTextIsNumber(e.seqNo);
  }

  /** Recovery reads the last line of the last file. */
  lemma RecoverReadsLast(R: Runtime, d: Disk, g: Group, e: Entry)
    requires LogFiles(d) != [] && LogFiles(d)[|LogFiles(d)| - 1] == FileOf(g)
    requires g.entries != [] && e == g.entries[|g.entries| - 1]
    requires R.Valid() && IsHexDigest(e.hash) && forall x | x in g.entries :: RuntimeEntry(R, x)
    ensures Recover(R, d, FRESH) == Remember(e)
  {
    LinesAreLines(R, g.entries);
    RecoverLineOf(R, e);
  }

  /** At any point of a run, a restart finds in the files the hash and the number the
      writer had in memory. */
  lemma RecoveryFindsMemory(R: Runtime, s: State)
    requires R.Valid() && Consistent(R, s)
    ensures Recover(R, s.disk, FRESH) == s.mem
  {
    SortedFilesAreTheDays(R, s);
    if s.written != [] {
      RecoverFromGroups(R, s.disk, s.written);
    }
  }

  lemma RecoverFromGroups(R: Runtime, d: Disk, gs: seq<Group>)
    requires R.Valid() && gs != [] && DaysAscend(gs) && Chained(R, Entries(gs))
    requires LogFiles(d) == FilesOf(gs)
    ensures Recover(R, d, FRESH) == MemoryAfter(Entries(gs))
  {
    LastGroup(R, gs);
    RecoverReadsLast(R, d, gs[|gs| - 1], Entries(gs)[|Entries(gs)| - 1]);
  }

  lemma LastGroup(R: Runtime, gs: seq<Group>)
    requires R.Valid() && gs != [] && DaysAscend(gs) && Chained(R, Entries(gs))
    ensures Entries(gs) != []
    ensures var g, e := gs[|gs| - 1], Entries(gs)[|Entries(gs)| - 1];
            && g.entries != [] && e == g.entries[|g.entries| - 1] && IsHexDigest(e.hash)
            && forall x | x in g.entries :: RuntimeEntry(R, x)
  {
    LastEntry(gs);
    GroupInEntries(gs, |gs| - 1);
    var g, es := gs[|gs| - 1], Entries(gs);
    ChainedEntry(R, es, es[|es| - 1]);
    forall x | x in g.entries ensures RuntimeEntry(R, x) { ChainedEntry(R, es, x); }
  }

  lemma ChainedEntry(R: Runtime, es: seq<Entry>, e: Entry)
    requires R.Valid() && Chained(R, es) && e in es
    ensures RuntimeEntry(R, e) && IsHexDigest(e.hash)
  {
    var i :| 0 <= i < |es| && es[i] == e;
    assert InChain(R, es, i);
  }

  lemma InChainStays(R: Runtime, es: seq<Entry>, e: Entry, i: nat)
    requires i < |es| && InChain(R, es, i)
    ensures InChain(R, es + [e], i)
  {
    var fs := es + [e];
    assert fs[i] == es[i];
    if i > 0 { assert fs[i - 1] == es[i - 1]; }
  }

  lemma NewEntryInChain(R: Runtime, es: seq<Entry>, b: Body)
    requires Chained(R, es) && RuntimeBody(R, b) && |es| + 1 < SAFE
    ensures var fs := es + [NextEntry(R, MemoryAfter(es), b)]; InChain(R, fs, |es|)
  {
    var n := |es|;
    var fs := es + [NextEntry(R, MemoryAfter(es), b)];
    assert fs[n] == NextEntry(R, MemoryAfter(es), b);
    if n > 0 { assert fs[n - 1] == es[n - 1] && InChain(R, es, n - 1); }
  }

  lemma ChainExtends(R: Runtime, es: seq<Entry>, b: Body)
    requires Chained(R, es) && RuntimeBody(R, b) && |es| + 1 < SAFE
    ensures Chained(R, es + [NextEntry(R, MemoryAfter(es), b)])
  {
    var e := NextEntry(R, MemoryAfter(es), b);
    NewEntryInChain(R, es, b);
    forall i | 0 <= i < |es + [e]| ensures InChain(R, es + [e], i) {
      if i < |es| { InChainStays(R, es, e, i); }
    }
  }

  lemma WriteConsistent(R: Runtime, s: State, f: Format, stamp: Text, day: Day)
    requires Consistent(R, s) && f.Valid(R) && day.Valid() && NotBefore(day, LastDay(s.written))
    requires |Entries(s.written)| + 1 < SAFE
    ensures Consistent(R, Step(R, s, Write(f, stamp, day)))
    ensures LastDay(Step(R, s, Write(f, stamp, day)).written) == Some(day)
    ensures |Entries(Step(R, s, Write(f, stamp, day)).written)| == |Entries(s.written)| + 1
  {
    var b := BodyOf(f, stamp);
    var e := NextEntry(R, s.mem, b);
    BodyOfValues(R, f, stamp);
    WriteToDisk(s.disk, s.written, day, e);
    ExtendAscends(s.written, day, e);
    EntriesExtend(s.written, day, e);
    ChainExtends(R, Entries(s.written), b);
  }

  lemma WriteToDisk(d: Disk, gs: seq<Group>, day: Day, e: Entry)
    requires DistinctNames(d) && LogsIn(d) == FilesOf(gs)
    requires DaysAscend(gs) && day.Valid() && NotBefore(day, LastDay(gs))
    ensures LogsIn(WriteEntry(d, day, e)) == FilesOf(Extend(gs, day, e))
  {
    FileNameIsLog(day);
    AppendToLogs(d, FileName(day), LineOf(e) + [NEWLINE]);
    WriteExtends(gs, day, e);
  }

  /** Every reachable state is consistent, whatever is logged and wherever the process
      restarts. */
  lemma {:induction false} RunConsistent(R: Runtime, s: State, evs: seq<Event>)
    requires R.Valid() && Consistent(R, s) && Calendar(R, evs, LastDay(s.written))
    requires |Entries(s.written)| + |evs| < SAFE
    ensures Consistent(R, Run(R, s, evs))
    decreases evs
  {
    if evs != [] {
      StepConsistent(R, s, evs);
      RunConsistent(R, Step(R, s, evs[0]), evs[1..]);
    }
  }

  lemma StepConsistent(R: Runtime, s: State, evs: seq<Event>)
    requires R.Valid() && Consistent(R, s) && evs != [] && Calendar(R, evs, LastDay(s.written))
    requires |Entries(s.written)| + 1 < SAFE
    ensures var next := Step(R, s, evs[0]);
            Consistent(R, next) && Calendar(R, evs[1..], LastDay(next.written))
            && |Entries(next.written)| <= |Entries(s.written)| + 1
  {
    match evs[0] {
      case Restart => RecoveryFindsMemory(R, s);
      case Write(f, stamp, day) => WriteConsistent(R, s, f, stamp, day);
    }
  }

  /** The state before anything is logged: a directory without log files. */
  function Initial(d: Disk): State { State(FRESH, d, []) }

  lemma InitialConsistent(R: Runtime, d: Disk)
    requires DistinctNames(d) && LogsIn(d) == []
    ensures Consistent(R, Initial(d))
  {
  }

  lemma ConsistentFiles(R: Runtime, s: State)
    requires R.Valid() && Consistent(R, s)
    ensures s.mem.seqNo == |Entries(s.written)|
    ensures forall i | 0 <= i < |Entries(s.written)| :: Entries(s.written)[i].seqNo == i + 1
    ensures forall f | f in FilesOf(s.written) :: Lines(f.content) != []
  {
    NumberedWithoutGaps(R, Entries(s.written));
    NoFileIsEmpty(R, s.written);
  }

  /** After any run from an empty log, in whatever order the directory is then listed:
      recovery yields the writer's memory, the entries in the sorted files are numbered
      1, 2, 3, ... across files and restarts, and no log file is empty. */
  lemma RecoveryIsNoOp(R: Runtime, d: Disk, evs: seq<Event>, listed: Disk)
    requires R.Valid() && DistinctNames(d) && LogsIn(d) == [] && Calendar(R, evs, None) && |evs| < SAFE
    requires DistinctNames(listed) && multiset(listed) == multiset(Run(R, Initial(d), evs).disk)
    ensures var s := Run(R, Initial(d), evs);
            && Recover(R, listed, FRESH) == s.mem
            && s.mem.seqNo == |Entries(s.written)|
            && LogFiles(listed) == FilesOf(s.written)
            && (forall i | 0 <= i < |Entries(s.written)| :: Entries(s.written)[i].seqNo == i + 1)
            && (forall f | f in LogFiles(listed) :: Lines(f.content) != [])
  {
    InitialConsistent(R, d);
    RunConsistent(R, Initial(d), evs);
    var s := Run(R, Initial(d), evs);
    RecoveryFindsMemory(R, s);
    ListingOrderIsIrrelevant(listed, s.disk);
    SortedFilesAreTheDays(R, s);
    ConsistentFiles(R, s);
  }

  lemma NumberedWithoutGaps(R: Runtime, es: seq<Entry>)
    requires Chained(R, es)
    ensures forall i | 0 <= i < |es| :: es[i].seqNo == i + 1
    ensures MemoryAfter(es).seqNo == |es|
  {
    forall i | 0 <= i < |es| ensures es[i].seqNo == i + 1 { ChainedAt(R, es, i); }
  }

  lemma NoFileIsEmpty(R: Runtime, gs: seq<Group>)
    requires R.Valid() && DaysAscend(gs) && Chained(R, Entries(gs))
    ensures forall f | f in FilesOf(gs) :: Lines(f.content) != []
  {
    forall k | 0 <= k < |gs| ensures Lines(FilesOf(gs)[k].content) != [] {
      GroupInEntries(gs, k);
      forall e | e in gs[k].entries ensures RuntimeEntry(R, e) { ChainedEntry(R, Entries(gs), e); }
      LinesAreLines(R, gs[k].entries);
    }
  }

  // --------------------------------------------------------- every honest run verifies

  function RecordsFor(es: seq<Entry>): (rs: seq<Record>)
    ensures |rs| == |es|
    ensures forall i | 0 <= i < |es| :: rs[i] == RecordOf(es[i])
  {
    if es == [] then [] else [RecordOf(es[0])] + RecordsFor(es[1..])
  }

  lemma DecodeLines(R: Runtime, es: seq<Entry>)
    requires R.Valid() && forall e | e in es :: RuntimeEntry(R, e)
    ensures Reads(Decode(R, Lines(Terminated(LinesOf(es)))), RecordsFor(es))
  {
    LinesAreLines(R, es);
    forall i | 0 <= i < |es| ensures Decode(R, LinesOf(es))[i] == Some(RecordsFor(es)[i]) {
      ReadLine(R, es[i]);
    }
  }

  /** Reading all files back gives one record for every entry written, in order. */
  lemma {:induction false} DecodeGroups(R: Runtime, gs: seq<Group>)
    requires R.Valid() && forall e | e in Entries(gs) :: RuntimeEntry(R, e)
    ensures Reads(Flatten(DecodeFiles(R, FilesOf(gs))), RecordsFor(Entries(gs)))
  {
    if gs != [] {
      var es, rest := gs[0].entries, gs[1..];
      assert forall e | e in es :: e in Entries(gs);
      assert forall e | e in Entries(rest) :: e in Entries(gs);
      DecodeLines(R, es);
      DecodeGroups(R, rest);
      FlattenFirst(R, gs);
      ReadsTogether(Decode(R, Lines(Terminated(LinesOf(es)))), Flatten(DecodeFiles(R, FilesOf(rest))),
        RecordsFor(es), RecordsFor(Entries(rest)));
      RecordsTogether(es, Entries(rest));
    }
  }

  lemma RecordsTogether(es: seq<Entry>, fs: seq<Entry>)
    ensures RecordsFor(es + fs) == RecordsFor(es) + RecordsFor(fs)
  {
    var l, r := RecordsFor(es + fs), RecordsFor(es) + RecordsFor(fs);
    assert forall i | 0 <= i < |l| :: l[i] == r[i];
  }

  lemma FlattenFirst(R: Runtime, gs: seq<Group>)
    requires gs != []
    ensures Flatten(DecodeFiles(R, FilesOf(gs)))
         == Decode(R, Lines(Terminated(LinesOf(gs[0].entries)))) + Flatten(DecodeFiles(R, FilesOf(gs[1..])))
  {
    var ds := DecodeFiles(R, FilesOf(gs));
    assert FilesOf(gs)[1..] == FilesOf(gs[1..]);
    assert ds[1..] == DecodeFiles(R, FilesOf(gs[1..]));
  }

  lemma ReadsTogether(ds: seq<Line>, es: seq<Line>, rs: seq<Record>, qs: seq<Record>)
    requires Reads(ds, rs) && Reads(es, qs)
    ensures Reads(ds + es, rs + qs)
  {
  }

  /** A chain of entries, read back from disk, is sound at every position. */
  lemma ChainedIsSound(R: Runtime, es: seq<Entry>)
    requires Chained(R, es)
    ensures AllSound(R, RecordsFor(es))
  {
    var rs := RecordsFor(es);
    forall i | 0 <= i < |rs| ensures Sound(R, rs, i) {
      ChainedAt(R, es, i);
      PreimageKept(es[i].previousHash, es[i].body);
      assert rs[i] == RecordOf(es[i]);
      if i > 0 { assert rs[i - 1] == RecordOf(es[i - 1]); }
    }
  }

  lemma NumberOfRecord(e: Entry)
    ensures RecordOf(e).seqNo == Num(IntegerText(e.seqNo))
  {
  }

  lemma RecordsNumbered(R: Runtime, es: seq<Entry>)
    requires Chained(R, es)
    ensures Numbered(RecordsFor(es))
  {
    if es != [] { assert InChain(R, es, |es| - 1); }
    forall i | 0 <= i < |es| ensures RecordsFor(es)[i].seqNo == Num(IntegerText(i + 1)) {
      ChainedAt(R, es, i);
      NumberOfRecord(es[i]);
    }
  }

  lemma ChainedBodies(R: Runtime, es: seq<Entry>)
    requires R.Valid() && Chained(R, es)
    ensures forall e | e in es :: RuntimeEntry(R, e)
  {
    forall e | e in es ensures RuntimeEntry(R, e) { ChainedEntry(R, es, e); }
  }

  lemma ConsistentVerifies(R: Runtime, s: State, startSeq: Option<int>, endSeq: Option<int>)
    requires R.Valid() && Consistent(R, s)
    ensures Verify(R, s.disk, startSeq, endSeq, s.mem.seqNo).Valid()
  {
    SortedFilesAreTheDays(R, s);
    GroupsVerify(R, s.written, Bound(startSeq, 1), Bound(endSeq, s.mem.seqNo));
  }

  lemma GroupsVerify(R: Runtime, gs: seq<Group>, start: int, end: int)
    requires R.Valid() && Chained(R, Entries(gs))
    ensures ScanFiles(R, DecodeFiles(R, FilesOf(gs)), start, end, Str(GENESIS)).Valid()
  {
    var es := Entries(gs);
    ChainedBodies(R, es);
    DecodeGroups(R, gs);
    ChainedIsSound(R, es);
    RecordsNumbered(R, es);
    SoundVerifies(R, DecodeFiles(R, FilesOf(gs)), RecordsFor(es), start, end);
  }

  /** Every run verifies, for every range asked for, defaults included, and whatever order
      the directory is listed in. */
  lemma HonestRunVerifies(R: Runtime, d: Disk, evs: seq<Event>, listed: Disk,
                          startSeq: Option<int>, endSeq: Option<int>)
    requires R.Valid() && DistinctNames(d) && LogsIn(d) == [] && Calendar(R, evs, None) && |evs| < SAFE
    requires DistinctNames(listed) && multiset(listed) == multiset(Run(R, Initial(d), evs).disk)
    ensures Verify(R, listed, startSeq, endSeq, Run(R, Initial(d), evs).mem.seqNo).Valid()
  {
    InitialConsistent(R, d);
    RunConsistent(R, Initial(d), evs);
    ListingOrderIsIrrelevant(listed, Run(R, Initial(d), evs).disk);
    ConsistentVerifies(R, Run(R, Initial(d), evs), startSeq, endSeq);
  }
}
