/** The logger service over its log directory. Its methods are specified by the functions
    of `LogRuns`, about which the theorems of `LogRuns` and `Tampering` are stated. */
module SiemLogger {
  import opened JsText
  import opened Option
  import opened Json
  import opened JsRuntime
  import opened LogEntry
  import opened LogDirectory
  import opened ChainScan
  import opened LogRuns
  import opened LoggedEntries

  class Directory {
    var files: Disk

    constructor (files: Disk)
      ensures this.files == files
    {
      this.files := files;
    }
  }

  class SiemLoggerService {
    const runtime: Runtime
    const dir: Directory
    var lastHash: Text
    var sequenceNumber: int
    var hashCache: map<int, Text>
    var currentLogFile: Option<Text>

    function Mem(): Memory
      reads this
    {
      Memory(lastHash, sequenceNumber)
    }

    constructor (runtime: Runtime, dir: Directory)
      ensures this.runtime == runtime && this.dir == dir
      ensures lastHash == T("GENESIS") && sequenceNumber == 0 && hashCache == map[] && currentLogFile == None
    {
      this.runtime := runtime;
      this.dir := dir;
      lastHash := GENESIS;
      sequenceNumber := 0;
      hashCache := map[];
      currentLogFile := None;
    }

    method InitializeFromLastLog()
      modifies this`lastHash, this`sequenceNumber
      ensures Mem() == Recover(runtime, dir.files, old(Mem()))
    {
      RecoverFiles(LogFiles(dir.files));
    }

    /** Takes up the last line of the last file. */
    method RecoverFiles(files: Disk)
      modifies this`lastHash, this`sequenceNumber
      ensures Mem() == RecoverFrom(runtime, files, old(Mem()))
    {
      if |files| > 0 {
        var lines := Lines(files[|files| - 1].content);
        if |lines| > 0 {
          var last := RecoverLine(runtime, lines[|lines| - 1]);
          lastHash, sequenceNumber := last.lastHash, last.seqNo;
        }
      }
    }

    /** Logs one entry; the clock is read once for the time stamp and once for the day. */
    method Log(format: Format, stamp: Text, day: Day) returns (fullEntry: Entry)
      requires DistinctNames(dir.files)
      modifies this, dir
      ensures fullEntry == NextEntry(runtime, old(Mem()), BodyOf(format, stamp))
      ensures fullEntry.hash == runtime.sha256(HashedText(format, stamp, old(Mem())))
      ensures runtime.Valid() && format.Valid(runtime) && IsSafe(old(sequenceNumber) + 1) ==>
              LineSays(runtime, LineOf(fullEntry), format, stamp, old(Mem()), fullEntry.hash)
              && ReadsAs(runtime, LineOf(fullEntry), format, stamp, old(Mem()), fullEntry.hash)
      ensures Mem() == Remember(fullEntry)
      ensures hashCache == old(hashCache)[fullEntry.seqNo := fullEntry.hash]
      ensures dir.files == WriteEntry(old(dir.files), day, fullEntry) && DistinctNames(dir.files)
      ensures currentLogFile == Some(FileName(day))
    {
      NextEntrySays(runtime, Mem(), format, stamp);
      sequenceNumber := sequenceNumber + 1;
      var body := BodyOf(format, stamp);
      var hash := runtime.sha256(Preimage(lastHash, body));
      fullEntry := Entry(body, hash, lastHash, sequenceNumber);
      lastHash := hash;
      hashCache := hashCache[sequenceNumber := hash];
      WriteLog(fullEntry, day);
    }

    method WriteLog(entry: Entry, day: Day)
      requires DistinctNames(dir.files)
      modifies this`currentLogFile, dir
      ensures dir.files == WriteEntry(old(dir.files), day, entry) && DistinctNames(dir.files)
      ensures currentLogFile == Some(FileName(day))
    {
      var logFile := FileName(day);
      if currentLogFile != Some(logFile) {
        currentLogFile := Some(logFile);
      }
      dir.files := Append(dir.files, currentLogFile.value, LineOf(entry) + [NEWLINE]);
    }

    method VerifyChainIntegrity(startSeq: Option<int>, endSeq: Option<int>) returns (verdict: Verdict)
      ensures verdict == Verify(runtime, dir.files, startSeq, endSeq, sequenceNumber)
      ensures var start := if startSeq == None || startSeq == Some(0) then 1 else startSeq.value;
              var end := if endSeq == None || endSeq == Some(0) then sequenceNumber else endSeq.value;
              verdict == ScanFiles(runtime, DecodeFiles(runtime, LogFiles(dir.files)), start, end, Str(T("GENESIS")))
    {
      var start := Bound(startSeq, 1);
      var end := Bound(endSeq, sequenceNumber);
      verdict := VerifyFiles(LogFiles(dir.files), start, end);
    }

    /** The outer loop over the files in sorted order. */
    method VerifyFiles(files: Disk, start: int, end: int) returns (verdict: Verdict)
      ensures verdict == ScanFiles(runtime, DecodeFiles(runtime, files), start, end, Str(GENESIS))
    {
      ghost var decoded := DecodeFiles(runtime, files);
      var expectedHash: Value := Str(GENESIS);
      ghost var answer := ScanFiles(runtime, decoded, start, end, expectedHash);
      assert decoded[0..] == decoded;
      var f := 0;
      while f < |files|
        invariant 0 <= f <= |files| == |decoded|
        invariant answer == ScanFiles(runtime, decoded[f..], start, end, expectedHash)
      {
        ScanFilesAt(runtime, decoded, f, start, end, expectedHash);
        DecodedAt(runtime, files, f);
        var outcome := VerifyFile(Decode(runtime, Lines(files[f].content)), start, end, expectedHash);
        if outcome.Stop? { return outcome.verdict; }
        expectedHash := outcome.expected;
        f := f + 1;
      }
      return Intact;
    }

    /** The inner loop over the lines of one file; its `break` goes on with the next file.
        Each line is given as it parses, `None` standing for one that does not. */
    method VerifyFile(lines: seq<Line>, start: int, end: int, expected: Value) returns (outcome: Outcome)
      ensures outcome == ScanFile(runtime, lines, start, end, expected)
    {
      ghost var answer := ScanFile(runtime, lines, start, end, expected);
      assert lines[0..] == lines;
      var expectedHash := expected;
      var k := 0;
      while k < |lines|
        invariant 0 <= k <= |lines|
        invariant answer == ScanFile(runtime, lines[k..], start, end, expectedHash)
      {
        ScanFileAt(runtime, lines, k, start, end, expectedHash);
        if lines[k].None? { return Stop(Unreadable); }
        var entry := lines[k].value;
        k := k + 1;
        if Early(runtime, entry, start) {
          expectedHash := entry.hash;
          continue;
        }
        if Past(runtime, entry, end) { break; }
        if !StrictEquals(entry.previousHash, expectedHash) { return Stop(LinkBroken(entry.seqNo)); }
        if !HashHolds(runtime, entry) { return Stop(HashMismatch(entry.seqNo)); }
        expectedHash := entry.hash;
      }
      return Go(expectedHash);
    }
  }

  /** A service started on a directory left by an honest run takes up that run's memory, and
      whatever it is asked then, its verifier answers that the log is intact. */
  method RestartAfterRun(runtime: Runtime, dir: Directory, d: Disk, evs: seq<Event>,
                         startSeq: Option<int>, endSeq: Option<int>)
    returns (logger: SiemLoggerService, verdict: Verdict)
    requires runtime.Valid() && DistinctNames(d) && LogsIn(d) == [] && Calendar(runtime, evs, None) && |evs| < SAFE
    requires DistinctNames(dir.files) && multiset(dir.files) == multiset(Run(runtime, Initial(d), evs).disk)
    ensures fresh(logger) && logger.Mem() == Run(runtime, Initial(d), evs).mem
    ensures verdict.Valid()
  {
    logger := new SiemLoggerService(runtime, dir);
    logger.InitializeFromLastLog();
    RecoveryIsNoOp(runtime, d, evs, dir.files);
    verdict := logger.VerifyChainIntegrity(startSeq, endSeq);
    HonestRunVerifies(runtime, d, evs, dir.files, startSeq, endSeq);
  }
}
