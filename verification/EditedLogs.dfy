/** The service that wrote a log, asked without a range whether it is intact, after an entry
    was deleted, moved or changed. */
module EditedLogs {
  import opened JsText
  import opened Decimal
  import opened Option
  import opened Json
  import opened JsRuntime
  import opened LogEntry
  import opened LogDirectory
  import opened ChainScan
  import opened LogRuns
  import opened Tampering
  import opened SiemLogger

  /** A run from an empty log, of fewer entries than there are safe integers. */
  ghost predicate Honest(R: Runtime, d: Disk, evs: seq<Event>) {
    R.Valid() && DistinctNames(d) && LogsIn(d) == [] && Calendar(R, evs, None) && |evs| < SAFE
  }

  /** What that run wrote, as the verifier reads it. */
  function Written(R: Runtime, d: Disk, evs: seq<Event>): seq<Record>
    requires DistinctNames(d)
  {
    RecordsFor(Entries(Run(R, Initial(d), evs).written))
  }

  /** The service has the run in memory; no two of the texts it hashed collide. */
  ghost predicate Wrote(logger: SiemLoggerService, d: Disk, evs: seq<Event>)
    reads logger
  {
    && Honest(logger.runtime, d, evs)
    && logger.Mem() == Run(logger.runtime, Initial(d), evs).mem
    && CollisionFree(logger.runtime, Hashed(Written(logger.runtime, d, evs)))
  }

  lemma WrittenIsHonest(R: Runtime, d: Disk, evs: seq<Event>)
    requires Honest(R, d, evs) && CollisionFree(R, Hashed(Written(R, d, evs)))
    ensures HonestLog(R, Written(R, d, evs))
    ensures |Written(R, d, evs)| == Run(R, Initial(d), evs).mem.seqNo
  {
    InitialConsistent(R, d);
    RunConsistent(R, Initial(d), evs);
    RunLeavesHonestLog(R, d, evs, Run(R, Initial(d), evs).disk);
  }

  /** What the verifier reads in the service's directory. */
  function InLog(logger: SiemLoggerService): seq<Line>
    reads logger, logger.dir
  {
    LogOf(logger.runtime, logger.dir.files)
  }

  /** Asked without a range, the service walks its log from 1 to the last number written. */
  method VerifyAll(logger: SiemLoggerService, ghost d: Disk, ghost evs: seq<Event>) returns (verdict: Verdict)
    requires Wrote(logger, d, evs)
    ensures HonestLog(logger.runtime, Written(logger.runtime, d, evs))
    ensures verdict == VerdictOn(logger.runtime, DecodeFiles(logger.runtime, LogFiles(logger.dir.files)),
                                 |Written(logger.runtime, d, evs)|)
  {
    WrittenIsHonest(logger.runtime, d, evs);
    verdict := logger.VerifyChainIntegrity(None, None);
  }

  method VerifyDeleted(logger: SiemLoggerService, ghost d: Disk, ghost evs: seq<Event>, ghost j: nat)
    returns (verdict: Verdict)
    requires Wrote(logger, d, evs) && 1 <= j <= |Written(logger.runtime, d, evs)|
    requires Reads(InLog(logger), Without(Written(logger.runtime, d, evs), j))
    ensures verdict == if j < |Written(logger.runtime, d, evs)| then LinkBroken(Num(IntegerText(j + 1))) else Intact
  {
    verdict := VerifyAll(logger, d, evs);
    ghost var R := logger.runtime;
    DeletionReported(R, Written(R, d, evs), j, DecodeFiles(R, LogFiles(logger.dir.files)));
  }

  method VerifySwapped(logger: SiemLoggerService, ghost d: Disk, ghost evs: seq<Event>, ghost j: nat)
    returns (verdict: Verdict)
    requires Wrote(logger, d, evs) && 1 <= j < |Written(logger.runtime, d, evs)|
    requires Reads(InLog(logger), Swapped(Written(logger.runtime, d, evs), j))
    ensures verdict == LinkBroken(Num(IntegerText(j + 1)))
  {
    verdict := VerifyAll(logger, d, evs);
    ghost var R := logger.runtime;
    SwapReported(R, Written(R, d, evs), j, DecodeFiles(R, LogFiles(logger.dir.files)));
  }

  method VerifyChanged(logger: SiemLoggerService, ghost d: Disk, ghost evs: seq<Event>, ghost j: nat, ghost b: Body)
    returns (verdict: Verdict)
    requires Wrote(logger, d, evs) && 1 <= j <= |Written(logger.runtime, d, evs)| && WellFormedBody(b)
    requires var R, rs := logger.runtime, Written(logger.runtime, d, evs);
             && CollisionFree(R, Hashed(rs) + {Preimage(Spoken(rs[j - 1].previousHash), b)})
             && Reads(InLog(logger), rs[j - 1 := rs[j - 1].(body := b)])
    ensures var r := Written(logger.runtime, d, evs)[j - 1];
            verdict == if KeptBody(b) == KeptBody(r.body) then Intact else HashMismatch(Num(IntegerText(j)))
  {
    verdict := VerifyAll(logger, d, evs);
    ghost var R := logger.runtime;
    ChangeReported(R, Written(R, d, evs), j, b, DecodeFiles(R, LogFiles(logger.dir.files)));
  }

  method VerifyRehashed(logger: SiemLoggerService, ghost d: Disk, ghost evs: seq<Event>, ghost j: nat, ghost b: Body)
    returns (verdict: Verdict)
    requires Wrote(logger, d, evs) && 1 <= j <= |Written(logger.runtime, d, evs)| && WellFormedBody(b)
    requires var R, rs := logger.runtime, Written(logger.runtime, d, evs);
             && CollisionFree(R, Hashed(rs) + {Preimage(Spoken(rs[j - 1].previousHash), b)})
             && Reads(InLog(logger), rs[j - 1 := Rehashed(R, rs[j - 1], b)])
    ensures var rs := Written(logger.runtime, d, evs);
            var alike := KeptBody(b) == KeptBody(rs[j - 1].body);
            verdict == if j < |rs| && !alike then LinkBroken(Num(IntegerText(j + 1))) else Intact
  {
    verdict := VerifyAll(logger, d, evs);
    ghost var R := logger.runtime;
    RehashedChangeReported(R, Written(R, d, evs), j, b, DecodeFiles(R, LogFiles(logger.dir.files)));
  }
}
