/** The verifier's walk over the log files, what it reports, and what that means for
    the log as one sequence of entries. */
module ChainScan {
  import opened JsText
  import opened Option
  import opened Decimal
  import opened Json
  import opened JsRuntime
  import opened LogEntry

  /** `{valid: true}`, or `{valid: false, brokenAt}` with the reason its details give. */
  datatype Verdict = Intact | LinkBroken(at: Value) | HashMismatch(at: Value) | Unreadable {
    predicate Valid() { Intact? }

    /** The reported position: the number as it was read, -1 when the walk ended in an
        error, `undefined` when nothing is broken. */
    function BrokenAt(): Value {
      match this
      case Intact => Undef
      case LinkBroken(at) => at
      case HashMismatch(at) => at
      case Unreadable => Num(IntegerText(-1))
    }
  }

  /** `seq < start` and `seq > end`; the runtime answers both with false for a missing
      number. */
  predicate Early(R: Runtime, r: Record, start: int) { R.below(r.seqNo, start) }

  predicate Past(R: Runtime, r: Record, end: int) { R.above(r.seqNo, end) }

  /** A primitive value where `+` joins it to a string. */
  function Spoken(v: Value): Text {
    match v
    case Str(s) => s
    case Num(tok) => tok
    case NonFinite(name) => name
    case Bool(b) => if b then T("true") else T("false")
    case Null => T("null")
    case Undef => T("undefined")
    case _ => T("[object Object]")
  }

  /** The stored hash is the one computed from the stored previous hash and body. */
  predicate HashHolds(R: Runtime, r: Record) {
    r.hash == Str(R.sha256(Preimage(Spoken(r.previousHash), r.body)))
  }

  /** After one file: go on with an expected hash, or stop with a verdict. */
  datatype Outcome = Go(expected: Value) | Stop(verdict: Verdict)

  /** A line as the verifier reads it: a record, or `None` when it cannot be read. */
  type Line = Option<Record>

  function Decode(R: Runtime, lines: seq<Text>): (ds: seq<Line>)
    ensures |ds| == |lines|
    ensures forall i | 0 <= i < |lines| :: ds[i] == ReadRecord(R, lines[i])
  {
    if lines == [] then [] else [ReadRecord(R, lines[0])] + Decode(R, lines[1..])
  }

  /** The inner loop. `break` on a number past `end` leaves only this file. */
  function ScanFile(R: Runtime, ds: seq<Line>, start: int, end: int, expected: Value): (r: Outcome)
    ensures r.Stop? ==> !r.verdict.Intact?
  {
    if ds == [] then Go(expected)
    else
      match ds[0]
      case None => Stop(Unreadable)
      case Some(r) =>
        if Early(R, r, start) then ScanFile(R, ds[1..], start, end, r.hash)
        else if Past(R, r, end) then Go(expected)
        else if !StrictEquals(r.previousHash, expected) then Stop(LinkBroken(r.seqNo))
        else if !HashHolds(R, r) then Stop(HashMismatch(r.seqNo))
        else ScanFile(R, ds[1..], start, end, r.hash)
  }

  /** The outer loop over the files. */
  function ScanFiles(R: Runtime, files: seq<seq<Line>>, start: int, end: int, expected: Value): Verdict {
    if files == [] then Intact
    else
      match ScanFile(R, files[0], start, end, expected)
      case Stop(v) => v
      case Go(e) => ScanFiles(R, files[1..], start, end, e)
  }

  /** What is left of the files from the `f`-th on, by way of that file. */
  lemma ScanFilesAt(R: Runtime, files: seq<seq<Line>>, f: nat, start: int, end: int, expected: Value)
    requires f < |files|
    ensures ScanFiles(R, files[f..], start, end, expected)
         == match ScanFile(R, files[f], start, end, expected)
            case Stop(v) => v
            case Go(e) => ScanFiles(R, files[f + 1..], start, end, e)
  {
    assert files[f..][0] == files[f] && files[f..][1..] == files[f + 1..];
  }

  /** What is left of a file from the `k`-th line on, by way of that line. */
  lemma ScanFileAt(R: Runtime, ds: seq<Line>, k: nat, start: int, end: int, expected: Value)
    requires k < |ds|
    ensures ScanFile(R, ds[k..], start, end, expected)
         == match ds[k]
            case None => Stop(Unreadable)
            case Some(r) =>
              if Early(R, r, start) then ScanFile(R, ds[k + 1..], start, end, r.hash)
              else if Past(R, r, end) then Go(expected)
              else if !StrictEquals(r.previousHash, expected) then Stop(LinkBroken(r.seqNo))
              else if !HashHolds(R, r) then Stop(HashMismatch(r.seqNo))
              else ScanFile(R, ds[k + 1..], start, end, r.hash)
  {
    assert ds[k..][0] == ds[k] && ds[k..][1..] == ds[k + 1..];
  }

  function Flatten<X>(xss: seq<seq<X>>): seq<X> {
    if xss == [] then [] else xss[0] + Flatten(xss[1..])
  }

  // ------------------------------------------------------------- the lines that are read

  /** The line ends the walk through its file. */
  predicate Cuts(R: Runtime, l: Line, start: int, end: int) {
    l.Some? && !Early(R, l.value, start) && Past(R, l.value, end)
  }

  /** A file up to its first line past the end. */
  function Cut(R: Runtime, ds: seq<Line>, start: int, end: int): (r: seq<Line>)
    ensures r <= ds && forall i | 0 <= i < |r| :: !Cuts(R, r[i], start, end)
    ensures |r| < |ds| ==> Cuts(R, ds[|r|], start, end)
  {
    if ds == [] || Cuts(R, ds[0], start, end) then [] else [ds[0]] + Cut(R, ds[1..], start, end)
  }

  /** The files one after the other, each up to its first line past the end. */
  function Seen(R: Runtime, files: seq<seq<Line>>, start: int, end: int): seq<Line> {
    if files == [] then [] else Cut(R, files[0], start, end) + Seen(R, files[1..], start, end)
  }

  // ------------------------------------------------------------------ the first bad line

  /** Where `expected` is the hash handed on to it, the line stops the walk: it cannot be
      read, or it is in range and its link or its hash is wrong. */
  predicate Bad(R: Runtime, l: Line, start: int, expected: Value) {
    l.None? || (!Early(R, l.value, start)
      && !(StrictEquals(l.value.previousHash, expected) && HashHolds(R, l.value)))
  }

  /** The hash handed on to position `i`, when `first` is handed to the first line. */
  function Handed(ds: seq<Line>, i: nat, first: Value): Value
    requires i <= |ds|
  {
    if i == 0 then first else if ds[i - 1].Some? then ds[i - 1].value.hash else Undef
  }

  predicate BadAt(R: Runtime, ds: seq<Line>, i: nat, start: int, first: Value)
    requires i < |ds|
  {
    Bad(R, ds[i], start, Handed(ds, i, first))
  }

  function FirstBad(R: Runtime, ds: seq<Line>, start: int, first: Value): (k: nat)
    ensures k <= |ds|
    ensures forall i | 0 <= i < k :: !BadAt(R, ds, i, start, first)
    ensures k < |ds| ==> BadAt(R, ds, k, start, first)
  {
    if ds == [] || Bad(R, ds[0], start, first) then 0
    else
      var k := FirstBad(R, ds[1..], start, ds[0].value.hash);
      FirstBadStep(R, ds, k, start, first);
      1 + k
  }

  lemma FirstBadStep(R: Runtime, ds: seq<Line>, k: nat, start: int, first: Value)
    requires ds != [] && ds[0].Some? && k < |ds|
    requires !Bad(R, ds[0], start, first)
    requires forall i | 0 <= i < k :: !BadAt(R, ds[1..], i, start, ds[0].value.hash)
    requires k < |ds| - 1 ==> BadAt(R, ds[1..], k, start, ds[0].value.hash)
    ensures forall i | 0 <= i < k + 1 :: !BadAt(R, ds, i, start, first)
    ensures k + 1 < |ds| ==> BadAt(R, ds, k + 1, start, first)
  {
    var e := ds[0].value.hash;
    assert forall i | 0 < i < |ds| :: ds[i] == ds[1..][i - 1] && Handed(ds, i, first) == Handed(ds[1..], i - 1, e);
    forall i | 0 <= i < k + 1 ensures !BadAt(R, ds, i, start, first) {
      if i > 0 { assert !BadAt(R, ds[1..], i - 1, start, e); }
    }
  }

  lemma FirstBadIs(R: Runtime, ds: seq<Line>, k: nat, start: int, first: Value)
    requires k <= |ds| && forall i | 0 <= i < k :: !BadAt(R, ds, i, start, first)
    requires k < |ds| ==> BadAt(R, ds, k, start, first)
    ensures FirstBad(R, ds, start, first) == k
  {
  }

  /** What is reported of a line that stops the walk. */
  function Report(l: Line, expected: Value): (v: Verdict)
    ensures !v.Valid() && v.BrokenAt() == if l.None? then Num(IntegerText(-1)) else l.value.seqNo
  {
    match l
    case None => Unreadable
    case Some(r) => if !StrictEquals(r.previousHash, expected) then LinkBroken(r.seqNo) else HashMismatch(r.seqNo)
  }

  function ReportAt(ds: seq<Line>, k: nat, first: Value): Verdict
    requires k <= |ds|
  {
    if k == |ds| then Intact else Report(ds[k], Handed(ds, k, first))
  }

  /** One line that is bad stops the walk with its report. */
  lemma BadLineStops(R: Runtime, ds: seq<Line>, start: int, end: int, first: Value)
    requires ds != [] && !Cuts(R, ds[0], start, end) && Bad(R, ds[0], start, first)
    ensures ScanFile(R, ds, start, end, first) == Stop(Report(ds[0], first))
  {
  }

  /** One line that is not hands its hash on. */
  lemma GoodLineGoes(R: Runtime, ds: seq<Line>, start: int, end: int, first: Value)
    requires ds != [] && !Cuts(R, ds[0], start, end) && !Bad(R, ds[0], start, first)
    ensures ScanFile(R, ds, start, end, first) == ScanFile(R, ds[1..], start, end, ds[0].value.hash)
  {
  }

  /** One file: its lines up to the cut are walked, and the first bad one stops the walk. */
  lemma {:induction false} FileIsCut(R: Runtime, ds: seq<Line>, start: int, end: int, first: Value)
    ensures ScanFile(R, ds, start, end, first) == OutcomeOf(R, Cut(R, ds, start, end), start, first)
  {
    if ds != [] && !Cuts(R, ds[0], start, end) {
      var c := Cut(R, ds, start, end);
      assert c[0] == ds[0] && c[1..] == Cut(R, ds[1..], start, end);
      if Bad(R, ds[0], start, first) {
        BadLineStops(R, ds, start, end, first);
      } else {
        GoodLineGoes(R, ds, start, end, first);
        FileIsCut(R, ds[1..], start, end, ds[0].value.hash);
        OutcomeStep(R, c, start, first);
      }
    }
  }

  /** How the walk through lines none of which cuts ends. */
  function OutcomeOf(R: Runtime, c: seq<Line>, start: int, first: Value): Outcome {
    var k := FirstBad(R, c, start, first);
    if k < |c| then Stop(ReportAt(c, k, first)) else Go(Handed(c, |c|, first))
  }

  lemma OutcomeStep(R: Runtime, c: seq<Line>, start: int, first: Value)
    requires c != [] && !Bad(R, c[0], start, first)
    ensures OutcomeOf(R, c, start, first) == OutcomeOf(R, c[1..], start, c[0].value.hash)
  {
    HandedTail(c, first);
  }

  lemma HandedTail(c: seq<Line>, first: Value)
    requires c != [] && c[0].Some?
    ensures forall i | 0 < i <= |c| :: Handed(c, i, first) == Handed(c[1..], i - 1, c[0].value.hash)
  {
  }

  lemma {:induction false} FirstBadOfSum(R: Runtime, a: seq<Line>, b: seq<Line>, start: int, first: Value)
    ensures var k, e := FirstBad(R, a, start, first), Handed(a, |a|, first);
            var m := if k < |a| then k else |a| + FirstBad(R, b, start, e);
            FirstBad(R, a + b, start, first) == m
  {
    if a == [] {
      assert a + b == b;
    } else if !Bad(R, a[0], start, first) {
      assert (a + b)[1..] == a[1..] + b;
      FirstBadOfSum(R, a[1..], b, start, a[0].value.hash);
      HandedTail(a, first);
    }
  }

  lemma HandedInSum(a: seq<Line>, b: seq<Line>, first: Value)
    ensures forall i | 0 <= i < |a| :: (a + b)[i] == a[i]
    ensures forall i | 0 <= i <= |a| :: Handed(a + b, i, first) == Handed(a, i, first)
    ensures forall i | 0 <= i < |b| :: (a + b)[|a| + i] == b[i]
    ensures forall i | |a| <= i <= |a| + |b| :: Handed(a + b, i, first) == Handed(b, i - |a|, Handed(a, |a|, first))
  {
  }

  /** What the two nested loops compute, for any files, readable or not: the first line that
      cannot be read, or is in range with a wrong link or hash, among the lines before each
      file's cut; and valid when there is none. */
  lemma {:induction false} VerdictIsFirstBad(R: Runtime, files: seq<seq<Line>>, start: int, end: int, first: Value)
    ensures var ds := Seen(R, files, start, end);
            ScanFiles(R, files, start, end, first) == ReportAt(ds, FirstBad(R, ds, start, first), first)
  {
    if files != [] {
      var c, rest := Cut(R, files[0], start, end), Seen(R, files[1..], start, end);
      FileIsCut(R, files[0], start, end, first);
      ReportOfSum(R, c, rest, start, first);
      VerdictIsFirstBad(R, files[1..], start, end, Handed(c, |c|, first));
    }
  }

  lemma ReportOfSum(R: Runtime, a: seq<Line>, b: seq<Line>, start: int, first: Value)
    ensures var o := OutcomeOf(R, a, start, first);
            var v := if o.Stop? then o.verdict else ReportAt(b, FirstBad(R, b, start, o.expected), o.expected);
            ReportAt(a + b, FirstBad(R, a + b, start, first), first) == v
  {
    FirstBadOfSum(R, a, b, start, first);
    HandedInSum(a, b, first);
  }

  /** The nested loops are one loop over the lines before each file's cut. */
  lemma NestedScanIsFlatScan(R: Runtime, files: seq<seq<Line>>, start: int, end: int, first: Value)
    ensures ScanFiles(R, files, start, end, first) == ScanFiles(R, [Seen(R, files, start, end)], start, end, first)
  {
    var ds := Seen(R, files, start, end);
    SeenHasNoCut(R, files, start, end);
    assert Cut(R, ds, start, end) == ds;
    assert Seen(R, [ds], start, end) == ds + Seen(R, [ds][1..], start, end) == ds;
    VerdictIsFirstBad(R, files, start, end, first);
    VerdictIsFirstBad(R, [ds], start, end, first);
  }

  lemma {:induction false} SeenHasNoCut(R: Runtime, files: seq<seq<Line>>, start: int, end: int)
    ensures forall i | 0 <= i < |Seen(R, files, start, end)| :: !Cuts(R, Seen(R, files, start, end)[i], start, end)
  {
    if files != [] { SeenHasNoCut(R, files[1..], start, end); }
  }

  lemma {:induction false} SeenStartsWith(R: Runtime, files: seq<seq<Line>>, n: nat, start: int, end: int)
    requires n <= |Flatten(files)| && forall i | 0 <= i < n :: !Cuts(R, Flatten(files)[i], start, end)
    ensures Flatten(files)[..n] <= Seen(R, files, start, end)
  {
    if files != [] {
      var a, b := files[0], Flatten(files[1..]);
      assert forall i | 0 <= i < |a| :: (a + b)[i] == a[i];
      assert forall i | 0 <= i < |b| :: (a + b)[|a| + i] == b[i];
      if n <= |a| {
        assert a[..n] <= Cut(R, a, start, end);
      } else {
        assert Cut(R, a, start, end) == a;
        SeenStartsWith(R, files[1..], n - |a|, start, end);
        assert (a + b)[..n] == a + b[..n - |a|];
      }
    }
  }

  /** The first bad line of a log is what is reported, whatever follows it: more faults,
      lines that cannot be read, numbers past the end. */
  lemma FirstBadReported(R: Runtime, files: seq<seq<Line>>, k: nat, start: int, end: int, first: Value)
    requires k < |Flatten(files)| && BadAt(R, Flatten(files), k, start, first)
    requires forall i | 0 <= i < k :: !BadAt(R, Flatten(files), i, start, first)
    requires forall i | 0 <= i <= k :: !Cuts(R, Flatten(files)[i], start, end)
    ensures ScanFiles(R, files, start, end, first) == ReportAt(Flatten(files), k, first)
  {
    var ds, seen := Flatten(files), Seen(R, files, start, end);
    SeenStartsWith(R, files, k + 1, start, end);
    forall i | 0 <= i <= k
      ensures seen[i] == ds[i] && Handed(seen, i, first) == Handed(ds, i, first)
      ensures BadAt(R, seen, i, start, first) <==> BadAt(R, ds, i, start, first)
    {
      PrefixHanded(ds, ds[..k + 1], i, first);
      PrefixHanded(seen, ds[..k + 1], i, first);
    }
    FirstBadIs(R, seen, k, start, first);
    VerdictIsFirstBad(R, files, start, end, first);
  }

  /** Once a line cuts, all later lines do; so it is when numbers ascend. */
  predicate CutsPersist(R: Runtime, ds: seq<Line>, start: int, end: int) {
    forall i, j | 0 <= i < j < |ds| :: Cuts(R, ds[i], start, end) ==> Cuts(R, ds[j], start, end)
  }

  /** Then the walk sees the whole log up to its first number past the end, and nothing else:
      the inner `break` does as well as leaving both loops. */
  lemma {:induction false} SeenIsOneCut(R: Runtime, files: seq<seq<Line>>, start: int, end: int)
    requires CutsPersist(R, Flatten(files), start, end)
    ensures Seen(R, files, start, end) == Cut(R, Flatten(files), start, end)
  {
    if files != [] {
      var a, b := files[0], Flatten(files[1..]);
      PersistParts(R, a, b, start, end);
      SeenIsOneCut(R, files[1..], start, end);
      CutOfSum(R, a, b, start, end);
    }
  }

  lemma PersistParts(R: Runtime, a: seq<Line>, b: seq<Line>, start: int, end: int)
    requires CutsPersist(R, a + b, start, end)
    ensures CutsPersist(R, b, start, end)
    ensures Cut(R, a, start, end) == a || Cut(R, b, start, end) == []
  {
    assert forall i | 0 <= i < |a| :: (a + b)[i] == a[i];
    assert forall i | 0 <= i < |b| :: (a + b)[|a| + i] == b[i];
    var k := |Cut(R, a, start, end)|;
    if k < |a| && b != [] { assert Cuts(R, (a + b)[k], start, end); }
  }

  lemma {:induction false} CutOfSum(R: Runtime, a: seq<Line>, b: seq<Line>, start: int, end: int)
    requires Cut(R, a, start, end) == a || Cut(R, b, start, end) == []
    ensures Cut(R, a + b, start, end) == Cut(R, a, start, end) + Cut(R, b, start, end)
  {
    if a == [] {
      assert a + b == b;
    } else if !Cuts(R, a[0], start, end) {
      assert (a + b)[1..] == a[1..] + b;
      assert Cut(R, a, start, end)[1..] == Cut(R, a[1..], start, end);
      CutOfSum(R, a[1..], b, start, end);
    }
  }

  lemma NoCutIsSeen(R: Runtime, files: seq<seq<Line>>, start: int, end: int)
    requires forall i | 0 <= i < |Flatten(files)| :: !Cuts(R, Flatten(files)[i], start, end)
    ensures Seen(R, files, start, end) == Flatten(files)
  {
    SeenIsOneCut(R, files, start, end);
    assert Cut(R, Flatten(files), start, end) == Flatten(files);
  }

  lemma CutAt(R: Runtime, a: seq<Line>, k: nat, start: int, end: int)
    requires k < |a| && OnlyCut(R, a, k, start, end)
    ensures Cut(R, a, start, end) == a[..k]
  {
    var c := Cut(R, a, start, end);
    assert forall i | 0 <= i < |c| :: c[i] == a[i] && !Cuts(R, a[i], start, end);
    assert Cuts(R, a[k], start, end) && |c| <= k;
    assert c == a[..|c|];
  }

  /** `ds` without position `k` and what follows up to `m`. */
  function Gap(ds: seq<Line>, k: nat, m: nat): seq<Line>
    requires k <= m <= |ds|
  {
    ds[..k] + ds[m..]
  }

  lemma GapInSum(a: seq<Line>, b: seq<Line>, k: nat, m: nat)
    requires k <= m <= |b|
    ensures Gap(a + b, |a| + k, |a| + m) == a + Gap(b, k, m)
  {
    assert (a + b)[..|a| + k] == a + b[..k] && (a + b)[|a| + m..] == b[m..];
  }

  lemma GapToSecond(a: seq<Line>, b: seq<Line>, k: nat)
    requires k <= |a|
    ensures Gap(a + b, k, |a|) == a[..k] + b
  {
  }

  /** No line cuts but the one at position `k`. */
  predicate OnlyCut(R: Runtime, ds: seq<Line>, k: int, start: int, end: int) {
    forall i | 0 <= i < |ds| :: Cuts(R, ds[i], start, end) <==> i == k
  }

  lemma OnlyCutParts(R: Runtime, a: seq<Line>, b: seq<Line>, k: nat, start: int, end: int)
    requires OnlyCut(R, a + b, k, start, end)
    ensures OnlyCut(R, a, k, start, end) && OnlyCut(R, b, k - |a|, start, end)
  {
    assert forall i | 0 <= i < |a| :: (a + b)[i] == a[i];
    assert forall i | 0 <= i < |b| :: (a + b)[|a| + i] == b[i];
  }

  /** The position after the last line of the file that holds position `k`. */
  function FileEnd(files: seq<seq<Line>>, k: nat): (m: nat)
    requires k < |Flatten(files)|
    ensures k < m <= |Flatten(files)|
  {
    var n := |files[0]|;
    if k < n then n else n + FileEnd(files[1..], k - n)
  }

  /** When one line cuts, the walk misses it and the rest of its file. */
  lemma {:induction false} SeenAroundCut(R: Runtime, files: seq<seq<Line>>, k: nat, start: int, end: int)
    requires k < |Flatten(files)| && OnlyCut(R, Flatten(files), k, start, end)
    ensures Seen(R, files, start, end) == Gap(Flatten(files), k, FileEnd(files, k))
  {
    var a := files[0];
    OnlyCutParts(R, a, Flatten(files[1..]), k, start, end);
    if k < |a| {
      CutInFirst(R, a, files[1..], k, start, end);
    } else {
      SeenAroundCut(R, files[1..], k - |a|, start, end);
      NoCutInFirst(R, a, k, start, end);
      GapInSum(a, Flatten(files[1..]), k - |a|, FileEnd(files[1..], k - |a|));
    }
  }

  lemma CutInFirst(R: Runtime, a: seq<Line>, rest: seq<seq<Line>>, k: nat, start: int, end: int)
    requires k < |a| && OnlyCut(R, a, k, start, end) && OnlyCut(R, Flatten(rest), k - |a|, start, end)
    ensures Cut(R, a, start, end) + Seen(R, rest, start, end) == Gap(a + Flatten(rest), k, |a|)
  {
    CutAt(R, a, k, start, end);
    NoCutIsSeen(R, rest, start, end);
    GapToSecond(a, Flatten(rest), k);
  }

  lemma NoCutInFirst(R: Runtime, a: seq<Line>, k: nat, start: int, end: int)
    requires OnlyCut(R, a, k, start, end) && |a| <= k
    ensures Cut(R, a, start, end) == a
  {
  }

  /** So with ascending numbers the nested loops are the one flat loop over the whole log. */
  lemma AscendingScanIsFlat(R: Runtime, files: seq<seq<Line>>, start: int, end: int, first: Value)
    requires CutsPersist(R, Flatten(files), start, end)
    ensures ScanFiles(R, files, start, end, first)
         == match ScanFile(R, Flatten(files), start, end, first) case Stop(v) => v case Go(_) => Intact
  {
    SeenIsOneCut(R, files, start, end);
    VerdictIsFirstBad(R, files, start, end, first);
    FileIsCut(R, Flatten(files), start, end, first);
  }

  /** Within one file nothing after a number past `end` is looked at, not even whether it
      can be read. */
  lemma {:induction false} NothingAfterEndIsRead(R: Runtime, before: seq<Line>, past: Record, after: seq<Line>,
                                                 start: int, end: int, expected: Value)
    requires Past(R, past, end) && !Early(R, past, start)
    ensures ScanFile(R, before + [Some(past)] + after, start, end, expected)
         == ScanFile(R, before, start, end, expected)
  {
    var ds := before + [Some(past)] + after;
    if before == [] {
      assert ds[0] == Some(past);
    } else {
      assert ds[1..] == before[1..] + [Some(past)] + after;
      match before[0]
      case None =>
      case Some(r) => NothingAfterEndIsRead(R, before[1..], past, after, start, end, r.hash);
    }
  }

  // ------------------------------------------------------- a log whose lines can be read

  /** The lines, in order, are these records. */
  predicate Reads(ds: seq<Line>, rs: seq<Record>) {
    |ds| == |rs| && forall i | 0 <= i < |ds| :: ds[i] == Some(rs[i])
  }

  /** The hash the entry before position `i` hands on. */
  function ExpectedAt(rs: seq<Record>, i: nat): Value
    requires i <= |rs|
  {
    if i == 0 then Str(GENESIS) else rs[i - 1].hash
  }

  predicate Linked(rs: seq<Record>, i: nat)
    requires i < |rs|
  {
    StrictEquals(rs[i].previousHash, ExpectedAt(rs, i))
  }

  predicate Sound(R: Runtime, rs: seq<Record>, i: nat)
    requires i < |rs|
  {
    Linked(rs, i) && HashHolds(R, rs[i])
  }

  predicate AllSound(R: Runtime, rs: seq<Record>) { forall i | 0 <= i < |rs| :: Sound(R, rs, i) }

  predicate InRange(R: Runtime, r: Record, start: int, end: int) { !Early(R, r, start) && !Past(R, r, end) }

  /** Numbered from 1 without gaps, in safe integers. */
  predicate Numbered(rs: seq<Record>) {
    |rs| < SAFE && forall i | 0 <= i < |rs| :: rs[i].seqNo == Num(IntegerText(i + 1))
  }

  lemma BadIsUnsound(R: Runtime, ds: seq<Line>, rs: seq<Record>, i: nat, start: int)
    requires Reads(ds, rs) && i < |rs|
    ensures Handed(ds, i, Str(GENESIS)) == ExpectedAt(rs, i)
    ensures BadAt(R, ds, i, start, Str(GENESIS)) <==> !Early(R, rs[i], start) && !Sound(R, rs, i)
  {
  }

  /** A sound log numbered from 1 verifies for every range. */
  lemma SoundVerifies(R: Runtime, files: seq<seq<Line>>, rs: seq<Record>, start: int, end: int)
    requires R.Valid() && Reads(Flatten(files), rs) && Numbered(rs) && AllSound(R, rs)
    ensures ScanFiles(R, files, start, end, Str(GENESIS)).Valid()
  {
    var ds := Flatten(files);
    NumberedCutsPersist(R, ds, rs, start, end);
    SeenIsOneCut(R, files, start, end);
    var c := Cut(R, ds, start, end);
    forall i | 0 <= i < |c| ensures !BadAt(R, c, i, start, Str(GENESIS)) {
      BadIsUnsound(R, ds, rs, i, start);
      assert Sound(R, rs, i);
      PrefixHanded(ds, c, i, Str(GENESIS));
    }
    FirstBadIs(R, c, |c|, start, Str(GENESIS));
    VerdictIsFirstBad(R, files, start, end, Str(GENESIS));
  }

  lemma PrefixHanded(ds: seq<Line>, c: seq<Line>, i: nat, first: Value)
    requires c <= ds && i < |c|
    ensures c[i] == ds[i] && Handed(c, i, first) == Handed(ds, i, first)
  {
  }

  lemma NumberedCutsPersist(R: Runtime, ds: seq<Line>, rs: seq<Record>, start: int, end: int)
    requires R.Valid() && Reads(ds, rs) && Numbered(rs)
    ensures CutsPersist(R, ds, start, end)
  {
    forall i | 0 <= i < |ds| ensures Cuts(R, ds[i], start, end) <==> start <= i + 1 && i + 1 > end {
      assert ds[i] == Some(rs[i]) && rs[i].seqNo == Num(IntegerText(i + 1));
    }
  }

  // ------------------------------------------------------------ a log all of it in range

  /** No line that can be read carries a number outside the range. */
  predicate AllInRange(R: Runtime, ds: seq<Line>, start: int, end: int) {
    forall i | 0 <= i < |ds| :: ds[i].Some? ==> InRange(R, ds[i].value, start, end)
  }

  predicate AllRead(ds: seq<Line>) { forall i | 0 <= i < |ds| :: ds[i].Some? }

  /** The records of lines that can all be read. */
  function RecordsOf(ds: seq<Line>): (rs: seq<Record>)
    requires AllRead(ds)
    ensures Reads(ds, rs)
  {
    seq(|ds|, i requires 0 <= i < |ds| => ds[i].value)
  }

  /** Such a log is seen to the last line. */
  lemma InRangeIsSeen(R: Runtime, files: seq<seq<Line>>, start: int, end: int)
    requires AllInRange(R, Flatten(files), start, end)
    ensures Seen(R, files, start, end) == Flatten(files)
  {
    var ds := Flatten(files);
    assert forall i | 0 <= i < |ds| :: !Cuts(R, ds[i], start, end);
    NoCutIsSeen(R, files, start, end);
  }

  /** A log all of it in range verifies if and only if every line can be read and every entry
      is sound. */
  lemma VerifiedIffSound(R: Runtime, files: seq<seq<Line>>, start: int, end: int)
    requires AllInRange(R, Flatten(files), start, end)
    ensures ScanFiles(R, files, start, end, Str(GENESIS)).Valid()
       <==> AllRead(Flatten(files)) && AllSound(R, RecordsOf(Flatten(files)))
  {
    var ds := Flatten(files);
    InRangeIsSeen(R, files, start, end);
    VerdictIsFirstBad(R, files, start, end, Str(GENESIS));
    AllGoodIffSound(R, ds, start, end);
    var k := FirstBad(R, ds, start, Str(GENESIS));
  }

  lemma AllGoodIffSound(R: Runtime, ds: seq<Line>, start: int, end: int)
    requires AllInRange(R, ds, start, end)
    ensures FirstBad(R, ds, start, Str(GENESIS)) == |ds| <==> AllRead(ds) && AllSound(R, RecordsOf(ds))
  {
    if FirstBad(R, ds, start, Str(GENESIS)) == |ds| {
      forall i | 0 <= i < |ds| ensures ds[i].Some? { assert !BadAt(R, ds, i, start, Str(GENESIS)); }
      var rs := RecordsOf(ds);
      forall i | 0 <= i < |rs| ensures Sound(R, rs, i) {
        assert !BadAt(R, ds, i, start, Str(GENESIS)) && ds[i].Some? && ds[i].value == rs[i];
        BadIsUnsound(R, ds, rs, i, start);
      }
    } else if AllRead(ds) && AllSound(R, RecordsOf(ds)) {
      var k := FirstBad(R, ds, start, Str(GENESIS));
      assert Sound(R, RecordsOf(ds), k);
      BadIsUnsound(R, ds, RecordsOf(ds), k, start);
    }
  }

  /** When the lines up to position `k` are these records, all in range, and `k` is the first
      that is not sound, `k` is what is reported, whatever the rest of the log is. */
  lemma FirstUnsoundReported(R: Runtime, files: seq<seq<Line>>, rs: seq<Record>, k: nat, start: int, end: int)
    requires k < |rs| && |rs| <= |Flatten(files)| && Reads(Flatten(files)[..|rs|], rs)
    requires forall i | 0 <= i < |rs| :: InRange(R, rs[i], start, end)
    requires !Sound(R, rs, k) && forall i | 0 <= i < k :: Sound(R, rs, i)
    ensures ScanFiles(R, files, start, end, Str(GENESIS)) == Report(Some(rs[k]), ExpectedAt(rs, k))
  {
    var ds := Flatten(files);
    var c := ds[..|rs|];
    forall i | 0 <= i <= k
      ensures !Cuts(R, ds[i], start, end) && (BadAt(R, ds, i, start, Str(GENESIS)) <==> i == k)
      ensures ds[i] == Some(rs[i]) && Handed(ds, i, Str(GENESIS)) == ExpectedAt(rs, i)
    {
      PrefixHanded(ds, c, i, Str(GENESIS));
      BadIsUnsound(R, c, rs, i, start);
      assert InRange(R, rs[i], start, end);
    }
    FirstBadReported(R, files, k, start, end, Str(GENESIS));
  }
}
