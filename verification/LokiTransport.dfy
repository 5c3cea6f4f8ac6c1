/** The buffer between the loggers and Loki, and the nanosecond time stamps of its entries. */
module LokiTransport {
  import opened JsText

  datatype LokiEntry = LokiEntry(timestamp: Text, level: Text, message: Text)

  // ------------------------------------------------------------------------ the buffer

  /** What happens to the transport: a logger pushes, the timer fires, the logger is closed. */
  datatype Event = Push(entry: LokiEntry) | Tick | Close

  /** Buffer and timer, and the requests handed to HTTP so far. */
  datatype State = State(logBuffer: seq<LokiEntry>, flushTimer: bool, requests: seq<seq<LokiEntry>>)

  const IDLE := State([], false, [])

  function Flushed(s: State): State {
    if s.logBuffer == [] then s else s.(logBuffer := [], requests := s.requests + [s.logBuffer])
  }

  function Step(s: State, ev: Event): State {
    match ev
    case Push(entry) => s.(flushTimer := true, logBuffer := s.logBuffer + [entry])
    case Tick => if s.flushTimer then Flushed(s) else s
    case Close => Flushed(s.(flushTimer := false))
  }

  function Run(s: State, evs: seq<Event>): State {
    if evs == [] then s else Step(Run(s, evs[..|evs| - 1]), evs[|evs| - 1])
  }

  function Pushed(evs: seq<Event>): seq<LokiEntry> {
    if evs == [] then []
    else Pushed(evs[..|evs| - 1]) + (if evs[|evs| - 1].Push? then [evs[|evs| - 1].entry] else [])
  }

  function HandedOver(requests: seq<seq<LokiEntry>>): seq<LokiEntry> {
    if requests == [] then [] else HandedOver(requests[..|requests| - 1]) + requests[|requests| - 1]
  }

  lemma HandedOverAppend(requests: seq<seq<LokiEntry>>, r: seq<LokiEntry>)
    ensures HandedOver(requests + [r]) == HandedOver(requests) + r
  {
    assert (requests + [r])[..|requests|] == requests;
  }

  /** In any order of pushes, ticks and closings, the entries handed over followed by those
      still buffered are the entries pushed, in order and each once; no request is empty, and
      entries wait only while the timer runs. */
  lemma {:induction false} EntriesAreConserved(evs: seq<Event>)
    ensures var s := Run(IDLE, evs);
            && HandedOver(s.requests) + s.logBuffer == Pushed(evs)
            && [] !in s.requests
            && (s.logBuffer != [] ==> s.flushTimer)
  {
    if evs != [] {
      var s := Run(IDLE, evs[..|evs| - 1]);
      EntriesAreConserved(evs[..|evs| - 1]);
      HandedOverAppend(s.requests, s.logBuffer);
    }
  }

  /** So closing leaves nothing behind, and neither does a tick. */
  lemma ClosingSendsEverything(evs: seq<Event>)
    requires evs != [] && !evs[|evs| - 1].Push?
    ensures HandedOver(Run(IDLE, evs).requests) == Pushed(evs)
  {
    EntriesAreConserved(evs);
    EntriesAreConserved(evs[..|evs| - 1]);
  }

  /** The timer runs exactly when something was pushed and nothing closed since. */
  lemma {:induction false} TimerRunsIff(evs: seq<Event>)
    ensures Run(IDLE, evs).flushTimer
       <==> exists i | 0 <= i < |evs| :: evs[i].Push? && forall j | i <= j < |evs| :: evs[j] != Close
  {
    if evs != [] {
      var n := |evs| - 1;
      TimerRunsIff(evs[..n]);
      if Run(IDLE, evs).flushTimer && !evs[n].Push? {
        var i :| 0 <= i < n && evs[..n][i].Push? && forall j | i <= j < n :: evs[..n][j] != Close;
        assert forall j | i <= j < n :: evs[j] == evs[..n][j];
      }
    }
  }

  /** What waits is what was pushed since the last tick or closing. */
  lemma {:induction false} WaitingSince(evs: seq<Event>, k: nat)
    requires k <= |evs| && forall i | k <= i < |evs| :: evs[i].Push?
    requires k == 0 || !evs[k - 1].Push?
    ensures var b := Run(IDLE, evs).logBuffer;
            |b| == |evs| - k && forall i | k <= i < |evs| :: b[i - k] == evs[i].entry
  {
    if k < |evs| {
      WaitingSince(evs[..|evs| - 1], k);
    } else if k > 0 {
      EntriesAreConserved(evs[..k - 1]);
      assert evs[..|evs| - 1] == evs[..k - 1];
    }
  }

  class Transport {
    var logBuffer: seq<LokiEntry>
    var flushTimer: bool
    ghost var requests: seq<seq<LokiEntry>>

    ghost function Here(): State
      reads this
    {
      State(logBuffer, flushTimer, requests)
    }

    constructor ()
      ensures Here() == IDLE
    {
      logBuffer, flushTimer, requests := [], false, [];
    }

    method StartFlushTimer()
      modifies this`flushTimer
      ensures flushTimer
    {
      if flushTimer { return; }
      flushTimer := true;
    }

    method FlushLogs() returns (logsToSend: seq<LokiEntry>)
      modifies this
      ensures Here() == Flushed(old(Here())) && logsToSend == old(logBuffer)
    {
      logsToSend := logBuffer;
      if |logBuffer| == 0 { return; }
      logBuffer := [];
      requests := requests + [logsToSend];
    }

    method Format(entry: LokiEntry)
      modifies this
      ensures Here() == Step(old(Here()), Push(entry))
      ensures flushTimer && logBuffer == old(logBuffer) + [entry] && requests == old(requests)
    {
      StartFlushTimer();
      logBuffer := logBuffer + [entry];
    }

    method CloseLokiLogger()
      modifies this
      ensures Here() == Step(old(Here()), Close)
      ensures !flushTimer && logBuffer == []
    {
      if flushTimer {
        flushTimer := false;
      }
      var _ := FlushLogs();
    }
  }

  // -------------------------------------------------------------------- nanosecond time

  const TWO_53: nat := 0x20_0000_0000_0000

  function Pow2(k: nat): (p: nat)
    ensures p >= 1
  {
    if k == 0 then 1 else 2 * Pow2(k - 1)
  }

  /** The distance between neighbouring doubles of the size of `x`, for whole numbers from
      2^53 on; below they are all represented. */
  function Spacing(x: nat): (u: nat)
    ensures u >= 1
  {
    if x < TWO_53 then 1 else 2 * Spacing(x / 2)
  }

  /** Rounding to a multiple of `u`, ties to the even one (section 4.3.1 of IEEE 754). */
  function RoundTo(x: nat, u: nat): nat
    requires u >= 1
  {
    var q, r := x / u, x % u;
    if 2 * r < u || (2 * r == u && q % 2 == 0) then x - r else x - r + u
  }

  /** `new Date(ms).getTime() * 1_000_000`: one multiplication of doubles. */
  function NanoTime(ms: nat): nat { RoundTo(ms * 1_000_000, Spacing(ms * 1_000_000)) }

  lemma RoundError(x: nat, u: nat)
    requires u >= 1
    ensures 2 * (RoundTo(x, u) - x) <= u && 2 * (x - RoundTo(x, u)) <= u
  {
  }

  lemma {:induction false} SpacingBound(x: nat, k: nat)
    requires x < TWO_53 * Pow2(k)
    ensures Spacing(x) <= Pow2(k)
  {
    if x >= TWO_53 {
      assert k > 0;
      assert Pow2(k) == 2 * Pow2(k - 1);
      assert TWO_53 * Pow2(k) == 2 * (TWO_53 * Pow2(k - 1));
      assert x / 2 < TWO_53 * Pow2(k - 1);
      SpacingBound(x / 2, k - 1);
    }
  }

  lemma Pow2Eight()
    ensures Pow2(8) == 256
  {
    assert Pow2(4) == 16;
    assert Pow2(6) == 4 * Pow2(4);
  }

  /** While the product is below 2^61, the time stamp is within 128 of the exact number of
      nanoseconds, and later milliseconds get strictly later time stamps. */
  lemma NanoTimeIsOrdered(a: nat, b: nat)
    requires a < b && b * 1_000_000 < TWO_53 * 256
    ensures -128 <= NanoTime(b) - b * 1_000_000 <= 128
    ensures NanoTime(a) < NanoTime(b)
  {
    Pow2Eight();
    var x, y := a * 1_000_000, b * 1_000_000;
    SpacingBound(x, 8);
    SpacingBound(y, 8);
    RoundError(x, Spacing(x));
    RoundError(y, Spacing(y));
  }

  /** From 2^60 to 2^61 nanoseconds, the years 2006 to 2043, the doubles are the multiples of
      256, and the time stamp is the nearest, of two equally near ones the even one. */
  lemma NanoTimeIsNearest(ms: nat)
    requires TWO_53 * 128 <= ms * 1_000_000 < TWO_53 * 256
    ensures NanoTime(ms) % 256 == 0 && -128 <= NanoTime(ms) - ms * 1_000_000 <= 128
    ensures ms * 1_000_000 % 256 == 128 ==> NanoTime(ms) % 512 == 0
  {
    SpacingIs(ms * 1_000_000, 8);
    Pow2Eight();
    RoundError(ms * 1_000_000, 256);
    NearestOf256(ms * 1_000_000);
  }

  lemma {:induction false} SpacingIs(x: nat, k: nat)
    requires TWO_53 * Pow2(k) <= 2 * x && x < TWO_53 * Pow2(k)
    requires k > 0
    ensures Spacing(x) == Pow2(k)
  {
    assert Pow2(k) == 2 * Pow2(k - 1);
    assert TWO_53 * Pow2(k) == 2 * (TWO_53 * Pow2(k - 1));
    if k > 1 {
      assert Pow2(k - 1) == 2 * Pow2(k - 2);
      assert TWO_53 * Pow2(k - 1) == 2 * (TWO_53 * Pow2(k - 2));
      SpacingIs(x / 2, k - 1);
    } else {
      assert Pow2(0) == 1 && x / 2 < TWO_53;
    }
  }

  lemma NearestOf256(x: nat)
    ensures RoundTo(x, 256) % 256 == 0
    ensures x % 256 == 128 ==> RoundTo(x, 256) % 512 == 0
  {
    var q, r := x / 256, x % 256;
    RoundsToMultiple(q, r, x);
    var up := 2 * r > 256 || (r == 128 && q % 2 == 1);
    MultipleOf512(if up then q + 1 else q);
  }

  lemma RoundsToMultiple(q: nat, r: nat, x: nat)
    requires q == x / 256 && r == x % 256
    ensures RoundTo(x, 256) == if 2 * r > 256 || (r == 128 && q % 2 == 1) then 256 * (q + 1) else 256 * q
  {
  }

  lemma MultipleOf512(q: nat)
    ensures 256 * q % 256 == 0 && (q % 2 == 0 ==> 256 * q % 512 == 0)
  {
    if q % 2 == 0 { assert 256 * q == 512 * (q / 2); }
  }
}
