/** The log directory: one file a day, found again by sorting the file names. */
module LogDirectory {
  import opened JsText
  import opened Decimal

  const PREFIX := T("banco-verde-")
  const SUFFIX := T(".jsonl")
  const DASH: Unit := 45

  /** The UTC day of `new Date().toISOString().split('T')[0]`, for years of four digits. */
  datatype Day = Day(year: nat, month: nat, dayOfMonth: nat) {
    predicate Valid() { year < 10000 && 1 <= month <= 12 && 1 <= dayOfMonth <= 31 }
  }

  predicate Earlier(a: Day, b: Day) {
    a.year < b.year || (a.year == b.year && (a.month < b.month
      || (a.month == b.month && a.dayOfMonth < b.dayOfMonth)))
  }

  /** `banco-verde-YYYY-MM-DD.jsonl`. */
  function FileName(d: Day): Text {
    PREFIX + (Pad(d.year, 4) + ([DASH] + MonthPart(d)))
  }

  /** The part of the name from the month on. */
  function MonthPart(d: Day): Text {
    Pad(d.month, 2) + ([DASH] + (Pad(d.dayOfMonth, 2) + SUFFIX))
  }

  lemma SameHead(p: Text, x: Text, y: Text)
    ensures Before(p + x, p + y) <==> Before(x, y)
  {
    BeforeTotal(p, p);
    BeforeAppend(p, p, x, y);
  }

  lemma NumberFirst(n: nat, m: nat, k: nat, x: Text, y: Text)
    requires n < Pow10(k) && m < Pow10(k)
    ensures Before(Pad(n, k) + x, Pad(m, k) + y) <==> n < m || (n == m && Before(x, y))
  {
    PadOrder(n, m, k);
    BeforeAppend(Pad(n, k), Pad(m, k), x, y);
  }

  lemma Powers()
    ensures Pow10(2) == 100 && Pow10(4) == 10000
  {
    assert Pow10(1) == 10 * Pow10(0);
    assert Pow10(3) == 10 * Pow10(2);
  }

  lemma MonthOrder(a: Day, b: Day)
    requires a.Valid() && b.Valid()
    ensures Before(MonthPart(a), MonthPart(b))
       <==> a.month < b.month || (a.month == b.month && a.dayOfMonth < b.dayOfMonth)
  {
    Powers();
    BeforeTotal(SUFFIX, SUFFIX);
    NumberFirst(a.dayOfMonth, b.dayOfMonth, 2, SUFFIX, SUFFIX);
    SameHead([DASH], Pad(a.dayOfMonth, 2) + SUFFIX, Pad(b.dayOfMonth, 2) + SUFFIX);
    NumberFirst(a.month, b.month, 2,
      [DASH] + (Pad(a.dayOfMonth, 2) + SUFFIX), [DASH] + (Pad(b.dayOfMonth, 2) + SUFFIX));
  }

  /** Sorting the names by code units is sorting the days. */
  lemma NameOrderIsDayOrder(a: Day, b: Day)
    requires a.Valid() && b.Valid()
    ensures Before(FileName(a), FileName(b)) <==> Earlier(a, b)
    ensures FileName(a) == FileName(b) <==> a == b
  {
    MonthOrder(a, b);
    MonthOrder(b, a);
    NameOrderFromMonth(a, b);
    NameOrderFromMonth(b, a);
    BeforeTotal(FileName(a), FileName(b));
  }

  lemma NameOrderFromMonth(a: Day, b: Day)
    requires a.Valid() && b.Valid()
    ensures Before(FileName(a), FileName(b))
       <==> a.year < b.year || (a.year == b.year && Before(MonthPart(a), MonthPart(b)))
  {
    Powers();
    SameHead([DASH], MonthPart(a), MonthPart(b));
    NumberFirst(a.year, b.year, 4, [DASH] + MonthPart(a), [DASH] + MonthPart(b));
    SameHead(PREFIX, Pad(a.year, 4) + ([DASH] + MonthPart(a)), Pad(b.year, 4) + ([DASH] + MonthPart(b)));
  }

  lemma FileNameIsLog(d: Day)
    ensures EndsWith(FileName(d), SUFFIX)
  {
    var n := FileName(d);
    var head := PREFIX + (Pad(d.year, 4) + ([DASH] + (Pad(d.month, 2) + ([DASH] + Pad(d.dayOfMonth, 2)))));
    assert n == head + SUFFIX;
    assert n[|n| - |SUFFIX|..] == SUFFIX;
  }

  // -------------------------------------------------------------------- the directory

  datatype File = File(name: Text, content: Text)

  /** The files of the directory, in the order `readdirSync` lists them. */
  type Disk = seq<File>

  predicate DistinctNames(d: Disk) {
    forall i, j | 0 <= i < j < |d| :: d[i].name != d[j].name
  }

  /** `.filter((f) => f.endsWith('.jsonl'))`. */
  function LogsIn(d: Disk): (r: Disk)
    ensures forall f | f in r :: f in d && EndsWith(f.name, SUFFIX)
  {
    if d == [] then []
    else (if EndsWith(d[0].name, SUFFIX) then [d[0]] else []) + LogsIn(d[1..])
  }

  predicate Sorted(d: Disk) {
    forall i, j | 0 <= i < j < |d| :: Before(d[i].name, d[j].name)
  }

  function Insert(f: File, d: Disk): (r: Disk)
    ensures multiset(r) == multiset(d) + multiset{f}
  {
    if d == [] then [f]
    else if Before(f.name, d[0].name) then [f] + d
    else
      assert d == [d[0]] + d[1..];
      [d[0]] + Insert(f, d[1..])
  }

  /** `.sort()` on the names. */
  function Sort(d: Disk): (r: Disk)
    ensures multiset(r) == multiset(d)
  {
    if d == [] then []
    else
      assert d == [d[0]] + d[1..];
      Insert(d[0], Sort(d[1..]))
  }

  lemma {:induction false} InsertSorted(f: File, d: Disk)
    requires Sorted(d) && forall g | g in d :: g.name != f.name
    ensures Sorted(Insert(f, d))
  {
    if d != [] {
      BeforeTotal(f.name, d[0].name);
      if Before(f.name, d[0].name) {
        forall i | 0 <= i < |d| ensures Before(f.name, d[i].name) {
          if i > 0 { BeforeTransitive(f.name, d[0].name, d[i].name); }
        }
      } else {
        InsertSorted(f, d[1..]);
        var r := Insert(f, d[1..]);
        forall i | 0 <= i < |r| ensures Before(d[0].name, r[i].name) {
          assert r[i] in multiset(r);
          assert r[i] == f || r[i] in d[1..];
        }
      }
    }
  }

  lemma {:induction false} SortSorted(d: Disk)
    requires DistinctNames(d)
    ensures Sorted(Sort(d))
  {
    if d != [] {
      SortSorted(d[1..]);
      var r := Sort(d[1..]);
      forall g | g in r ensures g.name != d[0].name {
        assert g in multiset(r);
        assert g in d[1..];
      }
      InsertSorted(d[0], r);
    }
  }

  lemma SameFirst(a: Disk, b: Disk)
    requires Sorted(a) && Sorted(b) && multiset(a) == multiset(b) && a != []
    ensures b != [] && a[0] == b[0]
  {
    assert a[0] in multiset(b) && |multiset(b)| > 0;
    assert b[0] in multiset(a);
    if a[0] != b[0] {
      assert Before(b[0].name, a[0].name) && Before(a[0].name, b[0].name);
      BeforeTotal(a[0].name, b[0].name);
      assert false;
    }
  }

  lemma SameRest(a: Disk, b: Disk)
    requires a != [] && b != [] && a[0] == b[0] && multiset(a) == multiset(b)
    ensures multiset(a[1..]) == multiset(b[1..])
  {
    assert a == [a[0]] + a[1..] && b == [b[0]] + b[1..];
    assert multiset(a[1..]) == multiset(a) - multiset{a[0]} == multiset(b[1..]);
  }

  /** A sorted list of files is determined by its members. */
  lemma {:induction false} SortedUnique(a: Disk, b: Disk)
    requires Sorted(a) && Sorted(b) && multiset(a) == multiset(b)
    ensures a == b
  {
    if a == [] {
      assert |multiset(b)| == 0;
    } else {
      SameFirst(a, b);
      SameRest(a, b);
      SortedUnique(a[1..], b[1..]);
      assert a == [a[0]] + a[1..] && b == [b[0]] + b[1..];
    }
  }

  lemma {:induction false} LogsInCounts(d: Disk, f: File)
    ensures multiset(LogsIn(d))[f] == if EndsWith(f.name, SUFFIX) then multiset(d)[f] else 0
  {
    if d != [] {
      assert d == [d[0]] + d[1..];
      LogsInCounts(d[1..], f);
    }
  }

  lemma {:induction false} LogsInDistinct(d: Disk)
    requires DistinctNames(d)
    ensures DistinctNames(LogsIn(d))
  {
    if d != [] {
      LogsInDistinct(d[1..]);
      assert forall f | f in LogsIn(d[1..]) :: f in d[1..] && f.name != d[0].name;
    }
  }

  /** The log files in the order the services process them. */
  function LogFiles(d: Disk): Disk { Sort(LogsIn(d)) }

  /** Whatever order the directory is listed in, the same files come out in the same order. */
  lemma ListingOrderIsIrrelevant(d: Disk, e: Disk)
    requires DistinctNames(d) && DistinctNames(e) && multiset(d) == multiset(e)
    ensures LogFiles(d) == LogFiles(e)
  {
    forall f ensures multiset(LogsIn(d))[f] == multiset(LogsIn(e))[f] {
      LogsInCounts(d, f);
      LogsInCounts(e, f);
    }
    assert multiset(LogsIn(d)) == multiset(LogsIn(e));
    LogsInDistinct(d);
    LogsInDistinct(e);
    SortSorted(LogsIn(d));
    SortSorted(LogsIn(e));
    SortedUnique(Sort(LogsIn(d)), Sort(LogsIn(e)));
  }

  /** Writes to the end of the named file, which is created when it does not exist. */
  function Append(d: Disk, name: Text, text: Text): (r: Disk)
    requires DistinctNames(d)
    ensures DistinctNames(r)
    ensures forall f | f in r :: f.name == name || f in d
  {
    if d == [] then [File(name, text)]
    else if d[0].name == name then [File(name, d[0].content + text)] + d[1..]
    else
      var r := Append(d[1..], name, text);
      assert forall f | f in r :: f.name != d[0].name;
      [d[0]] + r
  }

  lemma {:induction false} AppendToLogs(d: Disk, name: Text, text: Text)
    requires DistinctNames(d) && EndsWith(name, SUFFIX)
    ensures DistinctNames(LogsIn(d))
    ensures LogsIn(Append(d, name, text)) == Append(LogsIn(d), name, text)
  {
    LogsInDistinct(d);
    if d != [] {
      LogsInDistinct(d[1..]);
      var f := d[0];
      if f.name == name {
        assert ([File(name, f.content + text)] + d[1..])[1..] == d[1..];
        assert LogsIn(d)[1..] == LogsIn(d[1..]);
      } else {
        AppendToLogs(d[1..], name, text);
        assert ([f] + Append(d[1..], name, text))[1..] == Append(d[1..], name, text);
        if EndsWith(f.name, SUFFIX) {
          assert LogsIn(d)[1..] == LogsIn(d[1..]);
        } else {
          assert LogsIn(d) == LogsIn(d[1..]);
        }
      }
    }
  }
}
