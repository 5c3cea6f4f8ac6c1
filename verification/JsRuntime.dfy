/** What the log service takes from the runtime: SHA-256, the text a number is printed as,
    and the comparison of any value with a whole number. */
module JsRuntime {
  import opened JsText
  import opened Decimal
  import opened Json

  predicate IsHexDigest(h: Text) {
    |h| == 64 && forall i | 0 <= i < |h| :: 48 <= h[i] <= 57 || 97 <= h[i] <= 102
  }

  datatype Runtime = Runtime(
    /** SHA-256 of the UTF-8 form of a text, in hexadecimal. */
    sha256: Text -> Text,
    /** `String(Number(literal))`: a literal again, or the name of an infinity. */
    number: Text -> Text,
    /** `v < n` and `v > n`, for any value. */
    below: (Value, int) -> bool,
    above: (Value, int) -> bool)
  {
    ghost predicate Digests() { forall x :: IsHexDigest(sha256(x)) }

    /** Digests are hexadecimal, and safe integers are printed and compared as such. */
    ghost predicate Valid() {
      && Digests()
      && (forall n | IsSafe(n) :: number(IntegerText(n)) == IntegerText(n))
      && (forall m, n | IsSafe(m) :: below(Num(IntegerText(m)), n) <==> m < n)
      && (forall m, n | IsSafe(m) :: above(Num(IntegerText(m)), n) <==> m > n)
    }
  }

  /** `Number.isSafeInteger`. */
  predicate IsSafe(n: int) { -SAFE < n < SAFE }

  const SAFE := 0x20_0000_0000_0000

  /** A runtime that keeps every literal and compares whole numbers only. */
  const SIMPLE := Runtime(
    (x: Text) => seq(64, _ => 48),
    (t: Text) => t,
    (v: Value, n: int) => v.Num? && IntegerOf(v.tok).Some? && IntegerOf(v.tok).value < n,
    (v: Value, n: int) => v.Num? && IntegerOf(v.tok).Some? && IntegerOf(v.tok).value > n)

  /** What is asked of a runtime can be met. */
  lemma ValidRuntimesExist()
    ensures SIMPLE.Valid()
  {
    forall m ensures IntegerOf(IntegerText(m)).Some? && IntegerOf(IntegerText(m)).value == m {
      IntegerTextIsNumber(m);
    }
  }

  // ------------------------------------------------------ numbers as the runtime has them

  /** A parsed value with every number literal replaced by what that number is printed as. */
  function Canon(R: Runtime, v: Value): Value
    decreases v, 1
  {
    match v
    case Num(tok) => if IsNumber(R.number(tok)) then Num(R.number(tok)) else NonFinite(R.number(tok))
    case Arr(items) => Arr(CanonItems(R, items))
    case Obj(fields) => Obj(CanonMembers(R, fields))
    case _ => v
  }

  function CanonItems(R: Runtime, vs: seq<Value>): (r: seq<Value>)
    ensures |r| == |vs|
    decreases vs, 0
  {
    if vs == [] then [] else [Canon(R, vs[0])] + CanonItems(R, vs[1..])
  }

  function CanonMembers(R: Runtime, fs: seq<Field>): (r: seq<Field>)
    ensures |r| == |fs|
    ensures forall i | 0 <= i < |fs| :: r[i].key == fs[i].key
    decreases fs, 0
  {
    if fs == [] then [] else [Field(fs[0].key, Canon(R, fs[0].val))] + CanonMembers(R, fs[1..])
  }

  /** `JSON.parse(s)`. */
  function ParseJson(R: Runtime, s: Text): Parsed {
    match Parse(s)
    case Fail => Fail
    case Parsed(v, rest) => Parsed(Canon(R, v), rest)
  }

  /** A value whose numbers are written as the runtime prints them, as those of every value
      of the runtime are. */
  predicate Printed(R: Runtime, v: Value) {
    match v
    case Num(tok) => R.number(tok) == tok
    case Arr(items) => forall i | 0 <= i < |items| :: Printed(R, items[i])
    case Obj(fields) => forall i | 0 <= i < |fields| :: Printed(R, fields[i].val)
    case _ => true
  }

  lemma {:induction false} CanonWellFormed(R: Runtime, v: Value)
    requires Plain(v)
    ensures WellFormed(Canon(R, v)) && !Canon(R, v).Undef?
    decreases v, 1
  {
    match v
    case Arr(items) => CanonItemsWellFormed(R, items);
    case Obj(fields) => CanonMembersWellFormed(R, fields);
    case _ =>
  }

  lemma {:induction false} CanonItemsWellFormed(R: Runtime, vs: seq<Value>)
    requires forall i | 0 <= i < |vs| :: Plain(vs[i])
    ensures forall i | 0 <= i < |vs| :: WellFormed(CanonItems(R, vs)[i])
    decreases vs, 0
  {
    if vs != [] {
      CanonWellFormed(R, vs[0]);
      CanonItemsWellFormed(R, vs[1..]);
    }
  }

  lemma {:induction false} CanonMembersWellFormed(R: Runtime, fs: seq<Field>)
    requires forall i | 0 <= i < |fs| :: Plain(fs[i].val)
    ensures forall i | 0 <= i < |fs| :: WellFormed(CanonMembers(R, fs)[i].val) && !CanonMembers(R, fs)[i].val.Undef?
    decreases fs, 0
  {
    if fs != [] {
      CanonWellFormed(R, fs[0].val);
      CanonMembersWellFormed(R, fs[1..]);
    }
  }

  lemma {:induction false} CanonOfPrinted(R: Runtime, v: Value)
    requires Plain(v) && Printed(R, v)
    ensures Canon(R, v) == v
    decreases v, 1
  {
    match v
    case Arr(items) => CanonItemsOfPrinted(R, items);
    case Obj(fields) => CanonMembersOfPrinted(R, fields);
    case _ =>
  }

  lemma {:induction false} CanonItemsOfPrinted(R: Runtime, vs: seq<Value>)
    requires forall i | 0 <= i < |vs| :: Plain(vs[i]) && Printed(R, vs[i])
    ensures CanonItems(R, vs) == vs
    decreases vs, 0
  {
    if vs != [] {
      CanonOfPrinted(R, vs[0]);
      CanonItemsOfPrinted(R, vs[1..]);
    }
  }

  lemma {:induction false} CanonMembersOfPrinted(R: Runtime, fs: seq<Field>)
    requires forall i | 0 <= i < |fs| :: Plain(fs[i].val) && Printed(R, fs[i].val)
    ensures CanonMembers(R, fs) == fs
    decreases fs, 0
  {
    if fs != [] {
      CanonOfPrinted(R, fs[0].val);
      CanonMembersOfPrinted(R, fs[1..]);
    }
  }

  lemma {:induction false} NormalIsPrinted(R: Runtime, v: Value)
    requires Printed(R, v)
    ensures Printed(R, Normal(v))
    decreases v, 1
  {
    match v
    case Arr(items) => NormalItemsPrinted(R, items);
    case Obj(fields) => NormalMembersPrinted(R, fields);
    case _ =>
  }

  lemma {:induction false} NormalItemsPrinted(R: Runtime, vs: seq<Value>)
    requires forall i | 0 <= i < |vs| :: Printed(R, vs[i])
    ensures forall i | 0 <= i < |vs| :: Printed(R, NormalItems(vs)[i])
    decreases vs, 0
  {
    if vs != [] {
      NormalIsPrinted(R, vs[0]);
      NormalItemsPrinted(R, vs[1..]);
    }
  }

  lemma {:induction false} NormalMembersPrinted(R: Runtime, fs: seq<Field>)
    requires forall i | 0 <= i < |fs| :: Printed(R, fs[i].val)
    ensures forall f | f in NormalMembers(fs) :: Printed(R, f.val)
    decreases fs, 0
  {
    if fs != [] {
      NormalIsPrinted(R, fs[0].val);
      NormalMembersPrinted(R, fs[1..]);
    }
  }

  /** `JSON.parse(JSON.stringify(v))` is `v` with its undefined members dropped, for every
      value but `undefined` itself, for which `stringify` gives no text. */
  lemma ReadPrinted(R: Runtime, v: Value)
    requires WellFormed(v) && Printed(R, v) && !v.Undef?
    ensures ParseJson(R, Print(v)) == Parsed(Normal(v), [])
  {
    ParsePrint(v);
    NormalIsPlain(v);
    NormalIsPrinted(R, v);
    CanonOfPrinted(R, Normal(v));
  }
}
