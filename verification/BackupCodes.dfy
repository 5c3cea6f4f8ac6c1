/** One-time backup codes, stored as JSON text, and the conservation of codes over any
    sequence of attempts. */
module BackupCodes {
  import opened JsText
  import opened Option
  import opened Json

  const CODE := T("code")
  const USED := T("used")
  const USED_AT := T("usedAt")

  /** A backup code; the date of use is kept as the ISO text it has in JSON. */
  datatype BackupCode = BackupCode(code: Text, used: bool, usedAt: Option<Text>)

  /** What `parseBackupCodes` returns: a list of codes, or something on which the callers'
      list methods throw. */
  datatype Codes = Codes(list: seq<BackupCode>) | NotAList

  datatype Validation = Validation(valid: bool, remainingCodes: seq<BackupCode>) | Throws

  function Encode(c: BackupCode): Value {
    Obj([Field(CODE, Str(c.code)), Field(USED, Bool(c.used)),
         Field(USED_AT, if c.usedAt.Some? then Str(c.usedAt.value) else Undef)])
  }

  function Decode(v: Value): Option<BackupCode> {
    var code, used, usedAt := Get(v, CODE), Get(v, USED), Get(v, USED_AT);
    if code.Str? && used.Bool? && (usedAt.Str? || usedAt.Undef?)
    then Some(BackupCode(code.s, used.b, if usedAt.Str? then Some(usedAt.s) else None))
    else None
  }

  function EncodeAll(codes: seq<BackupCode>): (vs: seq<Value>)
    ensures |vs| == |codes|
    ensures forall i | 0 <= i < |codes| :: vs[i] == Encode(codes[i])
  {
    if codes == [] then [] else [Encode(codes[0])] + EncodeAll(codes[1..])
  }

  function DecodeAll(vs: seq<Value>): Codes {
    if vs == [] then Codes([])
    else
      match Decode(vs[0])
      case None => NotAList
      case Some(c) =>
        match DecodeAll(vs[1..])
        case NotAList => NotAList
        case Codes(cs) => Codes([c] + cs)
  }

  /** `stringifyBackupCodes`. */
  function Stringify(codes: seq<BackupCode>): Text { Print(Arr(EncodeAll(codes))) }

  /** `parseBackupCodes`: text that is not JSON counts as no codes. */
  function ParseCodes(stored: Text): Codes {
    match Parse(stored)
    case Fail => Codes([])
    case Parsed(v, _) => if v.Arr? then DecodeAll(v.items) else NotAList
  }

  /** New codes, none of them used. */
  function Issue(codes: seq<Text>): (r: seq<BackupCode>)
    ensures |r| == |codes|
    ensures Unused(r) == multiset(codes)
  {
    if codes == [] then []
    else
      assert codes == [codes[0]] + codes[1..];
      [BackupCode(codes[0], false, None)] + Issue(codes[1..])
  }

  /** `codes.findIndex((c) => c.code === upperInput && !c.used)`, the length for -1. */
  function FindUnused(codes: seq<BackupCode>, code: Text): (i: nat)
    ensures i <= |codes|
    ensures i < |codes| ==> codes[i].code == code && !codes[i].used
    ensures forall k | 0 <= k < i :: codes[k].code != code || codes[k].used
  {
    if codes == [] || (codes[0].code == code && !codes[0].used) then 0 else 1 + FindUnused(codes[1..], code)
  }

  function Validate(stored: Text, code: Text, now: Text): Validation {
    match ParseCodes(stored)
    case NotAList => Throws
    case Codes(list) =>
      var i := FindUnused(list, code);
      if i == |list| then Validation(false, list)
      else Validation(true, list[i := list[i].(used := true, usedAt := Some(now))])
  }

  class BackupCodesService {
    /** `String.prototype.toUpperCase`. */
    const upper: Text -> Text

    constructor (upper: Text -> Text)
      ensures this.upper == upper
    {
      this.upper := upper;
    }

    method ValidateBackupCode(storedCodes: Text, inputCode: Text, now: Text) returns (r: Validation)
      ensures r == Validate(storedCodes, upper(inputCode), now)
    {
      var parsed := ParseCodes(storedCodes);
      if parsed.NotAList? { return Throws; }
      var codes := parsed.list;
      var upperInput := upper(inputCode);
      var codeIndex := FindUnused(codes, upperInput);
      if codeIndex == |codes| {
        return Validation(false, codes);
      }
      codes := codes[codeIndex := codes[codeIndex].(used := true, usedAt := Some(now))];
      return Validation(true, codes);
    }

    /** `None` where it throws. */
    method CountRemainingCodes(storedCodes: Text) returns (n: Option<nat>)
      ensures n == match ParseCodes(storedCodes) case NotAList => None case Codes(list) => Some(|Unused(list)|)
    {
      var parsed := ParseCodes(storedCodes);
      if parsed.NotAList? { return None; }
      var codes := parsed.list;
      var count := 0;
      for i := 0 to |codes|
        invariant count == |Unused(codes[..i])|
      {
        assert codes[..i + 1] == codes[..i] + [codes[i]];
        UnusedAppend(codes[..i], codes[i]);
        if !codes[i].used { count := count + 1; }
      }
      assert codes[..|codes|] == codes;
      return Some(count);
    }
  }

  /** The codes that can still be used, with their multiplicity. */
  function Unused(codes: seq<BackupCode>): multiset<Text> {
    if codes == [] then multiset{}
    else (if codes[0].used then multiset{} else multiset{codes[0].code}) + Unused(codes[1..])
  }

  lemma {:induction false} UnusedAppend(codes: seq<BackupCode>, c: BackupCode)
    ensures Unused(codes + [c]) == Unused(codes) + (if c.used then multiset{} else multiset{c.code})
  {
    if codes == [] {
      assert codes + [c] == [c];
    } else {
      UnusedAppend(codes[1..], c);
      assert (codes + [c])[1..] == codes[1..] + [c];
    }
  }

  // --------------------------------------------------------------- the stored text

  lemma CodeKeys(c: BackupCode)
    ensures ObjectKeys(Encode(c).fields)
  {
    assert CODE[0] == 99 && USED[0] == 117 && USED_AT[0] == 117 && |CODE| == |USED| == 4 && |USED_AT| == 6;
    IndexIsDigits(CODE);
    IndexIsDigits(USED);
    IndexIsDigits(USED_AT);
  }

  lemma EncodeWellFormed(c: BackupCode)
    ensures WellFormed(Encode(c))
    ensures Decode(Normal(Encode(c))) == Some(c)
  {
    var fs := Encode(c).fields;
    CodeKeys(c);
    LookupAt(fs, 0); LookupAt(fs, 1); LookupAt(fs, 2);
    LookupNormal(fs, CODE); LookupNormal(fs, USED); LookupNormal(fs, USED_AT);
  }

  lemma {:induction false} DecodeEncoded(codes: seq<BackupCode>)
    ensures DecodeAll(NormalItems(EncodeAll(codes))) == Codes(codes)
  {
    if codes != [] {
      EncodeWellFormed(codes[0]);
      DecodeEncoded(codes[1..]);
      var vs := NormalItems(EncodeAll(codes));
      assert EncodeAll(codes)[1..] == EncodeAll(codes[1..]);
      assert vs[1..] == NormalItems(EncodeAll(codes[1..]));
      assert codes == [codes[0]] + codes[1..];
    }
  }

  /** Parsing what was stored gives back the codes, dates of use included. */
  lemma ParseStored(codes: seq<BackupCode>)
    ensures ParseCodes(Stringify(codes)) == Codes(codes)
  {
    var v := Arr(EncodeAll(codes));
    forall i | 0 <= i < |codes| ensures WellFormed(EncodeAll(codes)[i]) { EncodeWellFormed(codes[i]); }
    ParsePrint(v);
    DecodeEncoded(codes);
  }

  // ------------------------------------------------------------------ conservation

  lemma {:induction false} FindUnusedFinds(codes: seq<BackupCode>, code: Text)
    ensures FindUnused(codes, code) < |codes| <==> code in Unused(codes)
  {
    if codes != [] {
      FindUnusedFinds(codes[1..], code);
    }
  }

  lemma {:induction false} MarkTakesOne(codes: seq<BackupCode>, i: nat, now: Text)
    requires i < |codes| && !codes[i].used
    ensures Unused(codes[i := codes[i].(used := true, usedAt := Some(now))]) + multiset{codes[i].code} == Unused(codes)
  {
    var marked := codes[i := codes[i].(used := true, usedAt := Some(now))];
    if i == 0 {
      assert marked[1..] == codes[1..];
    } else {
      MarkTakesOne(codes[1..], i - 1, now);
      assert marked[1..] == codes[1..][i - 1 := codes[i].(used := true, usedAt := Some(now))];
    }
  }

  /** The code stands there unused, and at no place before. */
  predicate FirstUnused(codes: seq<BackupCode>, i: nat, code: Text) {
    && i < |codes| && codes[i].code == code && !codes[i].used
    && forall k | 0 <= k < i :: !(codes[k].code == code && !codes[k].used)
  }

  predicate SpentFirst(codes: seq<BackupCode>, code: Text, now: Text, left: seq<BackupCode>) {
    exists i | 0 <= i < |codes| ::
      FirstUnused(codes, i, code) && left == codes[i := BackupCode(code, true, Some(now))]
  }

  /** One attempt on stored codes: accepted exactly when the code is still unused, and then
      exactly one of its unused copies is spent, the first, with the time of its use. */
  lemma AttemptSpendsOne(codes: seq<BackupCode>, code: Text, now: Text)
    ensures var r := Validate(Stringify(codes), code, now);
            && r.Validation?
            && (r.valid <==> code in Unused(codes))
            && (r.valid ==> Unused(r.remainingCodes) + multiset{code} == Unused(codes))
            && (!r.valid ==> r.remainingCodes == codes)
            && |Unused(r.remainingCodes)| == |Unused(codes)| - (if r.valid then 1 else 0)
            && |r.remainingCodes| == |codes|
            && (r.valid ==> SpentFirst(codes, code, now, r.remainingCodes))
  {
    ParseStored(codes);
    FindUnusedFinds(codes, code);
    var i := FindUnused(codes, code);
    if i < |codes| {
      assert FirstUnused(codes, i, code);
      MarkTakesOne(codes, i, now);
      var r := Validate(Stringify(codes), code, now);
      assert |Unused(r.remainingCodes) + multiset{code}| == |Unused(r.remainingCodes)| + 1;
    }
  }

  datatype Attempt = Attempt(input: Text, now: Text)

  /** Attempts one after the other, the remaining codes stored as text in between: the codes
      accepted and the codes left. */
  datatype Ledger = Ledger(accepted: multiset<Text>, left: seq<BackupCode>)

  function Attempts(codes: seq<BackupCode>, attempts: seq<Attempt>, upper: Text -> Text): Ledger
    decreases attempts
  {
    if attempts == [] then Ledger(multiset{}, codes)
    else
      var code := upper(attempts[0].input);
      match Validate(Stringify(codes), code, attempts[0].now)
      case Throws => Ledger(multiset{}, codes)
      case Validation(valid, remaining) =>
        var rest := Attempts(remaining, attempts[1..], upper);
        if valid then Ledger(rest.accepted + multiset{code}, rest.left) else rest
  }

  /** Whatever is tried and in whatever order: the codes left together with the codes
      accepted are the codes there were, duplicates counted. */
  lemma {:induction false} CodesAreConserved(codes: seq<BackupCode>, attempts: seq<Attempt>, upper: Text -> Text)
    ensures var l := Attempts(codes, attempts, upper);
            Unused(l.left) + l.accepted == Unused(codes)
    decreases attempts
  {
    if attempts != [] {
      var code := upper(attempts[0].input);
      AttemptSpendsOne(codes, code, attempts[0].now);
      var r := Validate(Stringify(codes), code, attempts[0].now);
      CodesAreConserved(r.remainingCodes, attempts[1..], upper);
      AttemptsStep(codes, attempts, upper, r);
    }
  }

  lemma AttemptsStep(codes: seq<BackupCode>, attempts: seq<Attempt>, upper: Text -> Text, r: Validation)
    requires attempts != [] && r.Validation?
    requires r == Validate(Stringify(codes), upper(attempts[0].input), attempts[0].now)
    ensures var l, rest := Attempts(codes, attempts, upper), Attempts(r.remainingCodes, attempts[1..], upper);
            l.left == rest.left
            && l.accepted == rest.accepted + (if r.valid then multiset{upper(attempts[0].input)} else multiset{})
  {
  }

  /** So of newly issued codes none is accepted more often than it was issued. */
  lemma NeverMoreThanIssued(issued: seq<Text>, attempts: seq<Attempt>, upper: Text -> Text, code: Text)
    ensures Attempts(Issue(issued), attempts, upper).accepted[code] <= multiset(issued)[code]
  {
    var codes := Issue(issued);
    CodesAreConserved(codes, attempts, upper);
    var l := Attempts(codes, attempts, upper);
    assert (Unused(l.left) + l.accepted)[code] == Unused(l.left)[code] + l.accepted[code];
  }
}
