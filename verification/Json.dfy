/** `JSON.stringify` and `JSON.parse` (RFC 8259), and the theorem that parsing what
    was printed gives back the printed value with its `undefined` members dropped. */
module Json {
  import opened JsText
  import opened Decimal

  const QUOTE: Unit := 34
  const BACKSLASH: Unit := 92
  const COMMA: Unit := 44
  const COLON: Unit := 58
  const LBRACE: Unit := 123
  const RBRACE: Unit := 125
  const LBRACKET: Unit := 91
  const RBRACKET: Unit := 93
  const LOWER_F: Unit := 102
  const LOWER_N: Unit := 110
  const LOWER_T: Unit := 116

  /** A JavaScript value: what `stringify` is given and what `parse` reads. Numbers are
      literals; the infinities and NaN, which have none, go by their names. */
  datatype Value =
    | Undef
    | NonFinite(name: Text)
    | Null
    | Bool(b: bool)
    | Num(tok: Text)
    | Str(s: Text)
    | Arr(items: seq<Value>)
    | Obj(fields: seq<Field>)

  datatype Field = Field(key: Text, val: Value)

  // ---------------------------------------------------------------- printing

  predicate High(u: Unit) { 0xD800 <= u < 0xDC00 }

  predicate Low(u: Unit) { 0xDC00 <= u < 0xE000 }

  predicate IsHex(u: Unit) { 48 <= u <= 57 || 65 <= u <= 70 || 97 <= u <= 102 }

  function HexValue(u: Unit): (n: int)
    requires IsHex(u)
    ensures 0 <= n < 16
  {
    if u <= 57 then u - 48 else if u <= 70 then u - 55 else u - 87
  }

  function HexUnit(n: int): (u: Unit)
    requires 0 <= n < 16
    ensures IsHex(u) && HexValue(u) == n
  {
    if n < 10 then 48 + n else 87 + n
  }

  function UnicodeEscape(u: Unit): Text {
    [BACKSLASH, 117, HexUnit(u / 16 / 16 / 16), HexUnit(u / 16 / 16 % 16), HexUnit(u / 16 % 16), HexUnit(u % 16)]
  }

  /** How one unit is written inside a string: raw, with a short escape, or as `\uXXXX`. */
  function EscapeUnit(u: Unit): Text {
    if u == QUOTE || u == BACKSLASH then [BACKSLASH, u]
    else if u == 8 then [BACKSLASH, 98]
    else if u == 9 then [BACKSLASH, 116]
    else if u == 10 then [BACKSLASH, 110]
    else if u == 12 then [BACKSLASH, 102]
    else if u == 13 then [BACKSLASH, 114]
    else if u < 32 || High(u) || Low(u) then UnicodeEscape(u)
    else [u]
  }

  /** Surrogates are written raw in pairs and escaped when alone. */
  function Escape(s: Text): Text {
    if s == [] then []
    else if |s| >= 2 && High(s[0]) && Low(s[1]) then [s[0], s[1]] + Escape(s[2..])
    else EscapeUnit(s[0]) + Escape(s[1..])
  }

  function Quote(s: Text): Text { [QUOTE] + Escape(s) + [QUOTE] }

  /** `JSON.stringify(v)`, for `v` inside an array where `v` can be `undefined`. */
  function Print(v: Value): Text
    decreases v, 1
  {
    match v
    case Undef => T("null")
    case NonFinite(_) => T("null")
    case Null => T("null")
    case Bool(b) => if b then T("true") else T("false")
    case Num(tok) => tok
    case Str(s) => Quote(s)
    case Arr(items) => [LBRACKET] + PrintItems(items) + [RBRACKET]
    case Obj(fields) => [LBRACE] + PrintMembers(fields, true) + [RBRACE]
  }

  function PrintItems(vs: seq<Value>): Text
    decreases vs, 0
  {
    if vs == [] then []
    else if |vs| == 1 then Print(vs[0])
    else Print(vs[0]) + [COMMA] + PrintItems(vs[1..])
  }

  /** Members whose value is `undefined` are left out. */
  function PrintMembers(fs: seq<Field>, first: bool): Text
    decreases fs, 0
  {
    if fs == [] then []
    else if fs[0].val.Undef? then PrintMembers(fs[1..], first)
    else
      var r := Quote(fs[0].key) + ([COLON] + (Print(fs[0].val) + PrintMembers(fs[1..], false)));
      if first then r else [COMMA] + r
  }

  // ------------------------------------------------- values that survive printing

  predicate DistinctKeys(fs: seq<Field>) {
    forall i, j | 0 <= i < j < |fs| :: fs[i].key != fs[j].key
  }

  /** The keys JavaScript keeps in front and in ascending order: canonical array indices. */
  predicate IsIndex(key: Text) {
    IntegerOf(key).Some? && 0 <= IntegerOf(key).value < 0xFFFF_FFFF && Digits(IntegerOf(key).value) == key
  }

  /** `a` comes before `b` in an object, whichever was added first. */
  predicate KeyFirst(a: Text, b: Text) {
    IsIndex(a) && (IsIndex(b) ==> IntegerOf(a).value < IntegerOf(b).value)
  }

  lemma IndexIsDigits(key: Text)
    ensures IsIndex(key) ==> key != [] && IsDigit(key[0])
  {
    if IsIndex(key) { assert Digits(IntegerOf(key).value) == key; }
  }

  predicate KeysInOrder(fs: seq<Field>) {
    forall i, j | 0 <= i < j < |fs| :: !KeyFirst(fs[j].key, fs[i].key)
  }

  /** The keys of an object: distinct, and in the order JavaScript lists them. */
  predicate ObjectKeys(fs: seq<Field>) { DistinctKeys(fs) && KeysInOrder(fs) }

  /** A value `JSON.parse` can return. */
  predicate Plain(v: Value) {
    match v
    case Undef => false
    case NonFinite(_) => false
    case Null => true
    case Bool(_) => true
    case Num(tok) => IsNumber(tok)
    case Str(_) => true
    case Arr(items) => forall i | 0 <= i < |items| :: Plain(items[i])
    case Obj(fields) => ObjectKeys(fields) && forall i | 0 <= i < |fields| :: Plain(fields[i].val)
  }

  /** A JavaScript value made of these parts: number literals are literals, and the keys of
      an object differ and stand in its order. */
  predicate WellFormed(v: Value) {
    match v
    case Num(tok) => IsNumber(tok)
    case Arr(items) => forall i | 0 <= i < |items| :: WellFormed(items[i])
    case Obj(fields) => ObjectKeys(fields) && forall i | 0 <= i < |fields| :: WellFormed(fields[i].val)
    case _ => true
  }

  /** The value that printing leaves: `undefined` becomes `null` in an array and is
      dropped from an object; numbers without a literal become `null`. */
  function Normal(v: Value): Value
    decreases v, 1
  {
    match v
    case Undef => Null
    case NonFinite(_) => Null
    case Arr(items) => Arr(NormalItems(items))
    case Obj(fields) => Obj(NormalMembers(fields))
    case _ => v
  }

  function NormalItems(vs: seq<Value>): (r: seq<Value>)
    ensures |r| == |vs|
    decreases vs, 0
  {
    if vs == [] then [] else [Normal(vs[0])] + NormalItems(vs[1..])
  }

  function NormalMembers(fs: seq<Field>): (r: seq<Field>)
    decreases fs, 0
  {
    if fs == [] then []
    else if fs[0].val.Undef? then NormalMembers(fs[1..])
    else [Field(fs[0].key, Normal(fs[0].val))] + NormalMembers(fs[1..])
  }

  lemma {:induction false} NormalIsPlain(v: Value)
    requires WellFormed(v)
    ensures Plain(Normal(v))
    decreases v, 1
  {
    match v
    case Arr(items) => NormalItemsPlain(items);
    case Obj(fields) => NormalMembersPlain(fields);
    case _ =>
  }

  lemma {:induction false} NormalItemsPlain(vs: seq<Value>)
    requires forall i | 0 <= i < |vs| :: WellFormed(vs[i])
    ensures forall i | 0 <= i < |vs| :: Plain(NormalItems(vs)[i])
    decreases vs, 0
  {
    if vs != [] {
      NormalIsPlain(vs[0]);
      NormalItemsPlain(vs[1..]);
    }
  }

  lemma {:induction false} NormalMembersPlain(fs: seq<Field>)
    requires ObjectKeys(fs) && forall i | 0 <= i < |fs| :: WellFormed(fs[i].val)
    ensures Plain(Obj(NormalMembers(fs)))
    ensures forall f | f in NormalMembers(fs) :: exists i | 0 <= i < |fs| :: fs[i].key == f.key
    decreases fs, 0
  {
    if fs != [] {
      var r := NormalMembers(fs[1..]);
      NormalMembersPlain(fs[1..]);
      forall f | f in r
        ensures f.key != fs[0].key && !KeyFirst(f.key, fs[0].key) && exists i | 0 <= i < |fs| :: fs[i].key == f.key
      {
        var i :| 0 <= i < |fs[1..]| && fs[1..][i].key == f.key;
        assert fs[i + 1].key == f.key;
      }
      if !fs[0].val.Undef? {
        NormalIsPlain(fs[0].val);
      }
    }
  }

  /** Dropping the undefined members first changes nothing that is printed. */
  lemma {:induction false} PrintNormal(v: Value)
    ensures Print(Normal(v)) == Print(v)
    decreases v, 1
  {
    match v
    case Arr(items) => PrintNormalItems(items);
    case Obj(fields) => PrintNormalMembers(fields, true);
    case _ =>
  }

  lemma {:induction false} PrintNormalItems(vs: seq<Value>)
    ensures PrintItems(NormalItems(vs)) == PrintItems(vs)
    decreases vs, 0
  {
    if vs != [] {
      PrintNormal(vs[0]);
      PrintNormalItems(vs[1..]);
      assert NormalItems(vs)[1..] == NormalItems(vs[1..]);
    }
  }

  lemma {:induction false} PrintNormalMembers(fs: seq<Field>, first: bool)
    ensures PrintMembers(NormalMembers(fs), first) == PrintMembers(fs, first)
    decreases fs, 0
  {
    if fs != [] {
      if fs[0].val.Undef? {
        PrintNormalMembers(fs[1..], first);
      } else {
        PrintNormal(fs[0].val);
        PrintNormalMembers(fs[1..], false);
        assert NormalMembers(fs)[1..] == NormalMembers(fs[1..]);
      }
    }
  }

  // ----------------------------------------------------------------- parsing

  function SkipBlank(s: Text): (r: Text)
    ensures |r| <= |s|
  {
    if s != [] && (s[0] == 32 || s[0] == 9 || s[0] == 10 || s[0] == 13) then SkipBlank(s[1..]) else s
  }

  datatype Char = BadChar | Char(u: Unit, rest: Text)

  /** Reads what follows a backslash. */
  function Unescape(s: Text): (r: Char)
    ensures r.Char? ==> |r.rest| < |s|
  {
    if s == [] then BadChar
    else if s[0] == QUOTE || s[0] == BACKSLASH || s[0] == 47 then Char(s[0], s[1..])
    else if s[0] == 98 then Char(8, s[1..])
    else if s[0] == 116 then Char(9, s[1..])
    else if s[0] == 110 then Char(10, s[1..])
    else if s[0] == 102 then Char(12, s[1..])
    else if s[0] == 114 then Char(13, s[1..])
    else if s[0] == 117 && |s| >= 5 && IsHex(s[1]) && IsHex(s[2]) && IsHex(s[3]) && IsHex(s[4]) then
      Char(((HexValue(s[1]) * 16 + HexValue(s[2])) * 16 + HexValue(s[3])) * 16 + HexValue(s[4]), s[5..])
    else BadChar
  }

  datatype Chars = BadChars | Chars(s: Text, rest: Text)

  function Prepend(u: Unit, c: Chars): (r: Chars)
    ensures r.Chars? <==> c.Chars?
    ensures r.Chars? ==> r.rest == c.rest
  {
    match c
    case BadChars => BadChars
    case Chars(s, rest) => Chars([u] + s, rest)
  }

  /** Reads a string after its opening quote. */
  function ParseChars(s: Text): (r: Chars)
    ensures r.Chars? ==> |r.rest| < |s|
  {
    if s == [] || s[0] < 32 then BadChars
    else if s[0] == QUOTE then Chars([], s[1..])
    else if s[0] == BACKSLASH then
      match Unescape(s[1..])
      case BadChar => BadChars
      case Char(u, rest) => Prepend(u, ParseChars(rest))
    else Prepend(s[0], ParseChars(s[1..]))
  }

  datatype Parsed = Fail | Parsed(v: Value, rest: Text)

  function NumberRun(s: Text): (n: nat)
    ensures n <= |s|
    ensures forall i | 0 <= i < n :: IsNumberUnit(s[i])
    ensures n < |s| ==> !IsNumberUnit(s[n])
  {
    if s == [] || !IsNumberUnit(s[0]) then 0 else 1 + NumberRun(s[1..])
  }

  /** The position of the member with this key, or the number of members. */
  function KeyIndex(fs: seq<Field>, key: Text): (n: nat)
    ensures n <= |fs|
    ensures forall i | 0 <= i < n :: fs[i].key != key
    ensures n < |fs| ==> fs[n].key == key
  {
    if fs == [] || fs[0].key == key then 0 else 1 + KeyIndex(fs[1..], key)
  }

  /** The position of a new key: before the first key it has to precede. */
  function KeyPlace(fs: seq<Field>, key: Text): (n: nat)
    ensures n <= |fs|
    ensures forall i | 0 <= i < n :: !KeyFirst(key, fs[i].key)
    ensures n < |fs| ==> KeyFirst(key, fs[n].key)
  {
    if fs == [] || KeyFirst(key, fs[0].key) then 0 else 1 + KeyPlace(fs[1..], key)
  }

  /** A later member with the same key replaces the earlier one in place. */
  function Put(fs: seq<Field>, key: Text, val: Value): seq<Field> {
    var n := KeyIndex(fs, key);
    if n < |fs| then fs[n := Field(key, val)]
    else
      var p := KeyPlace(fs, key);
      fs[..p] + [Field(key, val)] + fs[p..]
  }

  lemma PutKeepsKeys(fs: seq<Field>, key: Text, val: Value)
    requires ObjectKeys(fs)
    ensures ObjectKeys(Put(fs, key, val))
  {
    var n := KeyIndex(fs, key);
    if n < |fs| {
      var r := Put(fs, key, val);
      assert forall i | 0 <= i < |r| :: r[i].key == fs[i].key;
    } else {
      InsertKeepsKeys(fs, Field(key, val), KeyPlace(fs, key));
    }
  }

  lemma InsertKeepsKeys(fs: seq<Field>, f: Field, p: nat)
    requires ObjectKeys(fs) && p <= |fs|
    requires forall i | 0 <= i < |fs| :: fs[i].key != f.key
    requires forall i | 0 <= i < p :: !KeyFirst(f.key, fs[i].key)
    requires p < |fs| ==> KeyFirst(f.key, fs[p].key)
    ensures ObjectKeys(fs[..p] + [f] + fs[p..])
  {
    var r := fs[..p] + [f] + fs[p..];
    assert forall i | 0 <= i < |r| :: r[i] == if i < p then fs[i] else if i == p then f else fs[i - 1];
    forall j | p <= j < |fs| ensures !KeyFirst(fs[j].key, f.key) {
      if KeyFirst(fs[j].key, f.key) { assert KeyFirst(fs[j].key, fs[p].key) && j > p; }
    }
  }

  function ParseNumber(s: Text): (r: Parsed)
    ensures r.Parsed? ==> |r.rest| < |s| && r.v.Num?
  {
    var n := NumberRun(s);
    if IsNumber(s[..n]) then Parsed(Num(s[..n]), s[n..]) else Fail
  }

  /** What comes after an item or a member: the closing bracket, a comma and more, or
      neither. */
  datatype Next = Neither | Ended(after: Text) | More(next: Text)

  function ParseNext(rest: Text, close: Unit): (r: Next)
    ensures r.Ended? ==> |r.after| < |rest|
    ensures r.More? ==> |r.next| < |rest|
  {
    var s := SkipBlank(rest);
    if s == [] then Neither
    else if s[0] == close then Ended(s[1..])
    else if s[0] == COMMA then More(SkipBlank(s[1..]))
    else Neither
  }

  /** Reads a key and its colon, up to the value. */
  function ParseKey(s: Text): (r: Chars)
    ensures r.Chars? ==> |r.rest| < |s|
  {
    if s == [] || s[0] != QUOTE then BadChars
    else
      match ParseChars(s[1..])
      case BadChars => BadChars
      case Chars(key, rest) =>
        var c := SkipBlank(rest);
        if c == [] || c[0] != COLON then BadChars else Chars(key, SkipBlank(c[1..]))
  }

  /** Reads one of the three literal names. */
  function ParseWord(s: Text, word: Text, v: Value): (r: Parsed)
    requires word != []
    ensures r.Parsed? ==> |r.rest| < |s| && r.v == v
  {
    if |s| >= |word| && s[..|word|] == word then Parsed(v, s[|word|..]) else Fail
  }

  /** Reads a string, a literal name or a number. */
  function ParseScalar(s: Text): (r: Parsed)
    requires s != []
    ensures r.Parsed? ==> |r.rest| < |s| && !r.v.Arr? && !r.v.Obj?
  {
    if s[0] == QUOTE then
      match ParseChars(s[1..])
      case BadChars => Fail
      case Chars(t, rest) => Parsed(Str(t), rest)
    else if s[0] == LOWER_N then ParseWord(s, T("null"), Null)
    else if s[0] == LOWER_T then ParseWord(s, T("true"), Bool(true))
    else if s[0] == LOWER_F then ParseWord(s, T("false"), Bool(false))
    else ParseNumber(s)
  }

  /** Reads one value; `s` starts with its first unit. */
  function ParseValue(s: Text): (r: Parsed)
    ensures r.Parsed? ==> |r.rest| < |s|
    decreases |s|, 1
  {
    if s == [] then Fail
    else if s[0] == LBRACE then
      var r := SkipBlank(s[1..]);
      if r != [] && r[0] == RBRACE then Parsed(Obj([]), r[1..]) else ParseMembers(r, [])
    else if s[0] == LBRACKET then
      var r := SkipBlank(s[1..]);
      if r != [] && r[0] == RBRACKET then Parsed(Arr([]), r[1..]) else ParseItems(r, [])
    else ParseScalar(s)
  }

  function ParseItems(s: Text, acc: seq<Value>): (r: Parsed)
    ensures r.Parsed? ==> |r.rest| < |s|
    decreases |s|, 2
  {
    match ParseValue(s)
    case Fail => Fail
    case Parsed(v, rest) =>
      match ParseNext(rest, RBRACKET)
      case Neither => Fail
      case Ended(after) => Parsed(Arr(acc + [v]), after)
      case More(next) => ParseItems(next, acc + [v])
  }

  function ParseMembers(s: Text, acc: seq<Field>): (r: Parsed)
    ensures r.Parsed? ==> |r.rest| < |s|
    decreases |s|, 2
  {
    match ParseKey(s)
    case BadChars => Fail
    case Chars(key, value) =>
      match ParseValue(value)
      case Fail => Fail
      case Parsed(v, rest) =>
        match ParseNext(rest, RBRACE)
        case Neither => Fail
        case Ended(after) => Parsed(Obj(Put(acc, key, v)), after)
        case More(next) => ParseMembers(next, Put(acc, key, v))
  }

  /** `JSON.parse(s)`: `Fail` where it throws. */
  function Parse(s: Text): Parsed {
    match ParseValue(SkipBlank(s))
    case Fail => Fail
    case Parsed(v, rest) => if SkipBlank(rest) == [] then Parsed(v, []) else Fail
  }

  // ------------------------------------------------------------ parsing is plain

  lemma {:induction false} ParseValuePlain(s: Text)
    requires ParseValue(s).Parsed?
    ensures Plain(ParseValue(s).v)
    decreases |s|, 1
  {
    if s[0] == LBRACE {
      var r := SkipBlank(s[1..]);
      if r == [] || r[0] != RBRACE { ParseMembersPlain(r, []); }
    } else if s[0] == LBRACKET {
      var r := SkipBlank(s[1..]);
      if r == [] || r[0] != RBRACKET { ParseItemsPlain(r, []); }
    }
  }

  lemma {:induction false} ParseItemsPlain(s: Text, acc: seq<Value>)
    requires ParseItems(s, acc).Parsed? && Plain(Arr(acc))
    ensures Plain(ParseItems(s, acc).v)
    decreases |s|, 2
  {
    ParseValuePlain(s);
    var p := ParseValue(s);
    var n := ParseNext(p.rest, RBRACKET);
    if n.More? { ParseItemsPlain(n.next, acc + [p.v]); }
  }

  lemma {:induction false} ParseMembersPlain(s: Text, acc: seq<Field>)
    requires ParseMembers(s, acc).Parsed? && Plain(Obj(acc))
    ensures Plain(ParseMembers(s, acc).v)
    decreases |s|, 2
  {
    var k := ParseKey(s);
    ParseValuePlain(k.rest);
    var p := ParseValue(k.rest);
    var n := ParseNext(p.rest, RBRACE);
    var next := Put(acc, k.s, p.v);
    PutKeepsKeys(acc, k.s, p.v);
    assert Plain(Obj(next));
    if n.More? { ParseMembersPlain(n.next, next); }
  }

  /** Whatever text is parsed, the value has no `undefined` in it, proper number
      literals and distinct keys. */
  lemma ParsePlain(s: Text)
    requires Parse(s).Parsed?
    ensures Plain(Parse(s).v)
  {
    ParseValuePlain(SkipBlank(s));
  }

  // ------------------------------------------------------------- the round trip

  lemma HexRoundTrip(u: Unit)
    ensures ((u / 16 / 16 / 16 * 16 + u / 16 / 16 % 16) * 16 + u / 16 % 16) * 16 + u % 16 == u
  {
  }

  lemma UnescapeUnit(u: Unit, rest: Text)
    requires |EscapeUnit(u)| > 1
    ensures Unescape(EscapeUnit(u)[1..] + rest) == Char(u, rest)
  {
    var e := EscapeUnit(u)[1..];
    var s := e + rest;
    assert s[|e|..] == rest;
    if |e| == 5 {
      HexRoundTrip(u);
      assert s[0] == 117 && s[1] == e[1] && s[2] == e[2] && s[3] == e[3] && s[4] == e[4];
    }
  }

  lemma ParseEscapedUnit(u: Unit, rest: Text)
    ensures ParseChars(EscapeUnit(u) + rest) == Prepend(u, ParseChars(rest))
  {
    var e := EscapeUnit(u);
    var s := e + rest;
    assert s[1..] == e[1..] + rest;
    if |e| == 1 {
      assert s[1..] == rest;
    } else {
      UnescapeUnit(u, rest);
    }
  }

  lemma ParseRawUnit(u: Unit, rest: Text)
    requires u >= 32 && u != QUOTE && u != BACKSLASH
    ensures ParseChars([u] + rest) == Prepend(u, ParseChars(rest))
  {
    assert ([u] + rest)[1..] == rest;
  }

  lemma {:induction false} ParseEscaped(s: Text, rest: Text)
    ensures ParseChars(Escape(s) + ([QUOTE] + rest)) == Chars(s, rest)
  {
    var tail := [QUOTE] + rest;
    if s == [] {
      assert Escape(s) + tail == tail;
      assert tail[1..] == rest;
    } else if |s| >= 2 && High(s[0]) && Low(s[1]) {
      ParseEscaped(s[2..], rest);
      ParseRawPair(s, Escape(s[2..]), tail);
      assert s == [s[0]] + ([s[1]] + s[2..]);
    } else {
      ParseEscaped(s[1..], rest);
      Associate(EscapeUnit(s[0]), Escape(s[1..]), tail);
      ParseEscapedUnit(s[0], Escape(s[1..]) + tail);
      assert s == [s[0]] + s[1..];
    }
  }

  lemma ParseRawPair(s: Text, more: Text, tail: Text)
    requires |s| >= 2 && High(s[0]) && Low(s[1])
    ensures ParseChars([s[0], s[1]] + more + tail) == Prepend(s[0], Prepend(s[1], ParseChars(more + tail)))
  {
    var t := more + tail;
    assert [s[0], s[1]] + more + tail == [s[0]] + ([s[1]] + t);
    ParseRawUnit(s[1], t);
    ParseRawUnit(s[0], [s[1]] + t);
  }

  lemma Associate(a: Text, b: Text, c: Text)
    ensures a + b + c == a + (b + c)
  {
  }

  /** What follows does not lengthen a number literal. */
  predicate Ends(rest: Text) { rest == [] || !IsNumberUnit(rest[0]) }

  lemma {:induction false} NumberRunEnds(tok: Text, rest: Text)
    requires forall i | 0 <= i < |tok| :: IsNumberUnit(tok[i])
    requires Ends(rest)
    ensures NumberRun(tok + rest) == |tok|
  {
    if tok == [] {
      assert tok + rest == rest;
    } else {
      NumberRunEnds(tok[1..], rest);
      assert (tok + rest)[1..] == tok[1..] + rest;
    }
  }

  lemma ParseNumberToken(tok: Text, rest: Text)
    requires IsNumber(tok) && Ends(rest)
    ensures ParseNumber(tok + rest) == Parsed(Num(tok), rest)
  {
    NumberUnits(tok);
    NumberRunEnds(tok, rest);
    var s := tok + rest;
    assert s[..|tok|] == tok && s[|tok|..] == rest;
  }

  lemma ParseAsNumber(s: Text)
    requires s != [] && (IsDigit(s[0]) || s[0] == MINUS)
    ensures ParseValue(s) == ParseNumber(s)
  {
    ParseAsScalar(s);
    ScalarAsNumber(s);
  }

  lemma ParseAsScalar(s: Text)
    requires s != [] && s[0] != LBRACE && s[0] != LBRACKET
    ensures ParseValue(s) == ParseScalar(s)
  {
  }

  lemma ScalarAsNumber(s: Text)
    requires s != [] && (IsDigit(s[0]) || s[0] == MINUS)
    ensures ParseScalar(s) == ParseNumber(s)
  {
  }

  lemma ParseWordFirst(word: Text, v: Value, rest: Text)
    requires word != []
    ensures ParseWord(word + rest, word, v) == Parsed(v, rest) && (word + rest)[0] == word[0]
  {
  }

  lemma ParseLiteral(v: Value, rest: Text)
    requires v.Null? || v.Bool?
    ensures ParseValue(Print(v) + rest) == Parsed(v, rest)
  {
    assert T("null")[0] == LOWER_N && T("true")[0] == LOWER_T && T("false")[0] == LOWER_F;
    ParseWordFirst(Print(v), v, rest);
  }

  lemma ParseString(t: Text, rest: Text)
    ensures ParseValue(Quote(t) + rest) == Parsed(Str(t), rest)
  {
    ParseQuoted(t, rest);
  }

  /** After an opening bracket comes either the closing one or the first item. */
  lemma ParseArrayStart(inner: Text)
    requires inner != [] && SkipBlank(inner) == inner
    ensures ParseValue([LBRACKET] + inner)
         == if inner[0] == RBRACKET then Parsed(Arr([]), inner[1..]) else ParseItems(inner, [])
  {
    assert ([LBRACKET] + inner)[1..] == inner;
  }

  lemma ParseObjectStart(inner: Text)
    requires inner != [] && SkipBlank(inner) == inner
    ensures ParseValue([LBRACE] + inner)
         == if inner[0] == RBRACE then Parsed(Obj([]), inner[1..]) else ParseMembers(inner, [])
  {
    assert ([LBRACE] + inner)[1..] == inner;
  }

  lemma ParseQuoted(key: Text, rest: Text)
    ensures var s := Quote(key) + rest; s[0] == QUOTE && ParseChars(s[1..]) == Chars(key, rest)
  {
    ParseEscaped(key, rest);
    AfterQuote(Escape(key), rest);
  }

  lemma AfterQuote(e: Text, rest: Text)
    ensures var s := [QUOTE] + e + [QUOTE] + rest; s[0] == QUOTE && s[1..] == e + ([QUOTE] + rest)
  {
  }

  lemma ParseQuotedKey(key: Text, value: Text)
    requires SkipBlank(value) == value
    ensures ParseKey(Quote(key) + ([COLON] + value)) == Chars(key, value)
  {
    ParseQuoted(key, [COLON] + value);
    assert ([COLON] + value)[1..] == value;
  }

  lemma NextCloses(close: Unit, rest: Text)
    requires close == RBRACE || close == RBRACKET
    ensures ParseNext([close] + rest, close) == Ended(rest)
  {
    assert ([close] + rest)[1..] == rest;
  }

  lemma NextContinues(close: Unit, next: Text)
    requires (close == RBRACE || close == RBRACKET) && SkipBlank(next) == next
    ensures ParseNext([COMMA] + next, close) == More(next)
  {
    assert ([COMMA] + next)[1..] == next;
  }

  /** A printed value starts with neither a blank nor a closing bracket. */
  lemma PrintStarts(v: Value)
    requires Plain(v)
    ensures Print(v) != []
    ensures var u := Print(v)[0];
            u != 32 && u != 9 && u != 10 && u != 13 && u != RBRACE && u != RBRACKET
  {
    assert T("null")[0] == 110 && T("true")[0] == 116 && T("false")[0] == 102;
    if v.Num? { NumberUnits(v.tok); }
  }

  lemma {:induction false} ParsePrinted(v: Value, rest: Text)
    requires Plain(v) && Ends(rest)
    ensures ParseValue(Print(v) + rest) == Parsed(v, rest)
    decreases v, 2
  {
    match v
    case Undef => assert false;
    case NonFinite(_) => assert false;
    case Null => ParseLiteral(v, rest);
    case Bool(_) => ParseLiteral(v, rest);
    case Num(tok) =>
      NumberUnits(tok);
      ParseNumberToken(tok, rest);
      ParseAsNumber(tok + rest);
    case Str(t) => ParseString(t, rest);
    case Arr(items) => ParsePrintedArray(items, rest);
    case Obj(fields) => ParsePrintedObject(fields, rest);
  }

  lemma {:induction false} ParsePrintedArray(items: seq<Value>, rest: Text)
    requires Plain(Arr(items))
    ensures ParseValue(Print(Arr(items)) + rest) == Parsed(Arr(items), rest)
    decreases items, 1
  {
    var inner := PrintItems(items) + ([RBRACKET] + rest);
    assert Print(Arr(items)) + rest == [LBRACKET] + inner;
    if items == [] {
      assert inner == [RBRACKET] + rest;
      assert inner[1..] == rest;
    } else {
      PrintItemsStart(items, [RBRACKET] + rest);
      ParsePrintedItems(items, [], rest);
      assert [] + items == items;
    }
    ParseArrayStart(inner);
  }

  lemma {:induction false} ParsePrintedObject(fields: seq<Field>, rest: Text)
    requires ObjectKeys(fields) && forall i | 0 <= i < |fields| :: Plain(fields[i].val)
    ensures ParseValue(Print(Obj(fields)) + rest) == Parsed(Obj(fields), rest)
    decreases fields, 1
  {
    var tail := [RBRACE] + rest;
    var inner := PrintMembers(fields, true) + tail;
    assert Print(Obj(fields)) + rest == [LBRACE] + inner by { AssociateBraces(PrintMembers(fields, true), rest); }
    if fields == [] {
      assert inner == tail && inner[1..] == rest;
    } else {
      CommaFirst(fields, tail);
      assert [] + fields == fields;
      ParsePrintedMembers(fields, [], rest);
    }
    ParseObjectStart(inner);
  }

  lemma AssociateBraces(m: Text, rest: Text)
    ensures [LBRACE] + m + [RBRACE] + rest == [LBRACE] + (m + ([RBRACE] + rest))
  {
  }

  lemma PrintItemsStart(vs: seq<Value>, tail: Text)
    requires vs != [] && Plain(vs[0])
    ensures var s := PrintItems(vs) + tail; s != [] && SkipBlank(s) == s && s[0] != RBRACKET
  {
    PrintStarts(vs[0]);
    assert PrintItems(vs)[0] == Print(vs[0])[0];
  }

  lemma {:induction false} ParsePrintedItems(vs: seq<Value>, acc: seq<Value>, rest: Text)
    requires vs != [] && forall i | 0 <= i < |vs| :: Plain(vs[i])
    ensures ParseItems(PrintItems(vs) + ([RBRACKET] + rest), acc) == Parsed(Arr(acc + vs), rest)
    decreases vs, 0
  {
    var tail := [RBRACKET] + rest;
    if |vs| == 1 {
      ParsePrinted(vs[0], tail);
      NextCloses(RBRACKET, rest);
      assert [vs[0]] == vs;
    } else {
      var more := PrintItems(vs[1..]) + tail;
      PrintItemsSplit(vs, tail);
      PrintItemsStart(vs[1..], tail);
      ParsePrinted(vs[0], [COMMA] + more);
      NextContinues(RBRACKET, more);
      ParsePrintedItems(vs[1..], acc + [vs[0]], rest);
      assert acc + [vs[0]] + vs[1..] == acc + vs;
    }
  }

  lemma PrintItemsSplit(vs: seq<Value>, tail: Text)
    requires |vs| > 1
    ensures PrintItems(vs) + tail == Print(vs[0]) + ([COMMA] + (PrintItems(vs[1..]) + tail))
  {
    Associate(Print(vs[0]) + [COMMA], PrintItems(vs[1..]), tail);
    Associate(Print(vs[0]), [COMMA], PrintItems(vs[1..]) + tail);
  }

  lemma {:induction false} ParsePrintedMembers(fs: seq<Field>, acc: seq<Field>, rest: Text)
    requires fs != [] && ObjectKeys(acc + fs) && forall i | 0 <= i < |fs| :: Plain(fs[i].val)
    ensures ParseMembers(PrintMembers(fs, true) + ([RBRACE] + rest), acc) == Parsed(Obj(acc + fs), rest)
    decreases fs, 0
  {
    var f, tail := fs[0], [RBRACE] + rest;
    var more := PrintMembers(fs[1..], false) + tail;
    AppendFirst(acc, fs);
    if |fs| == 1 {
      assert more == tail;
      ParsePrinted(f.val, more);
      ParseLastMember(fs, acc, rest);
    } else {
      CommaFirst(fs[1..], tail);
      ParsePrinted(f.val, more);
      ParseFirstMember(fs, acc, tail);
      ParsePrintedMembers(fs[1..], acc + [f], rest);
    }
  }

  lemma AppendFirst(acc: seq<Field>, fs: seq<Field>)
    requires fs != []
    ensures acc + [fs[0]] + fs[1..] == acc + fs
    ensures |fs| == 1 ==> acc + [fs[0]] == acc + fs
  {
    assert fs == [fs[0]] + fs[1..];
  }

  lemma ParseLastMember(fs: seq<Field>, acc: seq<Field>, rest: Text)
    requires |fs| == 1 && ObjectKeys(acc + fs) && Plain(fs[0].val)
    requires ParseValue(Print(fs[0].val) + ([RBRACE] + rest)) == Parsed(fs[0].val, [RBRACE] + rest)
    ensures ParseMembers(PrintMembers(fs, true) + ([RBRACE] + rest), acc) == Parsed(Obj(acc + [fs[0]]), rest)
  {
    var tail := [RBRACE] + rest;
    KeyOfFirst(fs, tail);
    assert PrintMembers(fs[1..], false) + tail == tail;
    PutNew(acc, fs);
    NextCloses(RBRACE, rest);
    MembersStep(PrintMembers(fs, true) + tail, acc, fs[0], tail);
  }

  lemma ParseFirstMember(fs: seq<Field>, acc: seq<Field>, tail: Text)
    requires |fs| > 1 && ObjectKeys(acc + fs) && Plain(fs[0].val) && Plain(fs[1].val)
    requires var more := PrintMembers(fs[1..], false) + tail;
             ParseValue(Print(fs[0].val) + more) == Parsed(fs[0].val, more)
    ensures ParseMembers(PrintMembers(fs, true) + tail, acc)
         == ParseMembers(PrintMembers(fs[1..], true) + tail, acc + [fs[0]])
  {
    KeyOfFirst(fs, tail);
    PutNew(acc, fs);
    CommaFirst(fs[1..], tail);
    NextContinues(RBRACE, PrintMembers(fs[1..], true) + tail);
    MembersStep(PrintMembers(fs, true) + tail, acc, fs[0], PrintMembers(fs[1..], false) + tail);
  }

  /** One step of reading members. */
  lemma MembersStep(s: Text, acc: seq<Field>, f: Field, more: Text)
    requires ParseKey(s) == Chars(f.key, Print(f.val) + more)
    requires ParseValue(Print(f.val) + more) == Parsed(f.val, more)
    requires Put(acc, f.key, f.val) == acc + [f]
    ensures match ParseNext(more, RBRACE)
            case Neither => true
            case Ended(after) => ParseMembers(s, acc) == Parsed(Obj(acc + [f]), after)
            case More(next) => ParseMembers(s, acc) == ParseMembers(next, acc + [f])
  {
  }

  lemma KeyOfFirst(fs: seq<Field>, tail: Text)
    requires fs != [] && Plain(fs[0].val)
    ensures ParseKey(PrintMembers(fs, true) + tail)
         == Chars(fs[0].key, Print(fs[0].val) + (PrintMembers(fs[1..], false) + tail))
  {
    var val := Print(fs[0].val) + (PrintMembers(fs[1..], false) + tail);
    PrintMembersSplit(fs, tail);
    PrintStarts(fs[0].val);
    assert val[0] == Print(fs[0].val)[0];
    ParseQuotedKey(fs[0].key, val);
  }

  lemma PrintMembersSplit(fs: seq<Field>, tail: Text)
    requires fs != [] && !fs[0].val.Undef?
    ensures PrintMembers(fs, true) + tail
         == Quote(fs[0].key) + ([COLON] + (Print(fs[0].val) + (PrintMembers(fs[1..], false) + tail)))
  {
    var k, v, m := Quote(fs[0].key), Print(fs[0].val), PrintMembers(fs[1..], false);
    AssociateMember(k, v, m, tail);
  }

  lemma AssociateMember(k: Text, v: Text, m: Text, tail: Text)
    ensures k + ([COLON] + (v + m)) + tail == k + ([COLON] + (v + (m + tail)))
  {
    Associate(k, [COLON] + (v + m), tail);
    Associate([COLON], v + m, tail);
    Associate(v, m, tail);
  }

  lemma CommaFirst(fs: seq<Field>, tail: Text)
    requires fs != [] && !fs[0].val.Undef?
    ensures PrintMembers(fs, false) + tail == [COMMA] + (PrintMembers(fs, true) + tail)
    ensures var s := PrintMembers(fs, true) + tail; s != [] && s[0] == QUOTE && SkipBlank(s) == s
  {
    Associate([COMMA], PrintMembers(fs, true), tail);
  }

  lemma PutNew(acc: seq<Field>, fs: seq<Field>)
    requires fs != [] && ObjectKeys(acc + fs)
    ensures Put(acc, fs[0].key, fs[0].val) == acc + [fs[0]]
  {
    var all := acc + fs;
    assert all[|acc|] == fs[0];
    assert forall i | 0 <= i < |acc| :: all[i] == acc[i];
    assert KeyPlace(acc, fs[0].key) == |acc|;
  }

  /** `JSON.parse(JSON.stringify(v))` is `v` with its undefined members dropped. */
  lemma ParsePrint(v: Value)
    requires WellFormed(v) && !v.Undef?
    ensures Parse(Print(v)) == Parsed(Normal(v), [])
  {
    NormalIsPlain(v);
    PrintNormal(v);
    ParsePrinted(Normal(v), []);
    assert Print(v) + [] == Print(v);
    PrintStarts(Normal(v));
  }

  /** Different plain values are printed differently. */
  lemma PrintInjective(v: Value, w: Value)
    requires Plain(v) && Plain(w)
    requires Print(v) == Print(w)
    ensures v == w
  {
    ParsePrinted(v, []);
    ParsePrinted(w, []);
    assert Print(v) + [] == Print(v) && Print(w) + [] == Print(w);
  }

  // ------------------------------------------------------------- printed lines

  lemma {:induction false} EscapeHasNoNewline(s: Text)
    ensures NEWLINE !in Escape(s)
  {
    if s != [] {
      if |s| >= 2 && High(s[0]) && Low(s[1]) {
        EscapeHasNoNewline(s[2..]);
      } else {
        EscapeHasNoNewline(s[1..]);
      }
    }
  }

  lemma {:induction false} PrintHasNoNewline(v: Value)
    requires Plain(v)
    ensures NEWLINE !in Print(v)
    decreases v, 1
  {
    match v
    case Num(tok) => NumberUnits(tok);
    case Str(s) => EscapeHasNoNewline(s);
    case Arr(items) => PrintItemsHaveNoNewline(items);
    case Obj(fields) => PrintMembersHaveNoNewline(fields, true);
    case Undef => assert false;
    case NonFinite(_) => assert false;
    case _ =>
  }

  lemma {:induction false} PrintItemsHaveNoNewline(vs: seq<Value>)
    requires Plain(Arr(vs))
    ensures NEWLINE !in PrintItems(vs)
    decreases vs, 0
  {
    if vs != [] {
      PrintHasNoNewline(vs[0]);
      PrintItemsHaveNoNewline(vs[1..]);
    }
  }

  lemma {:induction false} PrintMembersHaveNoNewline(fs: seq<Field>, first: bool)
    requires Plain(Obj(fs))
    ensures NEWLINE !in PrintMembers(fs, first)
    decreases fs, 0
  {
    if fs != [] {
      EscapeHasNoNewline(fs[0].key);
      PrintHasNoNewline(fs[0].val);
      PrintMembersHaveNoNewline(fs[1..], false);
    }
  }

  /** A printed object is one line of a log file. */
  lemma PrintedObjectIsLine(v: Value)
    requires WellFormed(v) && v.Obj?
    ensures IsLine(Print(v))
    ensures Print(v)[0] == LBRACE
  {
    NormalIsPlain(v);
    PrintNormal(v);
    PrintHasNoNewline(Normal(v));
  }

  // -------------------------------------------------------------- member access

  /** `o.key`: `undefined` when absent or when `o` is not an object. */
  function Get(v: Value, key: Text): Value {
    if v.Obj? then Lookup(v.fields, key) else Undef
  }

  function Lookup(fs: seq<Field>, key: Text): Value {
    if fs == [] then Undef
    else if fs[0].key == key then fs[0].val
    else Lookup(fs[1..], key)
  }

  lemma {:induction false} LookupAt(fs: seq<Field>, i: nat)
    requires i < |fs| && DistinctKeys(fs)
    ensures Lookup(fs, fs[i].key) == fs[i].val
  {
    if i > 0 {
      assert fs[1..][i - 1] == fs[i];
      LookupAt(fs[1..], i - 1);
    }
  }

  lemma {:induction false} LookupAbsent(fs: seq<Field>, key: Text)
    requires forall i | 0 <= i < |fs| :: fs[i].key != key
    ensures Lookup(fs, key) == Undef
  {
    if fs != [] {
      LookupAbsent(fs[1..], key);
    }
  }

  /** What a member is after a round trip through text: still absent, or its normal form. */
  function Kept(v: Value): Value { if v.Undef? then Undef else Normal(v) }

  lemma {:induction false} LookupNormal(fs: seq<Field>, key: Text)
    requires DistinctKeys(fs)
    ensures Lookup(NormalMembers(fs), key) == Kept(Lookup(fs, key))
  {
    if fs != [] {
      LookupNormal(fs[1..], key);
      if fs[0].key == key {
        LookupAbsent(fs[1..], key);
      }
    }
  }

  /** `===`: objects and arrays from different parses are never the same. */
  predicate StrictEquals(a: Value, b: Value) {
    a == b && !a.Arr? && !a.Obj? && a != NonFinite(T("NaN"))
  }
}
