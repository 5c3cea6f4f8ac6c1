/** The texts themselves, in the characters that are written and read: log lines, file names,
    stored backup codes, escapes and numbers. */
module Texts {
  import opened JsText
  import opened Decimal
  import opened Option
  import opened Json
  import opened LogEntry
  import opened LogDirectory
  import opened ChainScan
  import opened LogRuns
  import opened LoggedEntries
  import B = BackupCodes

  // -------------------------------------------------------------------- the log line

  function Concat(ts: seq<Text>): Text {
    if ts == [] then [] else ts[0] + Concat(ts[1..])
  }

  /** `,"name":value`, and nothing for `undefined`. */
  function Says(name: string, v: Value): Text {
    if v.Undef? then [] else T(",\"") + (T(name) + (T("\":") + Print(v)))
  }

  /** The part of a line that is hashed too. */
  function BodySays(f: Format): (ts: seq<Text>) {
    [Says("service", Str(f.service)), Says("user", Str(f.user)), Says("action", Str(f.action)),
     Says("result", Str(f.result)), Says("ip", Str(f.ip)), Says("device", f.device), Says("geo", f.geo),
     Says("metadata", f.metadata)]
  }

  function HashSays(hash: Text, previousHash: Text, n: int): (ts: seq<Text>) {
    [Says("hash", Str(hash)), Says("hashAlgorithm", Str(T("SHA-256"))),
     Says("previousHash", Str(previousHash)), Says("logSequenceNumber", Num(IntegerText(n)))]
  }

  /** A key of letters alone is written between quotes as it is. */
  lemma {:induction false} LettersAsTheyAre(s: Text)
    requires forall i | 0 <= i < |s| :: 65 <= s[i] <= 122 && s[i] != 92
    ensures Escape(s) == s
  {
    if s != [] {
      LettersAsTheyAre(s[1..]);
    }
  }

  /** What a member adds to the line after a comma. */
  function MemberText(f: Field): Text {
    if f.val.Undef? then [] else [COMMA] + (Quote(f.key) + ([COLON] + Print(f.val)))
  }

  lemma {:induction false} MembersAreTheirTexts(fs: seq<Field>, ts: seq<Text>)
    requires |ts| == |fs| && forall i | 0 <= i < |fs| :: ts[i] == MemberText(fs[i])
    ensures PrintMembers(fs, false) == Concat(ts)
  {
    if fs != [] {
      MembersAreTheirTexts(fs[1..], ts[1..]);
    }
  }

  predicate IsWord(name: string) { forall i | 0 <= i < |name| :: 'A' <= name[i] <= 'z' && name[i] != '\\' }

  lemma MemberSays(name: string, v: Value)
    requires IsWord(name)
    ensures MemberText(Field(T(name), v)) == Says(name, v)
  {
    LettersAsTheyAre(T(name));
    Punctuation();
    KeyBetween([COMMA, QUOTE], T(name), Print(v));
  }

  lemma Punctuation()
    ensures T(",\"") == [COMMA, QUOTE] && T("\":") == [QUOTE, COLON]
    ensures T("{\"") == [LBRACE, QUOTE] && T("}") == [RBRACE]
  {
  }

  lemma KeyBetween(open: Text, k: Text, p: Text)
    requires |open| == 2 && open[1] == QUOTE
    ensures open + (k + ([QUOTE, COLON] + p)) == [open[0]] + (([QUOTE] + k + [QUOTE]) + ([COLON] + p))
  {
  }

  lemma {:induction false} ConcatAppend(a: seq<Text>, b: seq<Text>)
    ensures Concat(a + b) == Concat(a) + Concat(b)
  {
    if a == [] {
      assert a + b == b;
    } else {
      ConcatAppend(a[1..], b);
      assert (a + b)[0] == a[0] && (a + b)[1..] == a[1..] + b;
      assert Concat(a + b) == a[0] + (Concat(a[1..]) + Concat(b));
    }
  }

  /** An object whose first member is there, with its further members' texts. */
  lemma ObjectSays(name: string, v: Value, fs: seq<Field>, ts: seq<Text>)
    requires IsWord(name) && !v.Undef?
    requires |ts| == |fs| && forall i | 0 <= i < |fs| :: ts[i] == MemberText(fs[i])
    ensures Print(Obj([Field(T(name), v)] + fs))
         == T("{\"") + (T(name) + (T("\":") + (Print(v) + (Concat(ts) + T("}")))))
  {
    LettersAsTheyAre(T(name));
    MembersAreTheirTexts(fs, ts);
    Punctuation();
    FirstSays(T(name), v, fs, Concat(ts));
  }

  lemma FirstSays(k: Text, v: Value, fs: seq<Field>, c: Text)
    requires !v.Undef? && Escape(k) == k && PrintMembers(fs, false) == c
    ensures Print(Obj([Field(k, v)] + fs))
         == [LBRACE, QUOTE] + (k + ([QUOTE, COLON] + (Print(v) + (c + [RBRACE]))))
  {
    FirstMember(k, v, fs);
    KeyBetween([LBRACE, QUOTE], k, Print(v) + (c + [RBRACE]));
    Regroup(Quote(k), Print(v), c);
  }

  lemma FirstMember(k: Text, v: Value, fs: seq<Field>)
    requires !v.Undef?
    ensures Print(Obj([Field(k, v)] + fs))
         == [LBRACE] + (Quote(k) + ([COLON] + (Print(v) + PrintMembers(fs, false)))) + [RBRACE]
  {
    var all := [Field(k, v)] + fs;
    assert all[1..] == fs && all[0] == Field(k, v);
  }

  lemma Regroup(k: Text, p: Text, c: Text)
    ensures [LBRACE] + (k + ([COLON] + (p + c))) + [RBRACE]
         == [LBRACE] + (k + ([COLON] + (p + (c + [RBRACE]))))
  {
  }

  lemma Words()
    ensures IsWord("timestamp") && IsWord("service") && IsWord("user") && IsWord("action") && IsWord("result")
    ensures IsWord("ip") && IsWord("device") && IsWord("geo") && IsWord("metadata")
    ensures IsWord("hash") && IsWord("hashAlgorithm") && IsWord("previousHash") && IsWord("logSequenceNumber")
  {
  }

  lemma BodySaysAll(f: Format)
    ensures BodySays(f)
         == [MemberText(Field(T("service"), Str(f.service))), MemberText(Field(T("user"), Str(f.user))),
             MemberText(Field(T("action"), Str(f.action))), MemberText(Field(T("result"), Str(f.result))),
             MemberText(Field(T("ip"), Str(f.ip))), MemberText(Field(T("device"), f.device)),
             MemberText(Field(T("geo"), f.geo)), MemberText(Field(T("metadata"), f.metadata))]
  {
    Words();
    MemberSays("service", Str(f.service));
    MemberSays("user", Str(f.user));
    MemberSays("action", Str(f.action));
    MemberSays("result", Str(f.result));
    MemberSays("ip", Str(f.ip));
    MemberSays("device", f.device);
    MemberSays("geo", f.geo);
    MemberSays("metadata", f.metadata);
  }

  lemma HashSaysAll(hash: Text, previousHash: Text, n: int)
    ensures HashSays(hash, previousHash, n)
         == [MemberText(Field(T("hash"), Str(hash))), MemberText(Field(T("hashAlgorithm"), Str(T("SHA-256")))),
             MemberText(Field(T("previousHash"), Str(previousHash))),
             MemberText(Field(T("logSequenceNumber"), Num(IntegerText(n))))]
  {
    Words();
    MemberSays("hash", Str(hash));
    MemberSays("hashAlgorithm", Str(T("SHA-256")));
    MemberSays("previousHash", Str(previousHash));
    MemberSays("logSequenceNumber", Num(IntegerText(n)));
  }

  lemma BodyTexts(f: Format, stamp: Text)
    ensures var ms := BodyMembers(BodyOf(f, stamp));
            && ms[0] == Field(T("timestamp"), Str(TimeOf(f, stamp)))
            && forall i | 1 <= i < 9 :: MemberText(ms[i]) == BodySays(f)[i - 1]
  {
    BodySaysAll(f);
    BodyFields(f, stamp);
    NineTexts(
      BodyMembers(BodyOf(f, stamp)), BodySays(f), Field(T("service"), Str(f.service)),
      Field(T("user"), Str(f.user)), Field(T("action"), Str(f.action)), Field(T("result"), Str(f.result)),
      Field(T("ip"), Str(f.ip)), Field(T("device"), f.device), Field(T("geo"), f.geo),
      Field(T("metadata"), f.metadata));
  }

  lemma NineTexts(ms: seq<Field>, ts: seq<Text>, a: Field, b: Field, c: Field, d: Field,
                  e: Field, f: Field, g: Field, h: Field)
    requires ms != [] && ms == [ms[0], a, b, c, d, e, f, g, h]
    requires ts == [MemberText(a), MemberText(b), MemberText(c), MemberText(d), MemberText(e), MemberText(f),
                    MemberText(g), MemberText(h)]
    ensures forall i | 1 <= i < |ms| :: MemberText(ms[i]) == ts[i - 1]
  {
  }

  lemma BodyFields(f: Format, stamp: Text)
    ensures BodyMembers(BodyOf(f, stamp))
         == [Field(T("timestamp"), Str(TimeOf(f, stamp))), Field(T("service"), Str(f.service)),
             Field(T("user"), Str(f.user)), Field(T("action"), Str(f.action)), Field(T("result"), Str(f.result)),
             Field(T("ip"), Str(f.ip)), Field(T("device"), f.device), Field(T("geo"), f.geo),
             Field(T("metadata"), f.metadata)]
  {
  }

  lemma HashTexts(e: Entry)
    ensures forall i | 0 <= i < 4 ::
              MemberText(EntryMembers(e)[9..][i]) == HashSays(e.hash, e.previousHash, e.seqNo)[i]
  {
    HashSaysAll(e.hash, e.previousHash, e.seqNo);
  }

  /** The text that is hashed, to the character. */
  lemma HashedTextIs(f: Format, stamp: Text, previousHash: Text)
    ensures Preimage(previousHash, BodyOf(f, stamp))
         == previousHash + (T("{\"") + (T("timestamp") + (T("\":") + (Print(Str(TimeOf(f, stamp)))
            + (Concat(BodySays(f)) + T("}"))))))
  {
    var ms := BodyMembers(BodyOf(f, stamp));
    BodyTexts(f, stamp);
    assert ms == [ms[0]] + ms[1..];
    ObjectSays("timestamp", Str(TimeOf(f, stamp)), ms[1..], BodySays(f));
  }

  lemma TwelveTexts(ms: seq<Field>, all: seq<Field>, a: seq<Text>, b: seq<Text>)
    requires |ms| == 9 && |all| == 13 && |a| == 8 && |b| == 4 && ms <= all
    requires forall i | 1 <= i < 9 :: MemberText(ms[i]) == a[i - 1]
    requires forall i | 0 <= i < 4 :: MemberText(all[9..][i]) == b[i]
    ensures all == [ms[0]] + all[1..]
    ensures forall i | 0 <= i < 12 :: (a + b)[i] == MemberText(all[1..][i])
  {
    forall i | 0 <= i < 12 ensures (a + b)[i] == MemberText(all[1..][i]) {
      if i < 8 { assert all[1..][i] == ms[i + 1]; } else { assert all[1..][i] == all[9..][i - 8]; }
    }
  }

  lemma LineTexts(f: Format, stamp: Text, hash: Text, previousHash: Text, n: int)
    ensures var all := EntryMembers(Entry(BodyOf(f, stamp), hash, previousHash, n));
            var ts := BodySays(f) + HashSays(hash, previousHash, n);
            && all == [Field(T("timestamp"), Str(TimeOf(f, stamp)))] + all[1..]
            && forall i | 0 <= i < 12 :: ts[i] == MemberText(all[1..][i])
  {
    var e := Entry(BodyOf(f, stamp), hash, previousHash, n);
    BodyTexts(f, stamp);
    HashTexts(e);
    TwelveTexts(BodyMembers(e.body), EntryMembers(e), BodySays(f), HashSays(hash, previousHash, n));
  }

  /** The line of the entry, to the character. */
  lemma LineIs(f: Format, stamp: Text, hash: Text, previousHash: Text, n: int)
    ensures LineOf(Entry(BodyOf(f, stamp), hash, previousHash, n))
         == T("{\"") + (T("timestamp") + (T("\":") + (Print(Str(TimeOf(f, stamp)))
            + (Concat(BodySays(f)) + Concat(HashSays(hash, previousHash, n)) + T("}")))))
  {
    var all := EntryMembers(Entry(BodyOf(f, stamp), hash, previousHash, n));
    var ts := BodySays(f) + HashSays(hash, previousHash, n);
    LineTexts(f, stamp, hash, previousHash, n);
    ObjectSays("timestamp", Str(TimeOf(f, stamp)), all[1..], ts);
    ConcatAppend(BodySays(f), HashSays(hash, previousHash, n));
  }

  // -------------------------------------------------------------------- files and lines

  /** The name of a day's file, digit by digit. */
  lemma FileNameIs(d: Day)
    requires d.Valid()
    ensures FileName(d)
         == T("banco-verde-")
            + [48 + d.year / 1000, 48 + d.year / 100 % 10, 48 + d.year / 10 % 10, 48 + d.year % 10, 45,
               48 + d.month / 10, 48 + d.month % 10, 45, 48 + d.dayOfMonth / 10, 48 + d.dayOfMonth % 10]
            + T(".jsonl")
  {
    PadTwo(d.month);
    PadTwo(d.dayOfMonth);
    PadFour(d.year);
  }

  lemma PadFour(n: nat)
    requires n < 10000
    ensures Pad(n, 4) == [48 + n / 1000, 48 + n / 100 % 10, 48 + n / 10 % 10, 48 + n % 10]
  {
    PadTwo(n / 10 / 10);
    assert Pad(n, 4) == Pad(n / 10, 3) + [48 + n % 10];
    assert Pad(n / 10, 3) == Pad(n / 10 / 10, 2) + [48 + n / 10 % 10];
  }

  lemma PadTwo(n: nat)
    ensures Pad(n, 2) == [48 + n / 10 % 10, 48 + n % 10]
  {
    assert Pad(n / 10, 1) == Pad(n / 10 / 10, 0) + [48 + n / 10 % 10];
  }

  /** The services read exactly the files whose names end in `.jsonl`. */
  lemma FilesRead(d: Disk, f: File)
    ensures f in LogFiles(d) <==> f in d && exists head :: f.name == head + T(".jsonl")
  {
    LogsInCounts(d, f);
    assert f in LogFiles(d) <==> f in multiset(LogFiles(d));
    assert f in d <==> f in multiset(d);
    if EndsWith(f.name, T(".jsonl")) {
      assert f.name == f.name[..|f.name| - 6] + T(".jsonl");
    }
  }

  // -------------------------------------------------------------------- backup codes

  /** What is stored for one code. */
  function CodeSays(c: B.BackupCode): Text {
    T("{\"") + (T("code") + (T("\":") + (Quote(c.code) + (Concat([
      Says("used", Bool(c.used)), Says("usedAt", if c.usedAt.Some? then Str(c.usedAt.value) else Undef)]) + T("}")))))
  }

  lemma CodeIs(c: B.BackupCode)
    ensures Print(B.Encode(c)) == CodeSays(c)
  {
    var at := if c.usedAt.Some? then Str(c.usedAt.value) else Undef;
    var fs := [Field(T("used"), Bool(c.used)), Field(T("usedAt"), at)];
    var ts := [Says("used", Bool(c.used)), Says("usedAt", at)];
    CodeWords();
    MemberSays("used", Bool(c.used));
    MemberSays("usedAt", at);
    ObjectSays("code", Str(c.code), fs, ts);
    assert B.Encode(c).fields == [Field(T("code"), Str(c.code))] + fs;
  }

  lemma CodeWords()
    ensures IsWord("code") && IsWord("used") && IsWord("usedAt")
  {
  }

  function CodesSay(codes: seq<B.BackupCode>): Text {
    if codes == [] then [] else CodeSays(codes[0]) + (if |codes| == 1 then [] else T(",") + CodesSay(codes[1..]))
  }

  lemma {:induction false} CodesAre(codes: seq<B.BackupCode>)
    ensures PrintItems(B.EncodeAll(codes)) == CodesSay(codes)
  {
    if codes != [] {
      CodeIs(codes[0]);
      CodesAre(codes[1..]);
      assert B.EncodeAll(codes)[1..] == B.EncodeAll(codes[1..]);
      assert T(",") == [COMMA];
    }
  }

  /** Stored codes, to the character: a list of the codes in their order, each with its use. */
  lemma StoredCodesAre(codes: seq<B.BackupCode>)
    ensures B.Stringify(codes) == T("[") + CodesSay(codes) + T("]")
  {
    CodesAre(codes);
    assert T("[") == [LBRACKET] && T("]") == [RBRACKET];
  }

  // -------------------------------------------------------------- escapes, words, numbers

  /** The two hexadecimal digits of a control character. */
  function LowHex(u: Unit): Text
    requires u < 32
  {
    var high, low := if u < 16 then 48 else 49, if u < 16 then u else u - 16;
    [high, if low < 10 then 48 + low else 87 + low]
  }

  /** How each unit outside a pair of surrogates is written (section 7 of RFC 8259 and the
      well-formed `JSON.stringify`). */
  lemma EscapesAre(u: Unit)
    ensures EscapeUnit(34) == T("\\\"") && EscapeUnit(92) == T("\\\\")
    ensures EscapeUnit(8) == T("\\b") && EscapeUnit(9) == T("\\t") && EscapeUnit(10) == T("\\n")
    ensures EscapeUnit(12) == T("\\f") && EscapeUnit(13) == T("\\r")
    ensures 32 <= u && u !in {34, 92} && !(0xD800 <= u < 0xE000) ==> EscapeUnit(u) == [u]
  {
    assert T("\\\"") == [92, 34] && T("\\\\") == [92, 92] && T("\\b") == [92, 98];
    assert T("\\t") == [92, 116] && T("\\n") == [92, 110] && T("\\f") == [92, 102] && T("\\r") == [92, 114];
  }

  lemma NumericEscapesAre(u: Unit)
    ensures u < 32 && u !in {8, 9, 10, 12, 13} ==> EscapeUnit(u) == [92, 117, 48, 48] + LowHex(u)
    ensures 0xD800 <= u < 0xE000 ==>
              |EscapeUnit(u)| == 6 && EscapeUnit(u)[..2] == [92, 117] && HexNumber(EscapeUnit(u)[2..]) == u
  {
    if 0xD800 <= u < 0xE000 { FourHex(u); }
  }

  /** The number that lower-case hexadecimal digits denote. */
  function HexNumber(s: Text): int {
    if s == [] then 0
    else HexNumber(s[..|s| - 1]) * 16 + (s[|s| - 1] as int - if s[|s| - 1] < 97 then 48 else 87)
  }

  lemma FourHex(u: Unit)
    ensures HexNumber(UnicodeEscape(u)[2..]) == u
  {
    var s := UnicodeEscape(u)[2..];
    assert s[..3][..2][..1][..0] == [];
    assert HexNumber(s[..3][..2][..1]) == u / 16 / 16 / 16;
    assert HexNumber(s[..3][..2]) == u / 16 / 16;
    assert HexNumber(s[..3]) == u / 16;
  }

  /** What is written for the values that are not text, and where nothing is said. */
  lemma WordsAre(b: bool)
    ensures Print(Null) == Print(Undef) == Print(NonFinite(T("NaN"))) == T("null")
    ensures Print(Bool(b)) == if b then T("true") else T("false")
    ensures Print(Arr([])) == T("[]") && Print(Obj([])) == T("{}")
  {
    assert T("[]") == [91, 93] && T("{}") == [123, 125];
  }

  /** Decimal digits: the last is the remainder by ten, the ones before are the quotient. */
  lemma DigitsAre(n: nat, d: nat)
    requires d < 10
    ensures IntegerText(d) == [48 + d] && (n > 0 ==> IntegerText(10 * n + d) == IntegerText(n) + [48 + d])
    ensures IntegerText(-1 - n) == T("-") + IntegerText(n + 1)
  {
    if n > 0 { DigitsSplit(n, d, 10 * n + d); }
  }

  lemma DigitsSplit(n: nat, d: nat, m: nat)
    requires n > 0 && d < 10 && m == 10 * n + d
    ensures Digits(m) == Digits(n) + [48 + d]
  {
    assert m / 10 == n && m % 10 == d;
  }

  /** What `previousHash + text` puts in front when the member is no string. */
  lemma SpokenAre(n: int, fs: seq<Field>)
    ensures Spoken(Undef) == T("undefined") && Spoken(Null) == T("null")
    ensures Spoken(Num(IntegerText(n))) == IntegerText(n)
    ensures Spoken(Bool(true)) == T("true") && Spoken(Bool(false)) == T("false") && Spoken(Str(T("x"))) == T("x")
    ensures Spoken(Obj(fs)) == T("[object Object]")
  {
  }

  // ------------------------------------------------------------------------- reading

  lemma {:induction false} RunOfDigits(ds: Text, rest: Text)
    requires AllDigits(ds) && (rest == [] || !IsDigit(rest[0]))
    ensures DigitRun(ds + rest) == |ds| && DropDigits(ds + rest) == rest
  {
    if ds == [] {
      assert ds + rest == rest;
    } else {
      RunOfDigits(ds[1..], rest);
      assert (ds + rest)[1..] == ds[1..] + rest;
    }
  }

  /** Digits alone are a number unless a zero leads others. */
  lemma WholeNumbers(ds: Text)
    requires ds != [] && AllDigits(ds)
    ensures IsNumber(ds) <==> ds[0] != 48 || |ds| == 1
  {
    RunOfDigits(ds, []);
    assert ds + [] == ds;
    if ds[0] == 48 && |ds| > 1 { assert IsDigit(ds[1..][0]); }
  }

  /** What follows the whole part decides. */
  lemma AfterWhole(ds: Text, rest: Text)
    requires ds != [] && AllDigits(ds) && IsNumber(ds) && (rest == [] || !IsDigit(rest[0]))
    ensures IsNumber(ds + rest) <==> IsFraction(rest)
  {
    WholeNumbers(ds);
    RunOfDigits(ds, rest);
    if ds[0] == 48 { assert (ds + rest)[1..] == rest; }
  }

  /** A point, and an exponent's mark with or without a sign, need digits after them. */
  lemma PartsOfNumbers(ds: Text, es: Text, mark: Unit, sign: Unit)
    requires ds != [] && AllDigits(ds) && IsNumber(ds) && AllDigits(es)
    requires mark in {101, 69} && sign in {43, 45}
    ensures IsNumber(ds + ([46] + es)) <==> es != []
    ensures IsNumber(ds + ([mark] + es)) <==> es != []
    ensures IsNumber(ds + ([mark, sign] + es)) <==> es != []
  {
    AfterWhole(ds, [46] + es);
    AfterWhole(ds, [mark] + es);
    AfterWhole(ds, [mark, sign] + es);
    PointIs(es);
    MarkIs(es, mark, sign);
  }

  lemma PointIs(es: Text)
    requires AllDigits(es)
    ensures IsFraction([46] + es) <==> es != []
  {
    RunOfDigits(es, []);
    assert es + [] == es && ([46] + es)[1..] == es;
  }

  lemma MarkIs(es: Text, mark: Unit, sign: Unit)
    requires AllDigits(es) && mark in {101, 69} && sign in {43, 45}
    ensures IsFraction([mark] + es) <==> es != []
    ensures IsFraction([mark, sign] + es) <==> es != []
  {
    assert ([mark] + es)[1..] == es && ([mark, sign] + es)[2..] == es;
    if es != [] { assert ([mark] + es)[1] == es[0]; }
  }

  /** One minus may come first, and no plus. */
  lemma SignsOfNumbers(s: Text)
    ensures IsNumber([45] + s) <==> s != [] && s[0] != 45 && IsNumber(s)
    ensures !IsNumber([43] + s) && !IsNumber([46] + s)
  {
    assert ([45] + s)[1..] == s && ([43] + s)[0] == 43 && ([46] + s)[0] == 46;
  }

  /** After a backslash: the short escapes, and nothing for another letter. */
  lemma UnescapesAre(rest: Text)
    ensures Unescape([34] + rest) == Char(34, rest) && Unescape([92] + rest) == Char(92, rest)
    ensures Unescape([47] + rest) == Char(47, rest) && Unescape([98] + rest) == Char(8, rest)
    ensures Unescape([116] + rest) == Char(9, rest) && Unescape([110] + rest) == Char(10, rest)
    ensures Unescape([102] + rest) == Char(12, rest) && Unescape([114] + rest) == Char(13, rest)
    ensures Unescape([97] + rest) == BadChar
  {
  }

  /** Hexadecimal digits of either case, four of them. */
  lemma HexReads(rest: Text)
    ensures Unescape([117, 48, 48, 101, 57] + rest) == Char(0xE9, rest)
    ensures Unescape([117, 48, 48, 69, 57] + rest) == Char(0xE9, rest)
    ensures Unescape([117, 48, 48, 103, 48] + rest) == BadChar
  {
    HexAt(48, 48, 101, 57, rest);
    HexAt(48, 48, 69, 57, rest);
    assert ([117, 48, 48, 103, 48] + rest)[3] == 103;
  }

  lemma HexAt(a: Unit, b: Unit, c: Unit, d: Unit, rest: Text)
    requires IsHex(a) && IsHex(b) && IsHex(c) && IsHex(d)
    ensures Unescape([117, a, b, c, d] + rest)
         == Char(((HexValue(a) * 16 + HexValue(b)) * 16 + HexValue(c)) * 16 + HexValue(d), rest)
  {
    assert ([117, a, b, c, d] + rest)[5..] == rest;
  }

  /** One digit, with space around it or something else after it. */
  lemma OneDigit(d: Unit)
    requires 48 <= d <= 57
    ensures ParseValue([d, 32]) == Parsed(Num([d]), [32]) && ParseValue([d, 32, d]) == Parsed(Num([d]), [32, d])
    ensures Parse([32, d, 32]) == Parsed(Num([d]), []) && Parse([d, 32, d]) == Fail
  {
    DigitFirst(d, [32]);
    DigitFirst(d, [32, d]);
    assert [d, 32] == [d] + [32] && [d, 32, d] == [d] + [32, d] && [32, d, 32][1..] == [d, 32];
    assert [32][1..] == [] && [32, d][1..] == [d];
    assert SkipBlank([32]) == [] && SkipBlank([32, d]) == [d];
    assert SkipBlank([d, 32]) == [d, 32] && SkipBlank([d, 32, d]) == [d, 32, d];
    assert SkipBlank([32, d, 32]) == SkipBlank([32, d, 32][1..]) == [d, 32];
  }

  lemma DigitFirst(d: Unit, rest: Text)
    requires 48 <= d <= 57 && (rest == [] || !IsNumberUnit(rest[0]))
    ensures ParseValue([d] + rest) == Parsed(Num([d]), rest)
  {
    var s := [d] + rest;
    assert s[1..] == rest && NumberRun(s) == 1;
    assert s[..1] == [d] && [d][1..] == [] && DropDigits([d]) == [];
  }

  /** No string may hold a raw line end or lack its closing quote. */
  lemma OpenStringFails(rest: Text)
    ensures ParseChars([10] + rest) == ParseChars([]) == BadChars
  {
    assert ([10] + rest)[0] == 10;
  }

  /** Of members with the same key the last counts. */
  lemma LastCounts(key: Text, a: Value, b: Value)
    ensures Put(Put([], key, a), key, b) == [Field(key, b)]
  {
  }

  /** Keys that are array indices come first and ascend as numbers; others stay as added. */
  lemma KeysAreOrdered(m: nat, n: nat, a: Text, b: Text, x: Value, y: Value)
    requires m < n < 100 && a != b && (a == [] || !IsDigit(a[0])) && (b == [] || !IsDigit(b[0]))
    ensures Put([Field(a, x)], b, y) == [Field(a, x), Field(b, y)]
    ensures Put([Field(a, x)], Digits(n), y) == [Field(Digits(n), y), Field(a, x)]
    ensures Put([Field(Digits(n), x)], Digits(m), y) == [Field(Digits(m), y), Field(Digits(n), x)]
  {
    IndexIsDigits(a);
    IndexIsDigits(b);
    IndexOf(m, Digits(m));
    IndexOf(n, Digits(n));
    OneBefore(a, b, x, y);
    OneBefore(a, Digits(n), x, y);
    OneBefore(Digits(n), Digits(m), x, y);
  }

  lemma IndexOf(n: nat, key: Text)
    requires key == Digits(n) && n < 100
    ensures IsIndex(key) && IntegerOf(key) == Some(n)
  {
    DigitsIsNumber(n);
  }

  lemma OneBefore(a: Text, b: Text, x: Value, y: Value)
    requires a != b
    ensures Put([Field(a, x)], b, y)
         == if KeyFirst(b, a) then [Field(b, y), Field(a, x)] else [Field(a, x), Field(b, y)]
  {
    assert [Field(a, x)][1..] == [];
    assert KeyIndex([Field(a, x)], b) == 1;
    assert KeyPlace([Field(a, x)], b) == if KeyFirst(b, a) then 0 else 1;
  }

  /** `===` on values that were read: lists and objects are never equal, nor is NaN. */
  lemma NeverTheSame(v: Value, s: Text, t: Text)
    ensures v.Obj? || v.Arr? || v == NonFinite(T("NaN")) ==> !StrictEquals(v, v)
    ensures StrictEquals(Str(s), Str(t)) <==> s == t
    ensures StrictEquals(Null, Null) && !StrictEquals(Null, Undef) && StrictEquals(Undef, Undef)
  {
  }

  /** The lines of a file: blank lines and the space around the whole do not count; the space
      within does. */
  lemma LinesAre(a: Unit, b: Unit)
    requires !IsSpace(a) && !IsSpace(b)
    ensures Lines([10, 32, a, 10, 10, 32, b, 10, 32]) == [[a], [32, b]]
  {
    var t: Text := [a, 10, 10, 32, b];
    TrimAround([10, 32], t, [10, 32]);
    assert [10, 32, a, 10, 10, 32, b, 10, 32] == [10, 32] + t + [10, 32];
    SplitOne([32, b]);
    SplitCons([], [32, b]);
    SplitCons([a], [10, 32, b]);
    assert t == [a] + [NEWLINE] + [10, 32, b] && [10, 32, b] == [] + [NEWLINE] + [32, b];
    assert Split(t) == [[a], [], [32, b]];
    SkipsEmpty([a], [32, b]);
  }

  lemma SkipsEmpty(x: Text, y: Text)
    requires x != [] && y != []
    ensures NonEmpty([x, [], y]) == [x, y]
  {
    assert [x, [], y][1..] == [[], y] && [[], y][1..] == [y] && [y][1..] == [];
    assert NonEmpty([y]) == [y] && NonEmpty([[], y]) == [y];
  }

  /** Trimming takes the space at both ends and nothing else. */
  lemma {:induction false} TrimAround(l: Text, t: Text, r: Text)
    requires forall i | 0 <= i < |l| :: IsSpace(l[i])
    requires forall i | 0 <= i < |r| :: IsSpace(r[i])
    requires t != [] && !IsSpace(t[0]) && !IsSpace(t[|t| - 1])
    ensures Trim(l + t + r) == t
    decreases |l| + |r|
  {
    var s := l + t + r;
    if l != [] {
      TrimAround(l[1..], t, r);
      assert s[0] == l[0] && s[1..] == l[1..] + t + r;
    } else if r != [] {
      var n := |r| - 1;
      TrimAround(l, t, r[..n]);
      assert s == t + r && s[0] == t[0] && s[|s| - 1] == r[n];
      assert s[..|s| - 1] == t + r[..n] && l + t + r[..n] == t + r[..n];
      assert (t + r[..n])[0] == t[0];
    } else {
      assert s == t;
    }
  }

  lemma BlankHasNoLines()
    ensures Lines([32, 10]) == []
  {
    assert [32, 10][1..] == [10] && [10][1..] == [];
    assert TrimLeft([32, 10]) == [] && Trim([32, 10]) == [];
    assert Split([]) == [[]];
    assert NonEmpty([[]]) == [] + NonEmpty([[]][1..]);
  }
}
