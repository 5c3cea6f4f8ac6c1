/** Strings as JavaScript has them (sequences of UTF-16 code units), with the
    operations of `String.prototype` and `Array.prototype` the services use. */
module JsText {

  type Unit = n: int | 0 <= n < 0x10000
  type Text = seq<Unit>

  const NEWLINE: Unit := 10

  /** The text of an ASCII literal. */
  function T(s: string): (t: Text)
    ensures |t| == |s|
  {
    seq(|s|, i requires 0 <= i < |s| => (s[i] as int) % 0x10000)
  }

  /** White space and line terminators, as `trim` removes them. */
  predicate IsSpace(u: Unit) {
    9 <= u <= 13 || u == 32 || u == 160 || u == 5760 || 8192 <= u <= 8202
    || u == 8232 || u == 8233 || u == 8239 || u == 8287 || u == 12288 || u == 65279
  }

  function TrimLeft(s: Text): Text {
    if s == [] || !IsSpace(s[0]) then s else TrimLeft(s[1..])
  }

  function TrimRight(s: Text): Text {
    if s == [] || !IsSpace(s[|s| - 1]) then s else TrimRight(s[..|s| - 1])
  }

  function Trim(s: Text): Text { TrimRight(TrimLeft(s)) }

  /** `s.split('\n')`: never empty, since an empty text splits into one empty piece. */
  function Split(s: Text): (r: seq<Text>)
    ensures |r| >= 1
  {
    if s == [] then [[]]
    else
      var r := Split(s[1..]);
      if s[0] == NEWLINE then [[]] + r else [[s[0]] + r[0]] + r[1..]
  }

  function NonEmpty(ls: seq<Text>): (r: seq<Text>)
    ensures [] !in r
  {
    if ls == [] then []
    else (if ls[0] == [] then [] else [ls[0]]) + NonEmpty(ls[1..])
  }

  /** `content.trim().split('\n').filter((l) => l.length > 0)`. */
  function Lines(content: Text): (r: seq<Text>)
    ensures [] !in r
  {
    NonEmpty(Split(Trim(content)))
  }

  /** What a file holds after each of the lines was written followed by a newline. */
  function Terminated(ls: seq<Text>): Text {
    if ls == [] then [] else ls[0] + [NEWLINE] + Terminated(ls[1..])
  }

  /** A line that survives `trim` and `split`: no newline, no space at either end. */
  predicate IsLine(l: Text) {
    l != [] && NEWLINE !in l && !IsSpace(l[0]) && !IsSpace(l[|l| - 1])
  }

  lemma {:induction false} TerminatedAppend(ls: seq<Text>, l: Text)
    ensures Terminated(ls + [l]) == Terminated(ls) + l + [NEWLINE]
  {
    if ls == [] {
      assert ls + [l] == [l];
    } else {
      TerminatedAppend(ls[1..], l);
      assert (ls + [l])[1..] == ls[1..] + [l];
    }
  }

  lemma {:induction false} SplitOne(l: Text)
    requires NEWLINE !in l
    ensures Split(l) == [l]
  {
    if l != [] {
      SplitOne(l[1..]);
      assert [l[0]] + l[1..] == l;
    }
  }

  lemma {:induction false} SplitCons(l: Text, rest: Text)
    requires NEWLINE !in l
    ensures Split(l + [NEWLINE] + rest) == [l] + Split(rest)
  {
    var s := l + [NEWLINE] + rest;
    if l == [] {
      assert s[1..] == rest;
    } else {
      SplitCons(l[1..], rest);
      assert s[1..] == l[1..] + [NEWLINE] + rest;
      assert [l[0]] + l[1..] == l;
    }
  }

  /** The text between the first unit of the first line and the last unit of the last. */
  function Joined(ls: seq<Text>): Text
    requires ls != []
  {
    if |ls| == 1 then ls[0] else ls[0] + [NEWLINE] + Joined(ls[1..])
  }

  lemma {:induction false} JoinedIsTrimmed(ls: seq<Text>)
    requires ls != [] && forall l | l in ls :: IsLine(l)
    ensures Terminated(ls) == Joined(ls) + [NEWLINE]
    ensures Joined(ls) != [] && !IsSpace(Joined(ls)[0]) && !IsSpace(Joined(ls)[|Joined(ls)| - 1])
    ensures Split(Joined(ls)) == ls
  {
    assert IsLine(ls[0]);
    if |ls| == 1 {
      assert Terminated(ls[1..]) == [];
      SplitOne(ls[0]);
    } else {
      JoinedIsTrimmed(ls[1..]);
      SplitCons(ls[0], Joined(ls[1..]));
      assert [ls[0]] + ls[1..] == ls;
      assert Terminated(ls) == Joined(ls) + [NEWLINE];
    }
  }

  lemma {:induction false} NonEmptyKeeps(ls: seq<Text>)
    requires [] !in ls
    ensures NonEmpty(ls) == ls
  {
    if ls != [] {
      NonEmptyKeeps(ls[1..]);
      assert [ls[0]] + ls[1..] == ls;
    }
  }

  /** Reading back what was written line by line gives exactly the lines. */
  lemma LinesOfTerminated(ls: seq<Text>)
    requires forall l | l in ls :: IsLine(l)
    ensures Lines(Terminated(ls)) == ls
  {
    if ls == [] {
      assert Split([]) == [[]];
      assert NonEmpty([[]]) == [] + NonEmpty([[]][1..]);
    } else {
      JoinedIsTrimmed(ls);
      var s := Joined(ls);
      assert Terminated(ls)[0] == s[0];
      assert TrimLeft(Terminated(ls)) == Terminated(ls);
      assert (s + [NEWLINE])[..|s|] == s;
      assert TrimRight(s + [NEWLINE]) == TrimRight(s) == s;
      NonEmptyKeeps(ls);
    }
  }

  /** `s.endsWith(suffix)`. */
  predicate EndsWith(s: Text, suffix: Text) {
    |s| >= |suffix| && s[|s| - |suffix|..] == suffix
  }

  /** The order of `Array.prototype.sort` on strings: by UTF-16 code units. */
  predicate Before(a: Text, b: Text) {
    b != [] && (a == [] || a[0] < b[0] || (a[0] == b[0] && Before(a[1..], b[1..])))
  }

  lemma {:induction false} BeforeTotal(a: Text, b: Text)
    ensures a == b || Before(a, b) || Before(b, a)
    ensures !(Before(a, b) && Before(b, a))
  {
    if a != [] && b != [] {
      BeforeTotal(a[1..], b[1..]);
      if a[0] == b[0] && a[1..] == b[1..] {
        assert a == [a[0]] + a[1..] == b;
      }
    }
  }

  lemma {:induction false} BeforeTransitive(a: Text, b: Text, c: Text)
    requires Before(a, b) && Before(b, c)
    ensures Before(a, c)
  {
    if a != [] && a[0] == b[0] == c[0] {
      BeforeTransitive(a[1..], b[1..], c[1..]);
    }
  }

  /** Texts that agree on equally long heads are ordered by what follows. */
  lemma {:induction false} BeforeAppend(a: Text, b: Text, x: Text, y: Text)
    requires |a| == |b|
    ensures Before(a + x, b + y) <==> Before(a, b) || (a == b && Before(x, y))
  {
    if a == [] {
      assert a + x == x && b + y == y;
    } else {
      BeforeAppend(a[1..], b[1..], x, y);
      assert (a + x)[1..] == a[1..] + x && (b + y)[1..] == b[1..] + y;
      assert a == b <==> a[0] == b[0] && a[1..] == b[1..] by {
        assert a == [a[0]] + a[1..] && b == [b[0]] + b[1..];
      }
    }
  }
}
