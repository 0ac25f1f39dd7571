/** JavaScript string operations, on ASCII for what depends on character classes. */
module Strings {
  predicate IsSpace(c: char) {
    c == ' ' || c == '\t' || c == '\n' || c == '\r' || c == '\U{000B}' || c == '\U{000C}'
  }

  function LowerChar(c: char): (r: char)
    ensures !('A' <= r <= 'Z')
    ensures IsSpace(r) <==> IsSpace(c)
  {
    if 'A' <= c <= 'Z' then (c as int + 32) as char else c
  }

  /** Each capital becomes its own small letter, the one as far from `a` as it is from `A`; nothing else changes. */
  lemma LowerCharIs(c: char)
    ensures 'A' <= c <= 'Z' ==> 'a' <= LowerChar(c) <= 'z' && LowerChar(c) - 'a' == c - 'A'
    ensures !('A' <= c <= 'Z') ==> LowerChar(c) == c
  {
  }

  function ToLowerCase(s: string): (r: string)
    ensures |r| == |s| && forall i :: 0 <= i < |s| ==> r[i] == LowerChar(s[i])
  {
    seq(|s|, i requires 0 <= i < |s| => LowerChar(s[i]))
  }

  function TrimStart(s: string): string {
    if s != [] && IsSpace(s[0]) then TrimStart(s[1..]) else s
  }

  function TrimEnd(s: string): string {
    if s != [] && IsSpace(s[|s| - 1]) then TrimEnd(s[..|s| - 1]) else s
  }

  function Trim(s: string): string {
    TrimEnd(TrimStart(s))
  }

  /** No white space at either end. */
  predicate IsTrimmed(s: string) {
    s == [] || (!IsSpace(s[0]) && !IsSpace(s[|s| - 1]))
  }

  lemma {:induction false} TrimStartShape(s: string)
    ensures TrimStart(s) == [] || !IsSpace(TrimStart(s)[0])
    ensures s == [] || !IsSpace(s[0]) ==> TrimStart(s) == s
  {
    if s != [] && IsSpace(s[0]) {
      TrimStartShape(s[1..]);
    }
  }

  lemma {:induction false} TrimEndShape(s: string)
    ensures TrimEnd(s) <= s
    ensures TrimEnd(s) == [] || !IsSpace(TrimEnd(s)[|TrimEnd(s)| - 1])
    ensures s == [] || !IsSpace(s[|s| - 1]) ==> TrimEnd(s) == s
  {
    if s != [] && IsSpace(s[|s| - 1]) {
      TrimEndShape(s[..|s| - 1]);
    }
  }

  lemma TrimShape(s: string)
    ensures IsTrimmed(Trim(s))
    ensures IsTrimmed(s) ==> Trim(s) == s
  {
    TrimStartShape(s);
    TrimEndShape(TrimStart(s));
  }

  predicate IsBlank(s: string) {
    forall i :: 0 <= i < |s| ==> IsSpace(s[i])
  }

  /** Trimming takes off the blanks at both ends and nothing else. */
  lemma TrimIs(s: string) returns (before: string, behind: string)
    ensures s == before + Trim(s) + behind && IsBlank(before) && IsBlank(behind) && IsTrimmed(Trim(s))
  {
    TrimShape(s);
    before := TrimStartIs(s);
    behind := TrimEndIs(TrimStart(s));
  }

  lemma {:induction false} TrimStartIs(s: string) returns (before: string)
    ensures s == before + TrimStart(s) && IsBlank(before)
  {
    if s != [] && IsSpace(s[0]) {
      var rest := TrimStartIs(s[1..]);
      before := [s[0]] + rest;
    } else {
      before := [];
    }
  }

  lemma {:induction false} TrimEndIs(s: string) returns (behind: string)
    ensures s == TrimEnd(s) + behind && IsBlank(behind)
  {
    if s != [] && IsSpace(s[|s| - 1]) {
      var rest := TrimEndIs(s[..|s| - 1]);
      behind := rest + [s[|s| - 1]];
    } else {
      behind := [];
    }
  }

  /** Lower-cased and trimmed text is left alone by lower-casing and trimming. */
  predicate IsNormal(s: string) {
    IsTrimmed(s) && forall i :: 0 <= i < |s| ==> LowerChar(s[i]) == s[i]
  }

  function Normalise(s: string): string {
    ToLowerCase(Trim(s))
  }

  lemma NormaliseShape(s: string)
    ensures IsNormal(Normalise(s))
    ensures IsNormal(s) <==> Normalise(s) == s
  {
    TrimShape(s);
    assert forall c :: LowerChar(LowerChar(c)) == LowerChar(c);
    if IsNormal(s) {
      assert ToLowerCase(s) == s;
    }
  }

  lemma NormalConcat(a: string, c: char, b: string)
    requires IsNormal(a) && IsNormal(b) && a != [] && b != [] && LowerChar(c) == c
    ensures IsNormal(a + [c] + b)
  {
  }

  function LastIndexOf(s: string, c: char): (i: int)
    ensures -1 <= i < |s|
    ensures i >= 0 ==> s[i] == c
    ensures forall j :: i < j < |s| ==> s[j] != c
  {
    if s == [] then -1
    else if s[|s| - 1] == c then |s| - 1
    else LastIndexOf(s[..|s| - 1], c)
  }

  /** `s.split(c)`: never empty. */
  function Split(s: string, c: char): (parts: seq<string>)
    ensures parts != []
    ensures forall p :: p in parts ==> c !in p
  {
    if s == [] then [[]]
    else if s[0] == c then [[]] + Split(s[1..], c)
    else
      var rest := Split(s[1..], c);
      [[s[0]] + rest[0]] + rest[1..]
  }

  function Join(parts: seq<string>, c: char): string {
    if parts == [] then []
    else if |parts| == 1 then parts[0]
    else parts[0] + [c] + Join(parts[1..], c)
  }

  lemma {:induction false} JoinOfSplit(s: string, c: char)
    ensures Join(Split(s, c), c) == s
  {
    if s != [] {
      JoinOfSplit(s[1..], c);
      var rest := Split(s[1..], c);
      if s[0] == c {
        assert ([[]] + rest)[1..] == rest;
      } else {
        assert ([[s[0]] + rest[0]] + rest[1..])[1..] == rest[1..];
      }
    }
  }

  lemma {:induction false} SplitOfPiece(p: string, c: char)
    requires c !in p
    ensures Split(p, c) == [p]
  {
    if p != [] {
      assert p[0] in p && forall x :: x in p[1..] ==> x in p;
      SplitOfPiece(p[1..], c);
      assert [p[0]] + p[1..] == p;
    }
  }

  /** Splitting text cut at one separator splits the two sides. */
  lemma {:induction false} SplitOfConcat(a: string, b: string, c: char)
    ensures Split(a + [c] + b, c) == Split(a, c) + Split(b, c)
  {
    hide Split;
    var s := a + [c] + b;
    SplitStep(s, c);
    if a == [] {
      SplitOfPiece(a, c);
      assert s[1..] == b && s[0] == c;
    } else {
      SplitOfConcat(a[1..], b, c);
      assert s[1..] == a[1..] + [c] + b && s[0] == a[0];
      SplitStep(a, c);
      var rest, tail := Split(a[1..], c), Split(b, c);
      assert (rest + tail)[0] == rest[0] && (rest + tail)[1..] == rest[1..] + tail;
    }
  }

  lemma SplitStep(s: string, c: char)
    requires s != []
    ensures var rest := Split(s[1..], c);
            Split(s, c) == if s[0] == c then [[]] + rest else [[s[0]] + rest[0]] + rest[1..]
  {
  }

  /** A character of `s` is the separator or belongs to a piece. */
  lemma {:induction false} CharsOfSplit(s: string, c: char, x: char)
    requires x in s && x != c
    ensures exists p :: p in Split(s, c) && x in p
  {
    var rest := Split(s[1..], c);
    if s[0] == c {
      CharsOfSplit(s[1..], c, x);
      var p :| p in rest && x in p;
      assert p in Split(s, c);
    } else if s[0] == x {
      assert x in Split(s, c)[0];
    } else {
      CharsOfSplit(s[1..], c, x);
      var p :| p in rest && x in p;
      if p == rest[0] {
        assert x in Split(s, c)[0];
      } else {
        assert p in rest[1..];
        assert p in Split(s, c);
      }
    }
  }

  /** Pieces without the separator are what their text splits into. */
  lemma {:induction false} SplitOfJoin(parts: seq<string>, c: char)
    requires parts != [] && forall p :: p in parts ==> c !in p
    ensures Split(Join(parts, c), c) == parts
  {
    hide Split;
    assert parts[0] in parts;
    SplitOfPiece(parts[0], c);
    if |parts| > 1 {
      assert forall p :: p in parts[1..] ==> p in parts;
      SplitOfJoin(parts[1..], c);
      SplitOfConcat(parts[0], Join(parts[1..], c), c);
    }
  }

  /** A character of joined text is the separator or belongs to a piece. */
  lemma {:induction false} CharsOfJoin(parts: seq<string>, c: char, x: char)
    requires x in Join(parts, c)
    ensures x == c || exists i :: 0 <= i < |parts| && x in parts[i]
  {
    if |parts| > 1 && x != c && x !in parts[0] {
      CharsOfJoin(parts[1..], c, x);
      var i :| 0 <= i < |parts| - 1 && x in parts[1..][i];
      assert x in parts[i + 1];
    }
  }

  lemma {:induction false} JoinHas(parts: seq<string>, c: char, i: nat, x: char)
    requires i < |parts| && x in parts[i]
    ensures x in Join(parts, c)
  {
    if i > 0 {
      JoinHas(parts[1..], c, i - 1, x);
    }
  }
}
