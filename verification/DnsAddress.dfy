/** What is accepted as an IPv6 address (backend/src/dns/dns-validation.ts:67-91), and what an address is. */
module DnsAddress {
  import opened Decimals
  import opened Strings
  import opened DnsText

  // ---------- The code ----------

  predicate IsHex(c: char) {
    IsDigit(c) || 'a' <= c <= 'f' || 'A' <= c <= 'F'
  }

  predicate IsHexGroup(g: string) {
    1 <= |g| <= 4 && forall c :: c in g ==> IsHex(c)
  }

  /** The first place a pair of colons stands, or -1. */
  function FindDouble(s: string): (i: int)
    ensures -1 <= i < |s| - 1 || i == -1
    ensures i >= 0 ==> s[i] == ':' && s[i + 1] == ':'
    ensures forall j :: 0 <= j < |s| - 1 && (i == -1 || j < i) ==> !(s[j] == ':' && s[j + 1] == ':')
  {
    if |s| < 2 then -1
    else if s[0] == ':' && s[1] == ':' then 0
    else
      var i := FindDouble(s[1..]);
      assert forall j :: 1 <= j < |s| - 1 ==> s[1..][j - 1] == s[j] && s[1..][j] == s[j + 1];
      if i == -1 then -1 else i + 1
  }

  /** `s.split('::')`. */
  function SplitDouble(s: string): (pieces: seq<string>)
    ensures pieces != []
    decreases |s|
  {
    var i := FindDouble(s);
    if i == -1 then [s] else [s[..i]] + SplitDouble(s[i + 2..])
  }

  function Groups(s: string): seq<string> {
    if s == "" then [] else Split(s, ':')
  }

  /** Hexadecimal groups, the last of them an IPv4 address if `quad`. */
  predicate AreGroups(gs: seq<string>, quad: bool) {
    (quad ==> gs != [])
    && forall i :: 0 <= i < |gs| ==> if quad && i == |gs| - 1 then IsValidIPv4(gs[i]) else IsHexGroup(gs[i])
  }

  /** An embedded IPv4 address occupies two groups. */
  function Weight(gs: seq<string>, quad: bool): nat {
    |gs| + if quad then 1 else 0
  }

  predicate IsValidIPv6(value: string) {
    value != "" && (forall c :: c in value ==> IsHex(c) || c == ':' || c == '.')
    && var pieces := SplitDouble(value);
       |pieces| <= 2
       && var groups := Groups(pieces[0]) + if |pieces| == 2 then Groups(pieces[1]) else [];
          AreGroups(groups, '.' in value)
          && if |pieces| == 2 then Weight(groups, '.' in value) < 8 else Weight(groups, '.' in value) == 8
  }

  // ---------- Addresses (section 2.2 of RFC 4291) ----------

  function Text(gs: seq<string>): string {
    Join(gs, ':')
  }

  predicate IsFullText(value: string, gs: seq<string>, quad: bool) {
    AreGroups(gs, quad) && |gs| == (if quad then 7 else 8) && value == Text(gs)
  }

  predicate IsShortText(value: string, head: seq<string>, tail: seq<string>, quad: bool) {
    AreGroups(head, false) && AreGroups(tail, quad) && |head| + |tail| <= (if quad then 6 else 7)
    && value == Text(head) + "::" + Text(tail)
  }

  /** Eight groups, or fewer with one pair of colons for the rest; an IPv4 address may stand for the last two. */
  ghost predicate IsAddress(value: string) {
    (exists gs, quad :: IsFullText(value, gs, quad))
        || (exists head, tail, quad :: IsShortText(value, head, tail, quad))
  }

  /** An IPv4 address before the pair of colons instead of at the end. */
  predicate IsMisplacedText(value: string, head: seq<string>) {
    AreGroups(head, true) && |head| <= 6 && value == Text(head) + "::"
  }

  // ---------- Sixteen bits ----------

  function HexDigit(n: nat): char
    requires n < 16
  {
    if n < 10 then ('0' as int + n) as char else ('a' as int + n - 10) as char
  }

  function HexText(n: nat): (s: string)
    ensures s != []
  {
    if n < 16 then [HexDigit(n)] else HexText(n / 16) + [HexDigit(n % 16)]
  }

  function HexValue(c: char): nat {
    if '0' <= c <= '9' then (c - '0') as nat
    else if 'a' <= c <= 'f' then (c - 'a') as nat + 10
    else if 'A' <= c <= 'F' then (c - 'A') as nat + 10
    else 16
  }

  function HexNumber(s: string): nat {
    if s == [] then 0 else 16 * HexNumber(s[..|s| - 1]) + HexValue(s[|s| - 1])
  }

  lemma HexDigitIs(n: nat, c: char)
    requires n < 16
    ensures IsHex(HexDigit(n)) && HexValue(HexDigit(n)) == n
    ensures IsHex(c) <==> HexValue(c) < 16
  {
  }

  lemma {:induction false} HexReadsBack(n: nat)
    ensures HexNumber(HexText(n)) == n && forall c :: c in HexText(n) ==> IsHex(c)
  {
    hide HexValue, IsHex, HexDigit;
    HexDigitIs(n % 16, '0');
    if n >= 16 {
      HexReadsBack(n / 16);
      assert HexText(n) == HexText(n / 16) + [HexDigit(n % 16)];
      assert HexText(n)[..|HexText(n)| - 1] == HexText(n / 16);
    } else {
      assert HexText(n) == [HexDigit(n)] && [HexDigit(n)][..0] == [];
    }
  }

  lemma HexIsShort(n: nat)
    requires n < 65536
    ensures |HexText(n)| <= 4
  {
    hide HexDigit;
    if n >= 16 {
      assert |HexText(n)| == |HexText(n / 16)| + 1;
      if n / 16 >= 16 {
        assert |HexText(n / 16)| == |HexText(n / 16 / 16)| + 1;
        if n / 16 / 16 >= 16 {
          assert |HexText(n / 16 / 16)| == |HexText(n / 16 / 16 / 16)| + 1;
        }
      }
    }
  }

  lemma {:induction false} HexNumberIsSmall(s: string)
    requires forall c :: c in s ==> IsHex(c)
    ensures |s| <= 1 ==> HexNumber(s) < 16
    ensures |s| <= 2 ==> HexNumber(s) < 256
    ensures |s| <= 3 ==> HexNumber(s) < 4096
    ensures |s| <= 4 ==> HexNumber(s) < 65536
  {
    hide HexValue, IsHex;
    if s != [] {
      assert s[|s| - 1] in s;
      HexDigitIs(0, s[|s| - 1]);
      HexNumberIsSmall(s[..|s| - 1]);
    }
  }

  /** A group is sixteen bits: every number of sixteen bits is one, read back as itself, every group is one of those,
      in capitals or not; and nothing longer, leading zeros or not, is a group. */
  lemma GroupIsSixteenBits(n: nat, g: string)
    ensures n < 65536 ==> IsHexGroup(HexText(n)) && HexNumber(HexText(n)) == n
    ensures IsHexGroup(g) ==> HexNumber(g) < 65536 && |g| <= 4
    ensures IsHexGroup(g) <==> IsHexGroup(ToLowerCase(g))
  {
    hide HexText, HexNumber, HexValue, IsHex;
    HexReadsBack(n);
    if n < 65536 {
      HexIsShort(n);
    }
    if IsHexGroup(g) {
      HexNumberIsSmall(g);
    }
    CaseOfHex(g);
  }

  lemma CaseOfHex(g: string)
    ensures (forall c :: c in g ==> IsHex(c)) <==> forall c :: c in ToLowerCase(g) ==> IsHex(c)
  {
    var small := ToLowerCase(g);
    assert forall c :: IsHex(c) <==> IsHex(LowerChar(c));
    assert (forall c :: c in g ==> IsHex(c)) <==> forall i :: 0 <= i < |g| ==> IsHex(g[i]);
    assert (forall c :: c in small ==> IsHex(c)) <==> forall i :: 0 <= i < |small| ==> IsHex(small[i]);
  }

  // ---------- Pairs of colons ----------

  lemma {:induction false} JoinDouble(s: string)
    ensures var pieces := SplitDouble(s);
            |pieces| == 1 ==> pieces[0] == s
    ensures var pieces := SplitDouble(s);
            |pieces| == 2 ==> s == pieces[0] + "::" + pieces[1]
  {
    var i := FindDouble(s);
    if i >= 0 {
      JoinDouble(s[i + 2..]);
      assert s == s[..i] + "::" + s[i + 2..];
    }
  }

  predicate HasDouble(s: string) {
    exists j :: 0 <= j < |s| - 1 && s[j] == ':' && s[j + 1] == ':'
  }

  lemma SplitOfNoDouble(s: string)
    requires !HasDouble(s)
    ensures SplitDouble(s) == [s]
  {
  }

  lemma FirstDouble(s: string, n: nat)
    requires n < |s| - 1 && s[n] == ':' && s[n + 1] == ':'
    requires forall j :: 0 <= j < n ==> !(s[j] == ':' && s[j + 1] == ':')
    ensures SplitDouble(s) == [s[..n]] + SplitDouble(s[n + 2..])
  {
    hide FindDouble;
    var i := FindDouble(s);
    assert i == n;
  }

  lemma SplitOfOneDouble(a: string, b: string)
    requires !HasDouble(a) && !HasDouble(b) && (a == "" || a[|a| - 1] != ':')
    ensures SplitDouble(a + "::" + b) == [a, b]
  {
    hide SplitDouble;
    var colons := "::";
    var s := a + colons + b;
    forall j | 0 <= j < |a|
      ensures !(s[j] == ':' && s[j + 1] == ':')
    {
      assert s[j] == a[j];
      if j < |a| - 1 {
        assert s[j + 1] == a[j + 1];
      }
    }
    FirstDouble(s, |a|);
    assert s[..|a|] == a && s[|a| + 2..] == b;
    SplitOfNoDouble(b);
  }

  // ---------- Groups ----------

  lemma GroupChars(g: string)
    requires IsHexGroup(g) || IsValidIPv4(g)
    ensures g != "" && (forall c :: c in g ==> IsHex(c) || c == '.') && ('.' in g <==> !IsHexGroup(g))
    ensures IsDigit(g[|g| - 1]) || IsHexGroup(g)
  {
    if !IsHexGroup(g) {
      QuadChars(g);
    }
  }

  lemma QuadChars(g: string)
    requires IsValidIPv4(g)
    ensures '.' in g && (forall c :: c in g ==> IsDigit(c) || c == '.') && IsDigit(g[|g| - 1])
  {
    hide Split;
    var parts := Split(g, '.');
    JoinOfSplit(g, '.');
    forall c | c in g && c != '.'
      ensures IsDigit(c)
    {
      CharsOfSplit(g, '.', c);
      var p :| p in parts && c in p;
      assert IsOctet(p);
    }
    LastOfFour(parts);
  }

  lemma LastOfFour(parts: seq<string>)
    requires |parts| == 4 && forall p :: p in parts ==> IsOctet(p)
    ensures var s := Join(parts, '.');
            '.' in s && IsDigit(s[|s| - 1])
  {
    var p := parts[3];
    assert p in parts && p[|p| - 1] in p;
    var before := Join(parts[..3], '.');
    assert Join(parts[2..], '.') == parts[2] + "." + p by { assert parts[2..][1..] == [p]; }
    assert parts[1..][1..] == parts[2..];
    assert Join(parts[1..], '.') == parts[1] + "." + Join(parts[2..], '.');
    assert Join(parts, '.') == parts[0] + "." + Join(parts[1..], '.');
  }

  /** The text of groups: no pair of colons, none at the ends, and it splits into the groups again. */
  lemma {:induction false} TextOfGroups(gs: seq<string>, quad: bool)
    requires AreGroups(gs, quad)
    ensures !HasDouble(Text(gs)) && Groups(Text(gs)) == gs
    ensures gs != [] ==> Text(gs) != "" && Text(gs)[0] != ':' && Text(gs)[|Text(gs)| - 1] != ':'
    ensures (forall c :: c in Text(gs) ==> IsHex(c) || c == ':' || c == '.') && ('.' in Text(gs) <==> quad)
    ensures quad ==> IsDigit(Text(gs)[|Text(gs)| - 1])
  {
    hide IsHexGroup, IsValidIPv4, Split;
    if gs != [] {
      forall i | 0 <= i < |gs|
        ensures gs[i] != "" && ':' !in gs[i]
      {
        GroupChars(gs[i]);
      }
      SplitOfJoin(gs, ':');
      GroupChars(gs[0]);
      if |gs| > 1 {
        assert AreGroups(gs[1..], quad) by {
          assert forall i :: 0 <= i < |gs| - 1 ==> gs[1..][i] == gs[i + 1];
        }
        TextOfGroups(gs[1..], quad);
        FrontIsHex(gs, quad);
        DoubleOfJoin(gs[0], Text(gs[1..]));
      } else {
        OneGroup(gs, quad);
      }
    }
  }

  lemma FrontIsHex(gs: seq<string>, quad: bool)
    requires AreGroups(gs, quad) && |gs| > 1
    ensures IsHexGroup(gs[0])
  {
    hide IsHexGroup, IsValidIPv4;
  }

  lemma OneGroup(gs: seq<string>, quad: bool)
    requires AreGroups(gs, quad) && |gs| == 1
    ensures '.' in gs[0] <==> quad
    ensures quad ==> IsDigit(gs[0][|gs[0]| - 1])
  {
    GroupChars(gs[0]);
    if quad {
      QuadChars(gs[0]);
    }
  }

  lemma DoubleOfJoin(a: string, b: string)
    requires ':' !in a && a != "" && b != "" && b[0] != ':' && !HasDouble(b)
    ensures !HasDouble(a + [':'] + b)
  {
    var s := a + [':'] + b;
    forall j | 0 <= j < |s| - 1
      ensures !(s[j] == ':' && s[j + 1] == ':')
    {
      if j < |a| {
        assert s[j] == a[j] && a[j] in a;
      } else if j > |a| {
        assert s[j] == b[j - |a| - 1] && s[j + 1] == b[j - |a|];
      }
    }
  }

  // ---------- What is accepted ----------

  lemma AcceptedHasGroups(value: string)
    requires IsValidIPv6(value)
    ensures IsAddress(value) || exists head :: IsMisplacedText(value, head)
  {
    hide AreGroups, SplitDouble, IsHex, Split;
    var pieces, quad := SplitDouble(value), '.' in value;
    JoinDouble(value);
    GroupsJoin(pieces[0]);
    NothingIsText();
    if |pieces| == 1 {
      assert Groups(pieces[0]) + [] == Groups(pieces[0]);
      assert IsFullText(value, Groups(pieces[0]), quad);
    } else {
      var head, tail := Groups(pieces[0]), Groups(pieces[1]);
      GroupsJoin(pieces[1]);
      GroupsInTwo(head, tail, quad);
      if tail == [] && quad {
        assert head + tail == head && value == Text(head) + "::";
        assert IsMisplacedText(value, head);
      } else {
        assert IsShortText(value, head, tail, quad);
      }
    }
  }

  lemma GroupsJoin(s: string)
    ensures Text(Groups(s)) == s
  {
    if s != "" {
      JoinOfSplit(s, ':');
    }
  }

  lemma GroupsInTwo(head: seq<string>, tail: seq<string>, quad: bool)
    requires AreGroups(head + tail, quad)
    ensures if tail == [] then AreGroups(head, quad) else AreGroups(head, false) && AreGroups(tail, quad)
  {
    hide IsHexGroup, IsValidIPv4;
    var gs := head + tail;
    assert forall i :: 0 <= i < |head| ==> gs[i] == head[i];
    assert forall i :: 0 <= i < |tail| ==> gs[|head| + i] == tail[i];
    if tail == [] {
      assert gs == head;
    }
  }

  lemma GroupsTogether(head: seq<string>, tail: seq<string>, quad: bool)
    requires if tail == [] then AreGroups(head, quad) else AreGroups(head, false) && AreGroups(tail, quad)
    ensures AreGroups(head + tail, quad)
  {
    hide IsHexGroup, IsValidIPv4;
    if tail == [] {
      assert head + tail == head;
    }
  }

  lemma FullIsAccepted(value: string, gs: seq<string>, quad: bool)
    requires IsFullText(value, gs, quad)
    ensures IsValidIPv6(value)
  {
    hide AreGroups, SplitDouble, IsHex, Text, HasDouble, Groups;
    TextOfGroups(gs, quad);
    SplitOfNoDouble(value);
    assert gs + [] == gs;
  }

  lemma ShortIsAccepted(value: string, head: seq<string>, tail: seq<string>, headQuad: bool, tailQuad: bool)
    requires AreGroups(head, headQuad) && AreGroups(tail, tailQuad) && (headQuad ==> tail == [])
    requires Weight(head, headQuad) + Weight(tail, tailQuad) < 8 && value == Text(head) + "::" + Text(tail)
    ensures IsValidIPv6(value)
  {
    hide AreGroups, SplitDouble, IsHex, Text, HasDouble, Groups;
    TextOfGroups(head, headQuad);
    TextOfGroups(tail, tailQuad);
    NothingIsText();
    SplitOfOneDouble(Text(head), Text(tail));
    NoQuadOfNothing(tail, tailQuad);
    GroupsTogether(head, tail, headQuad || tailQuad);
  }

  lemma NothingIsText()
    ensures Text([]) == "" && AreGroups([], false)
  {
  }

  lemma NoQuadOfNothing(gs: seq<string>, quad: bool)
    requires AreGroups(gs, quad)
    ensures gs == [] ==> !quad
  {
    hide IsHexGroup, IsValidIPv4;
  }

  /** Every IPv6 address is accepted, in every spelling. Beyond those only texts with an IPv4 address before a
      final pair of colons are. */
  lemma IPv6Iff(value: string)
    ensures IsValidIPv6(value) <==> IsAddress(value) || exists head :: IsMisplacedText(value, head)
  {
    hide IsValidIPv6, Text, AreGroups;
    if IsValidIPv6(value) {
      AcceptedHasGroups(value);
    } else if gs, quad :| IsFullText(value, gs, quad) {
      FullIsAccepted(value, gs, quad);
    } else if head, tail, quad :| IsShortText(value, head, tail, quad) {
      ShortIsAccepted(value, head, tail, false, quad);
    } else if head :| IsMisplacedText(value, head) {
      NothingIsText();
      assert Text(head) + "::" + Text([]) == value;
      ShortIsAccepted(value, head, [], true, false);
    }
  }

  /** Which of the texts accepted are no addresses: exactly those with a dot that end in a pair of colons. */
  lemma AcceptedIsAddressIff(value: string)
    requires IsValidIPv6(value)
    ensures IsAddress(value) <==> !('.' in value && |value| >= 2 && value[|value| - 2..] == "::")
  {
    hide IsValidIPv6, Text, AreGroups, IsHex;
    if gs, quad :| IsFullText(value, gs, quad) {
      TextOfGroups(gs, quad);
    } else if head, tail, quad :| IsShortText(value, head, tail, quad) {
      TextOfGroups(head, false);
      TextOfGroups(tail, quad);
      assert quad ==> value[|value| - 1] == Text(tail)[|Text(tail)| - 1];
    } else {
      IPv6Iff(value);
      var head :| IsMisplacedText(value, head);
      TextOfGroups(head, true);
    }
  }

  /** There are such: `1.2.3.4::`, whatever the bytes. */
  lemma MisplacedIsAccepted(quad: string)
    requires IsValidIPv4(quad)
    ensures IsValidIPv6(quad + "::") && !IsAddress(quad + "::")
  {
    hide IsValidIPv6, IsValidIPv4, IsHexGroup;
    var value := quad + "::";
    assert Text([quad]) == quad;
    assert IsMisplacedText(value, [quad]);
    IPv6Iff(value);
    QuadChars(quad);
    assert value[|value| - 2..] == "::" && value[0] == quad[0];
    assert '.' in value;
    AcceptedIsAddressIff(value);
  }
}
