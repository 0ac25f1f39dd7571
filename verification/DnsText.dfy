/**
 How the names and values of DNS records are spelt (backend/src/dns/dns-validation.ts:39-140), and what the texts
 accepted as addresses are.
 */
module DnsText {
  import opened Decimals
  import opened Options
  import MailAddress
  import opened Strings

  // ---------- Names ----------

  predicate IsAlphanumeric(c: char) {
    'a' <= c <= 'z' || 'A' <= c <= 'Z' || IsDigit(c)
  }

  predicate IsLabel(s: string) {
    1 <= |s| <= 63 && s[0] != '-' && s[|s| - 1] != '-' && forall c :: c in s ==> IsAlphanumeric(c) || c == '-'
  }

  /** A label that may begin with an underscore, as SRV, DMARC and DKIM names do. */
  predicate IsNameLabel(s: string) {
    s != [] && IsLabel(if s[0] == '_' then s[1..] else s)
  }

  /** Labels do not depend on capitals. */
  lemma LabelsIgnoreCase(s: string)
    ensures IsLabel(s) <==> IsLabel(ToLowerCase(s))
  {
    var small := ToLowerCase(s);
    forall i | 0 <= i < |s|
      ensures IsAlphanumeric(s[i]) || s[i] == '-' <==> IsAlphanumeric(small[i]) || small[i] == '-'
      ensures s[i] == '-' <==> small[i] == '-'
    {
    }
    assert (forall c :: c in s ==> IsAlphanumeric(c) || c == '-')
           <==> forall i :: 0 <= i < |s| ==> IsAlphanumeric(s[i]) || s[i] == '-';
    assert (forall c :: c in small ==> IsAlphanumeric(c) || c == '-')
           <==> forall i :: 0 <= i < |small| ==> IsAlphanumeric(small[i]) || small[i] == '-';
  }

  const MAX_NAME := 253

  function WithoutRoot(value: string): string {
    if value != [] && value[|value| - 1] == '.' then value[..|value| - 1] else value
  }

  predicate IsValidHostname(value: string) {
    1 <= |value| <= MAX_NAME && WithoutRoot(value) != []
    && forall part :: part in Split(WithoutRoot(value), '.') ==> part == "*" || IsLabel(part)
  }

  predicate IsValidRecordName(name: string) {
    name == "@" || name == "*"
    || var body := if "*." <= name then name[2..] else name;
       1 <= |body| <= MAX_NAME && forall part :: part in Split(body, '.') ==> IsNameLabel(part)
  }

  predicate IsServiceName(name: string) {
    var labels := Split(name, '.');
    |labels| >= 2 && |labels[0]| >= 2 && labels[0][0] == '_'
    && (forall c :: c in labels[0][1..] ==> IsAlphanumeric(c) || c == '-')
    && ToLowerCase(labels[1]) in {"_tcp", "_udp", "_tls"}
  }

  /** A service name is an underscore and a service, a dot, an underscore and one of three protocols, and then nothing
      or a dot and the rest. */
  lemma ServiceNameIff(name: string)
    ensures IsServiceName(name)
            <==> exists service, protocol, rest ::
                   IsServiceText(name, service, protocol, rest)
  {
    hide Split, ToLowerCase;
    var labels := Split(name, '.');
    JoinOfSplit(name, '.');
    if IsServiceName(name) {
      ServiceParts(name, labels);
    }
    if service, protocol, rest :| IsServiceText(name, service, protocol, rest) {
      ServiceSplits(name, service, protocol, rest);
    }
  }

  predicate IsServiceText(name: string, service: string, protocol: string, rest: string) {
    name == ("_" + service) + ['.'] + (protocol + rest)
    && service != "" && (forall c :: c in service ==> IsAlphanumeric(c) || c == '-')
    && ToLowerCase(protocol) in {"_tcp", "_udp", "_tls"} && '.' !in protocol
    && (rest == "" || rest[0] == '.')
  }

  lemma ServiceParts(name: string, labels: seq<string>)
    requires name == Join(labels, '.') && |labels| >= 2 && (forall l :: l in labels ==> '.' !in l)
    requires |labels[0]| >= 2 && labels[0][0] == '_' && ToLowerCase(labels[1]) in {"_tcp", "_udp", "_tls"}
    requires forall c :: c in labels[0][1..] ==> IsAlphanumeric(c) || c == '-'
    ensures exists service, protocol, rest :: IsServiceText(name, service, protocol, rest)
  {
    hide ToLowerCase;
    var service, protocol := labels[0][1..], labels[1];
    assert labels[1] in labels && labels[0] == "_" + service;
    var rest := if |labels| == 2 then "" else ['.'] + Join(labels[2..], '.');
    assert labels[1..][1..] == labels[2..] && labels[1..][0] == protocol;
    assert Join(labels[1..], '.') == protocol + rest;
    assert IsServiceText(name, service, protocol, rest);
  }

  lemma ServiceSplits(name: string, service: string, protocol: string, rest: string)
    requires IsServiceText(name, service, protocol, rest)
    ensures IsServiceName(name)
  {
    hide Split, ToLowerCase;
    var first := "_" + service;
    forall c | c in first
      ensures c != '.'
    {
      assert c == '_' || c in service;
    }
    assert first[1..] == service;
    SplitOfConcat(first, protocol + rest, '.');
    SplitOfPiece(first, '.');
    if rest == "" {
      assert protocol + rest == protocol;
      SplitOfPiece(protocol, '.');
    } else {
      assert protocol + rest == protocol + ['.'] + rest[1..];
      SplitOfConcat(protocol, rest[1..], '.');
      SplitOfPiece(protocol, '.');
    }
    assert Split(name, '.')[0] == first && Split(name, '.')[1] == protocol;
  }

  lemma LastPiece(s: string, c: char)
    requires s != []
    ensures s[|s| - 1] == c ==> Split(s, c)[|Split(s, c)| - 1] == "" && |Split(s, c)| >= 2
  {
    hide Split;
    if s[|s| - 1] == c {
      assert s == s[..|s| - 1] + [c] + "";
      SplitOfConcat(s[..|s| - 1], "", c);
      SplitOfPiece("", c);
    }
  }

  /** Domains for mail are the host names of two labels and more, without wildcards and without a dot at the end. */
  lemma MailDomainIff(domain: string)
    requires IsNormal(domain)
    ensures MailAddress.IsValidDomain(domain)
            <==> 1 <= |domain| <= 255 && |Split(domain, '.')| >= 2 && forall p :: p in Split(domain, '.') ==> IsLabel(p)
    ensures |domain| <= 253 ==>
              (MailAddress.IsValidDomain(domain)
               <==> IsValidHostname(domain) && |Split(domain, '.')| >= 2 && "*" !in Split(domain, '.')
                    && domain[|domain| - 1] != '.')
  {
    hide Split, Normalise, IsLabel;
    NormaliseShape(domain);
    var parts := Split(domain, '.');
    if domain != [] {
      LastPiece(domain, '.');
      FirstPiece(domain);
      LettersAreSmall(domain);
      forall p | p in parts
        ensures IsLabel(p) <==> MailAddress.IsDomainLabel(p)
        ensures IsLabel(p) ==> p != "" && p != "*"
      {
        LabelsAgree(p);
      }
      hide MailAddress.IsDomainLabel;
      assert parts[0] in parts && parts[|parts| - 1] in parts;
      if domain[|domain| - 1] != '.' {
        assert WithoutRoot(domain) == domain;
      }
    }
  }

  lemma LabelsAgree(p: string)
    requires forall c :: c in p ==> !('A' <= c <= 'Z')
    ensures IsLabel(p) <==> MailAddress.IsDomainLabel(p)
    ensures IsLabel(p) ==> p != "" && p != "*"
  {
    assert '*' in "*";
  }

  lemma FirstPiece(s: string)
    ensures s != [] && s[0] == '.' ==> Split(s, '.')[0] == ""
  {
  }

  /** The pieces of text in small letters have no capitals. */
  lemma LettersAreSmall(s: string)
    requires IsNormal(s)
    ensures forall p, c :: p in Split(s, '.') && c in p ==> !('A' <= c <= 'Z')
  {
    hide Split;
    JoinOfSplit(s, '.');
    var parts := Split(s, '.');
    forall p, c | p in parts && c in p
      ensures !('A' <= c <= 'Z')
    {
      var i :| 0 <= i < |parts| && parts[i] == p;
      JoinHas(parts, '.', i, c);
      var j :| 0 <= j < |s| && s[j] == c;
      assert LowerChar(s[j]) == s[j];
    }
  }

  /** Names of records are host names, but without wildcards or a dot at the end; besides, any label may begin with
      an underscore, a wildcard label may stand in front, and the domain itself is `@`. */
  lemma RecordNames(name: string, part: string)
    ensures IsValidRecordName("@") && IsValidRecordName("*")
    ensures IsNameLabel("_" + part) <==> IsLabel(part)
    ensures name != "@" && name != "*" && !("*." <= name) ==>
              (IsValidRecordName("*." + name) <==> IsValidRecordName(name))
    ensures name != "@" && name != "*" && !("*." <= name) && |name| <= MAX_NAME
            && NoUnderscores(Split(name, '.')) ==>
              (IsValidRecordName(name)
               <==> name != "" && name[|name| - 1] != '.' && IsValidHostname(name) && "*" !in Split(name, '.'))
  {
    hide Split, IsLabel;
    UnderscoreIs(part);
    WildcardInFront(name);
    if name != "@" && name != "*" && !("*." <= name) && |name| <= MAX_NAME
       && NoUnderscores(Split(name, '.')) {
      PlainRecordName(name);
    }
  }

  lemma UnderscoreIs(part: string)
    ensures IsNameLabel("_" + part) <==> IsLabel(part)
  {
    hide IsLabel;
    assert ("_" + part)[1..] == part;
  }

  lemma WildcardInFront(name: string)
    ensures name != "@" && name != "*" && !("*." <= name) ==>
              (IsValidRecordName("*." + name) <==> IsValidRecordName(name))
  {
    hide Split, IsNameLabel;
    var long := "*." + name;
    assert long[2..] == name && long[0] == '*' && long[1] == '.';
  }

  lemma PlainRecordName(name: string)
    requires name != "@" && name != "*" && !("*." <= name) && |name| <= MAX_NAME
    requires NoUnderscores(Split(name, '.'))
    ensures IsValidRecordName(name)
            <==> name != "" && name[|name| - 1] != '.' && IsValidHostname(name) && "*" !in Split(name, '.')
  {
    hide Split, IsLabel, IsNameLabel, WithoutRoot, NoUnderscores;
    SameLabels(Split(name, '.'));
    if name != "" && name[|name| - 1] == '.' {
      LastPiece(name, '.');
      NoEmptyLabel(Split(name, '.'));
    } else {
      NoRoot(name);
    }
  }

  predicate NoUnderscores(parts: seq<string>) {
    forall p :: p in parts ==> p == "" || p[0] != '_'
  }

  lemma SameLabels(parts: seq<string>)
    requires NoUnderscores(parts)
    ensures (forall p :: p in parts ==> IsNameLabel(p))
            <==> (forall p :: p in parts ==> p == "*" || IsLabel(p)) && "*" !in parts
  {
    hide IsLabel, IsNameLabel;
    forall p | p in parts
      ensures IsNameLabel(p) <==> IsLabel(p)
      ensures IsLabel(p) ==> p != "*"
    {
      NotALabel(p);
    }
  }

  lemma NoEmptyLabel(parts: seq<string>)
    requires parts != [] && parts[|parts| - 1] == ""
    ensures !(forall p :: p in parts ==> IsNameLabel(p))
  {
    assert parts[|parts| - 1] in parts && !IsNameLabel("");
  }

  lemma NoRoot(name: string)
    ensures name == "" || name[|name| - 1] != '.' ==> WithoutRoot(name) == name
  {
  }

  lemma NotALabel(p: string)
    requires p == "" || p[0] != '_'
    ensures IsNameLabel(p) <==> IsLabel(p)
    ensures IsLabel(p) ==> p != "" && p != "*"
  {
    assert '*' in "*";
  }

  /** A host name whose first label at most is a wildcard. */
  predicate IsProperHostname(value: string) {
    var labels := Split(WithoutRoot(value), '.');
    1 <= |value| <= MAX_NAME && WithoutRoot(value) != []
    && forall i :: 0 <= i < |labels| ==> IsLabel(labels[i]) || (i == 0 && labels[i] == "*")
  }

  /** What is accepted is a host name exactly when no label but the first is a wildcard. */
  lemma HostnameIsProperIff(value: string)
    ensures IsProperHostname(value) <==> IsValidHostname(value) && "*" !in Split(WithoutRoot(value), '.')[1..]
  {
    hide Split, WithoutRoot;
    var labels := Split(WithoutRoot(value), '.');
    assert "*"[0] == '*' && '*' in "*" && !IsLabel("*");
    if IsProperHostname(value) {
      forall i | 1 <= i < |labels|
        ensures labels[i] != "*"
      {
        assert IsLabel(labels[i]);
      }
    } else if IsValidHostname(value) && "*" !in labels[1..] {
      forall i | 0 <= i < |labels|
        ensures IsLabel(labels[i]) || (i == 0 && labels[i] == "*")
      {
        assert labels[i] in labels && (i > 0 ==> labels[1..][i - 1] == labels[i]);
      }
    }
  }

  /** That is left to a caller which does not look, so `a.*` is accepted. */
  lemma WildcardIsAcceptedAnywhere()
    ensures IsValidHostname("a.*") && !IsProperHostname("a.*")
  {
    var labels := ["a", "*"];
    assert Join(labels[1..], '.') == "*";
    assert Join(labels, '.') == "a.*";
    SplitOfJoin(labels, '.');
    assert labels[1..][0] == "*";
    HostnameIsProperIff("a.*");
  }

  // ---------- IPv4 ----------

  predicate IsOctet(part: string) {
    1 <= |part| <= 3 && (forall c :: c in part ==> IsDigit(c)) && !(|part| > 1 && part[0] == '0')
    && NumberOf(part) <= 255
  }

  predicate IsValidIPv4(value: string) {
    |Split(value, '.')| == 4 && forall part :: part in Split(value, '.') ==> IsOctet(part)
  }

  function Written(numbers: seq<nat>): (parts: seq<string>)
    ensures |parts| == |numbers| && forall i :: 0 <= i < |parts| ==> parts[i] == Digits(numbers[i])
  {
    seq(|numbers|, i requires 0 <= i < |numbers| => Digits(numbers[i]))
  }

  function Dotted(bytes: seq<nat>): string {
    Join(Written(bytes), '.')
  }

  lemma OctetIff(part: string)
    ensures IsOctet(part) <==> exists n: nat :: n <= 255 && part == Digits(n)
  {
    if IsOctet(part) {
      DigitsOfNumber(part);
    } else if n: nat :| n <= 255 && part == Digits(n) {
      NoLeadingZero(n);
      DigitsReadBack(n);
    }
  }

  /** What is accepted as an IPv4 address is exactly four bytes in decimal with dots between them, so every
      address is spelt in one way only. */
  lemma IPv4Iff(value: string)
    ensures IsValidIPv4(value)
            <==> exists bytes: seq<nat> ::
                   value == Dotted(bytes) && |bytes| == 4 && forall i :: 0 <= i < 4 ==> bytes[i] <= 255
  {
    hide Split, IsOctet, Join, Digits;
    if IsValidIPv4(value) {
      var parts := Split(value, '.');
      forall i | 0 <= i < 4
        ensures NumberOf(parts[i]) <= 255 && Digits(NumberOf(parts[i])) == parts[i]
      {
        OctetIff(parts[i]);
        var n: nat :| n <= 255 && parts[i] == Digits(n);
        DigitsReadBack(n);
      }
      var bytes := seq(4, i requires 0 <= i < 4 => NumberOf(parts[i]));
      assert Written(bytes) == parts;
      JoinOfSplit(value, '.');
      assert value == Dotted(bytes);
    } else if bytes: seq<nat> :|
        value == Dotted(bytes) && |bytes| == 4 && forall i :: 0 <= i < 4 ==> bytes[i] <= 255 {
      forall i | 0 <= i < 4
        ensures IsOctet(Digits(bytes[i])) && '.' !in Digits(bytes[i])
      {
        OctetIff(Digits(bytes[i]));
        NoLeadingZero(bytes[i]);
      }
      SplitOfJoin(Written(bytes), '.');
    }
  }

  // ---------- CAA ----------

  datatype CaaParts = CaaParts(flags: string, tag: string, authority: string)

  const CAA_TAGS: set<string> := {"issue", "issuewild", "iodef"}

  predicate IsNoSpace(c: char) {
    !IsSpace(c)
  }

  /** Cuts `s` before the first character that does not pass. */
  function Cut(s: string, p: char -> bool): (r: (string, string))
    ensures r.0 + r.1 == s && (forall c :: c in r.0 ==> p(c)) && (r.1 != [] ==> !p(r.1[0]))
  {
    if s == [] || !p(s[0]) then ([], s)
    else
      var (front, rest) := Cut(s[1..], p);
      ([s[0]] + front, rest)
  }

  function Unquoted(s: string): string {
    var open := if s != [] && s[0] == '"' then s[1..] else s;
    if open != [] && open[|open| - 1] == '"' then open[..|open| - 1] else open
  }

  /** Flags, a tag and an authority that may stand in quotes. */
  function ParseCaa(value: string): Option<CaaParts> {
    var (flags, afterFlags) := Cut(value, IsDigit);
    var (gap, afterGap) := Cut(afterFlags, IsSpace);
    var (tag, afterTag) := Cut(afterGap, IsNoSpace);
    var (space, rest) := Cut(afterTag, IsSpace);
    if 1 <= |flags| <= 3 && gap != [] && ToLowerCase(tag) in CAA_TAGS && space != [] && '"' !in Unquoted(rest)
    then Some(CaaParts(flags, tag, Unquoted(rest)))
    else None
  }

  predicate IsValidCaa(value: string) {
    ParseCaa(value).Some?
    && NumberOf(ParseCaa(value).value.flags) in {0, 128} && Trim(ParseCaa(value).value.authority) != []
  }

  lemma {:induction false} CutIs(a: string, b: string, p: char -> bool)
    requires (forall c :: c in a ==> p(c)) && (b == [] || !p(b[0]))
    ensures Cut(a + b, p) == (a, b)
  {
    var s := a + b;
    if a == [] {
      assert s == b;
    } else {
      assert a[0] in a && s[0] == a[0] && s[1..] == a[1..] + b;
      CutIs(a[1..], b, p);
      assert [a[0]] + a[1..] == a;
    }
  }

  predicate AreSpaces(s: string) {
    s != [] && forall c :: c in s ==> IsSpace(c)
  }

  lemma ParseOfParts(flags: string, gap: string, tag: string, space: string, rest: string)
    requires flags != [] && (forall c :: c in flags ==> IsDigit(c)) && AreSpaces(gap) && AreSpaces(space)
    requires ToLowerCase(tag) in CAA_TAGS && tag != [] && (forall c :: c in tag ==> !IsSpace(c))
    requires rest != [] && !IsSpace(rest[0]) && '"' !in Unquoted(rest)
    ensures ParseCaa(flags + (gap + (tag + (space + rest))))
            == if |flags| <= 3 then Some(CaaParts(flags, tag, Unquoted(rest))) else None
  {
    hide Cut, Unquoted, ToLowerCase;
    assert gap[0] in gap && space[0] in space && tag[0] in tag;
    CutIs(flags, gap + (tag + (space + rest)), IsDigit);
    CutIs(gap, tag + (space + rest), IsSpace);
    CutIs(tag, space + rest, IsNoSpace);
    CutIs(space, rest, IsSpace);
  }

  function CaaText(flags: nat, tag: string, authority: string): string {
    Digits(flags) + (" " + (tag + (" " + ("\"" + authority + "\""))))
  }

  /** A CAA value put together from its parts reads back into exactly those parts, with flags of three digits at most,
      and is valid exactly when the flags are 0 or 128 and there is an authority. */
  lemma CaaReadsBack(flags: nat, tag: string, authority: string)
    requires ToLowerCase(tag) in CAA_TAGS && '"' !in authority && forall c :: c in tag ==> !IsSpace(c)
    ensures ParseCaa(CaaText(flags, tag, authority))
            == if flags < 1000 then Some(CaaParts(Digits(flags), tag, authority)) else None
    ensures IsValidCaa(CaaText(flags, tag, authority))
            <==> (flags == 0 || flags == 128) && Trim(authority) != ""
  {
    hide Digits, NumberOf, ToLowerCase, ParseCaa, Trim;
    NoLeadingZero(flags);
    DigitsReadBack(flags);
    TagIsNotEmpty(tag);
    var quoted := "\"" + authority + "\"";
    assert quoted[1..] == authority + "\"";
    assert Unquoted(quoted) == authority;
    ParseOfParts(Digits(flags), " ", tag, " ", quoted);
  }

  lemma TagIsNotEmpty(tag: string)
    requires ToLowerCase(tag) in CAA_TAGS
    ensures tag != []
  {
  }
}
