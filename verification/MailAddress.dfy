/** Mail addresses: the rules for one, and its two parts (backend/src/mail/mail-address.ts). */
module MailAddress {
  import opened Options
  import opened Strings

  const MAX_LOCAL_PART := 64
  const MAX_DOMAIN := 255
  const MAX_ADDRESS := 254

  /** The alias that takes what no mailbox and no other alias of its domain does. */
  const CATCH_ALL := "*"

  predicate IsAlphanumeric(c: char) {
    'a' <= c <= 'z' || '0' <= c <= '9'
  }

  predicate IsLocalChar(c: char, forStorage: bool) {
    IsAlphanumeric(c) || c == '.' || c == '_' || c == '-' || (c == '+' && !forStorage)
  }

  predicate MatchesLocalPart(s: string, forStorage: bool) {
    s != [] && IsAlphanumeric(s[0]) && IsAlphanumeric(s[|s| - 1]) && forall c :: c in s ==> IsLocalChar(c, forStorage)
  }

  predicate IsDomainLabel(s: string) {
    1 <= |s| <= 63 && s[0] != '-' && s[|s| - 1] != '-' && forall c :: c in s ==> IsAlphanumeric(c) || c == '-'
  }

  predicate IsValidDomain(domain: string) {
    var value := Normalise(domain);
    1 <= |value| <= MAX_DOMAIN && value[|value| - 1] != '.' && value[0] != '.'
    && |Split(value, '.')| >= 2
    && forall part :: part in Split(value, '.') ==> IsDomainLabel(part)
  }

  predicate IsValidLocalPart(localPart: string, forStorage: bool) {
    var value := Normalise(localPart);
    1 <= |value| <= MAX_LOCAL_PART
    && (forall i :: 0 <= i < |value| - 1 ==> !(value[i] == '.' && value[i + 1] == '.'))
    && MatchesLocalPart(value, forStorage)
  }

  datatype AddressParts = AddressParts(localPart: string, domain: string)

  function ParseAddress(address: string, forStorage: bool): Option<AddressParts> {
    var value := Normalise(address);
    if |value| == 0 || |value| > MAX_ADDRESS then None
    else
      var at := LastIndexOf(value, '@');
      if at <= 0 || at == |value| - 1 then None
      else
        var parts := AddressParts(value[..at], value[at + 1..]);
        if IsValidLocalPart(parts.localPart, forStorage) && IsValidDomain(parts.domain) then Some(parts) else None
  }

  predicate IsValidAddress(address: string) {
    ParseAddress(address, false).Some?
  }

  function Address(localPart: string, domain: string): string {
    localPart + "@" + domain
  }

  const RESERVED_LOCAL_PARTS: set<string> := {
    "postmaster", "abuse", "hostmaster", "webmaster", "admin", "administrator", "ssl-admin", "ssladmin",
    "ssladministrator", "root", "mailer-daemon", "noreply", "no-reply" }

  predicate IsReservedLocalPart(localPart: string) {
    Normalise(localPart) in RESERVED_LOCAL_PARTS
  }

  lemma ReservedIs(localPart: string)
    requires IsNormal(localPart)
    ensures IsReservedLocalPart(localPart) <==> localPart in RESERVED_LOCAL_PARTS
  {
    hide RESERVED_LOCAL_PARTS;
    NormaliseShape(localPart);
  }

  /** Parsing an address and putting its parts together again gives its normal form; and parsing does not
      depend on how the address was written. */
  lemma ParseIsNormal(address: string, forStorage: bool)
    ensures ParseAddress(Normalise(address), forStorage) == ParseAddress(address, forStorage)
    ensures ParseAddress(address, forStorage).Some? ==>
              var parts := ParseAddress(address, forStorage).value;
              Address(parts.localPart, parts.domain) == Normalise(address)
  {
    hide Normalise, IsValidDomain, IsValidLocalPart;
    NormaliseShape(Normalise(address));
    NormaliseShape(address);
    var value := Normalise(address);
    var at := LastIndexOf(value, '@');
    if 0 < at < |value| - 1 {
      assert value[..at] + "@" + value[at + 1..] == value;
    }
  }

  lemma DomainHasNoAt(domain: string)
    requires IsNormal(domain) && IsValidDomain(domain)
    ensures '@' !in domain
  {
    hide Split, Normalise;
    NormaliseShape(domain);
    if '@' in domain {
      CharsOfSplit(domain, '.', '@');
    }
  }

  /** An address made of stored parts parses back into exactly those parts, unless it is too long. */
  lemma ParseOfAddress(localPart: string, domain: string, forStorage: bool)
    requires IsNormal(localPart) && IsValidLocalPart(localPart, forStorage)
    requires IsNormal(domain) && IsValidDomain(domain)
    ensures Normalise(Address(localPart, domain)) == Address(localPart, domain)
    ensures ParseAddress(Address(localPart, domain), forStorage)
            == if |localPart| + 1 + |domain| <= MAX_ADDRESS then Some(AddressParts(localPart, domain)) else None
  {
    hide Normalise, IsValidDomain, IsValidLocalPart, IsNormal;
    NonEmptyParts(localPart, domain, forStorage);
    NormalConcat(localPart, '@', domain);
    var a := Address(localPart, domain);
    NormaliseShape(a);
    DomainHasNoAt(domain);
    var at := LastIndexOf(a, '@');
    assert a[|localPart|] == '@';
    forall j | |localPart| < j < |a|
      ensures a[j] != '@'
    {
      assert a[j] == domain[j - |localPart| - 1];
    }
    assert at == |localPart|;
    assert a[..at] == localPart && a[at + 1..] == domain;
  }

  lemma NonEmptyParts(localPart: string, domain: string, forStorage: bool)
    requires IsNormal(localPart) && IsValidLocalPart(localPart, forStorage)
    requires IsNormal(domain) && IsValidDomain(domain)
    ensures localPart != [] && domain != []
  {
    hide Split;
    NormaliseShape(localPart);
    NormaliseShape(domain);
  }

  // ---------- Names ----------

  /** What is accepted as a name, after trimming and lower-casing: 1 to 64 letters, digits and `. _ -`, a letter or
      digit at both ends, no two dots together, and a plus sign only where the name is not stored. */
  lemma LocalPartIff(localPart: string, forStorage: bool)
    ensures var v := Normalise(localPart);
            IsValidLocalPart(localPart, forStorage)
            <==> 1 <= |v| <= 64
                 && (forall c :: c in v ==>
                       'a' <= c <= 'z' || '0' <= c <= '9' || c in "._-" || (c == '+' && !forStorage))
                 && v[0] !in "._-+" && v[|v| - 1] !in "._-+"
                 && "" !in Split(v, '.')
  {
    hide Normalise, Split;
    var v := Normalise(localPart);
    if v != [] {
      EmptyPieceIff(v, '.');
      assert HasPair(v, '.') <==> exists i :: 0 <= i < |v| - 1 && v[i] == '.' && v[i + 1] == '.';
      assert v[0] in v && v[|v| - 1] in v;
    }
  }

  predicate HasPair(s: string, c: char) {
    exists i :: 0 <= i < |s| - 1 && s[i] == c && s[i + 1] == c
  }

  predicate HasEmptyAfterFirst(parts: seq<string>) {
    exists k :: 1 <= k < |parts| && parts[k] == ""
  }

  /** A piece after the first is empty exactly at the end, or between two separators. */
  lemma {:induction false} EmptyAfterFirstIff(s: string, c: char)
    requires s != []
    ensures HasEmptyAfterFirst(Split(s, c)) <==> s[|s| - 1] == c || HasPair(s, c)
    ensures Split(s, c)[0] == "" <==> s[0] == c
  {
    hide Split;
    SplitStep(s, c);
    if |s| == 1 {
      SplitOfPiece("", c);
      assert s[1..] == "";
      if s[0] == c {
        assert Split(s, c)[1] == "";
      }
    } else {
      var tail := s[1..];
      var rest := Split(tail, c);
      EmptyAfterFirstIff(tail, c);
      PairIff(s, c);
      if s[0] == c {
        FirstIsEmpty(rest);
      } else {
        SameAfterFirst(rest, [[s[0]] + rest[0]] + rest[1..]);
      }
    }
  }

  lemma PairIff(s: string, c: char)
    requires |s| >= 2
    ensures HasPair(s, c) <==> (s[0] == c && s[1] == c) || HasPair(s[1..], c)
  {
    if HasPair(s[1..], c) {
      var i :| 0 <= i < |s| - 2 && s[1..][i] == c && s[1..][i + 1] == c;
      assert s[i + 1] == c && s[i + 1 + 1] == c;
    }
    if HasPair(s, c) {
      var i :| 0 <= i < |s| - 1 && s[i] == c && s[i + 1] == c;
      if i > 0 {
        assert s[1..][i - 1] == c && s[1..][i - 1 + 1] == c;
      }
    }
    if s[0] == c && s[1] == c {
      assert s[0 + 1] == c;
    }
  }

  lemma FirstIsEmpty(rest: seq<string>)
    requires rest != []
    ensures HasEmptyAfterFirst([""] + rest) <==> rest[0] == "" || HasEmptyAfterFirst(rest)
  {
    var parts := [""] + rest;
    if rest[0] == "" {
      assert parts[1] == "";
    }
    if k :| 1 <= k < |rest| && rest[k] == "" {
      assert parts[k + 1] == "";
    }
    if k :| 1 <= k < |parts| && parts[k] == "" {
      assert rest[k - 1] == "";
    }
  }

  lemma SameAfterFirst(a: seq<string>, b: seq<string>)
    requires |a| == |b| && forall k :: 1 <= k < |a| ==> a[k] == b[k]
    ensures HasEmptyAfterFirst(a) <==> HasEmptyAfterFirst(b)
  {
  }

  lemma EmptyPieceIff(s: string, c: char)
    requires s != []
    ensures "" in Split(s, c) <==> s[0] == c || s[|s| - 1] == c || HasPair(s, c)
  {
    EmptyAfterFirstIff(s, c);
    var parts := Split(s, c);
    if k :| 0 <= k < |parts| && parts[k] == "" {
      assert k == 0 || HasEmptyAfterFirst(parts);
    }
  }

  // ---------- Blanks beside the at sign ----------

  predicate IsBlankBeforeAt(parts: AddressParts) {
    parts.localPart != [] && IsSpace(parts.localPart[|parts.localPart| - 1])
  }

  predicate IsBlankAfterAt(parts: AddressParts) {
    parts.domain != [] && IsSpace(parts.domain[0])
  }

  /** The two parts of an accepted address are trimmed again when they are checked, so a blank beside the at sign
      is not noticed. They are the normal, valid names they are meant to be exactly when there is none. */
  lemma PartsAreNormalIff(address: string, forStorage: bool)
    requires ParseAddress(address, forStorage).Some?
    ensures var parts := ParseAddress(address, forStorage).value;
            (IsNormal(parts.localPart) && IsNormal(parts.domain))
            <==> !IsBlankBeforeAt(parts) && !IsBlankAfterAt(parts)
    ensures var parts := ParseAddress(address, forStorage).value;
            MatchesLocalPart(parts.localPart, forStorage) <==> !IsBlankBeforeAt(parts)
  {
    hide IsValidDomain, Normalise;
    var value, parts := Normalise(address), ParseAddress(address, forStorage).value;
    ParseIsNormal(address, forStorage);
    NormaliseShape(address);
    PiecesOfNormal(parts.localPart, parts.domain);
    NormaliseShape(parts.localPart);
    NoBlankMatches(parts.localPart, forStorage);
  }

  /** What is left of the first at sign has no blank before it, and what is right of the last none after it. */
  lemma PiecesOfNormal(a: string, b: string)
    requires IsNormal(Address(a, b)) && a != [] && b != []
    ensures IsNormal(a) <==> !IsSpace(a[|a| - 1])
    ensures IsNormal(b) <==> !IsSpace(b[0])
  {
    var s := Address(a, b);
    assert s[0] == a[0] && s[|s| - 1] == b[|b| - 1];
    assert forall i :: 0 <= i < |a| ==> s[i] == a[i];
    assert forall i :: 0 <= i < |b| ==> s[|a| + 1 + i] == b[i];
  }

  lemma NoBlankMatches(localPart: string, forStorage: bool)
    requires IsValidLocalPart(localPart, forStorage) && localPart != []
    requires IsNormal(localPart) <==> !IsSpace(localPart[|localPart| - 1])
    ensures MatchesLocalPart(localPart, forStorage) <==> !IsSpace(localPart[|localPart| - 1])
  {
    hide Normalise;
    NormaliseShape(localPart);
  }

  lemma NormaliseDropsBlank(s: string)
    requires IsNormal(s) && s != []
    ensures Normalise(s + [' ']) == s
  {
    var t := s + [' '];
    TrimStartShape(t);
    assert t[..|t| - 1] == s;
    TrimEndShape(s);
    assert ToLowerCase(s) == s;
  }

  /** Such an address is accepted: any stored name with a blank before the at sign, unless it is too long. */
  lemma BlankIsAccepted(localPart: string, domain: string)
    requires IsNormal(localPart) && IsValidLocalPart(localPart, false)
    requires IsNormal(domain) && IsValidDomain(domain)
    requires |localPart| + 2 + |domain| <= MAX_ADDRESS
    ensures ParseAddress(Address(localPart + [' '], domain), false) == Some(AddressParts(localPart + [' '], domain))
  {
    hide Normalise, IsValidDomain, MatchesLocalPart;
    NonEmptyParts(localPart, domain, false);
    NormaliseShape(localPart);
    NormaliseDropsBlank(localPart);
    var local := localPart + [' '];
    var a := Address(local, domain);
    assert IsNormal(a) by { NormalWithBlank(localPart, domain); }
    NormaliseShape(a);
    DomainHasNoAt(domain);
    var at := LastIndexOf(a, '@');
    assert a[|local|] == '@';
    forall j | |local| < j < |a|
      ensures a[j] != '@'
    {
      assert a[j] == domain[j - |local| - 1];
    }
    assert at == |local| && a[..at] == local && a[at + 1..] == domain;
  }

  lemma NormalWithBlank(localPart: string, domain: string)
    requires IsNormal(localPart) && IsNormal(domain) && localPart != [] && domain != []
    ensures IsNormal(Address(localPart + [' '], domain))
  {
  }
}
