/**
 The mail services, over the tables they update in place (backend/src/mail/aliases.service.ts,
 backend/src/mail/mailboxes.service.ts, backend/src/mail/mail-domains.service.ts,
 backend/src/mail/mail-routing.ts:130-150). A row is named by its domain and local part.
 */
module MailServices {
  import opened Options
  import opened Strings
  import opened MailAddress
  import opened MailRouting
  import opened MailRuns
  import opened Sequences

  const MAX_DESTINATIONS := 50

  datatype MailError =
    | NoDomain | NotActive | NoDestination | TooManyDestinations | BadDestination
    | BadName | Reserved | AliasExists | MailboxExists | WouldLoop(chain: seq<string>)
    | NoRow | NotConfirmed | OverLimit | BadDomain | DomainExists | LookupFailed | NotPublished

  datatype MailResult = Done | Refused(error: MailError)

  function NormaliseAll(ss: seq<string>): (r: seq<string>)
    ensures |r| == |ss| && forall i :: 0 <= i < |ss| ==> r[i] == Normalise(ss[i])
  {
    seq(|ss|, i requires 0 <= i < |ss| => Normalise(ss[i]))
  }

  /** The distinct non-empty strings, in the order they first appear. */
  function Cleaned(ss: seq<string>): (r: seq<string>)
    ensures Distinct(r) && forall s :: s in r <==> s in ss && s != []
  {
    if ss == [] then []
    else
      var n := |ss| - 1;
      var rest := Cleaned(ss[..n]);
      if ss[n] == [] || ss[n] in rest then rest else rest + [ss[n]]
  }

  /** The strings stay in the order they first appear in: what comes later never changes what came before. */
  lemma {:induction false} CleanedInOrder(ss: seq<string>, n: nat)
    requires n <= |ss|
    ensures Cleaned(ss[..n]) <= Cleaned(ss)
    decreases |ss|
  {
    if n < |ss| {
      CleanedInOrder(ss[..|ss| - 1], n);
      assert ss[..|ss| - 1][..n] == ss[..n];
    } else {
      assert ss[..n] == ss;
    }
  }

  datatype Checked = Destinations(list: seq<string>) | BadList(error: MailError)

  function CheckDestinations(destinations: seq<string>): Checked {
    var cleaned := Cleaned(NormaliseAll(destinations));
    if cleaned == [] then BadList(NoDestination)
    else if |cleaned| > MAX_DESTINATIONS then BadList(TooManyDestinations)
    else if exists i :: 0 <= i < |cleaned| && !IsValidAddress(cleaned[i]) then BadList(BadDestination)
    else Destinations(cleaned)
  }

  /** What is stored: every destination once, valid, in normal form, and none of those given left out. */
  lemma CheckedDestinations(destinations: seq<string>)
    requires CheckDestinations(destinations).Destinations?
    ensures var list := CheckDestinations(destinations).list;
            1 <= |list| <= MAX_DESTINATIONS && Distinct(list)
            && (forall x :: x in list ==> IsValidAddress(x) && Normalise(x) == x)
            && (forall d :: d in destinations && Normalise(d) != [] ==> Normalise(d) in list)
            && NormaliseAll(list) == list
  {
    hide Normalise, IsValidAddress, Cleaned;
    var list := CheckDestinations(destinations).list;
    forall i | 0 <= i < |list|
      ensures Normalise(list[i]) == list[i] && IsValidAddress(list[i])
    {
      assert list[i] in list;
      var j :| 0 <= j < |destinations| && NormaliseAll(destinations)[j] == list[i];
      NormaliseShape(destinations[j]);
      NormaliseShape(list[i]);
    }
    forall d | d in destinations && Normalise(d) != []
      ensures Normalise(d) in list
    {
      var j :| 0 <= j < |destinations| && destinations[j] == d;
      assert NormaliseAll(destinations)[j] == Normalise(d);
    }
  }

  /** The distinct destinations asked for, as they are stored. */
  function Wanted(destinations: seq<string>): set<string> {
    set d | d in destinations && Normalise(d) != [] :: Normalise(d)
  }

  /** A list is accepted exactly when it names 1 to 50 different addresses, blanks and repeats aside, and
      every one of them is an address. */
  lemma CheckedIff(destinations: seq<string>)
    ensures CheckDestinations(destinations).Destinations?
            <==> 1 <= |Wanted(destinations)| <= MAX_DESTINATIONS
                 && forall a :: a in Wanted(destinations) ==> IsValidAddress(a)
  {
    hide Normalise, IsValidAddress, Cleaned;
    var cleaned := Cleaned(NormaliseAll(destinations));
    forall a | a in Wanted(destinations)
      ensures a in cleaned
    {
      var d :| d in destinations && Normalise(d) == a;
      var j :| 0 <= j < |destinations| && destinations[j] == d;
      assert NormaliseAll(destinations)[j] == a;
    }
    forall a | a in cleaned
      ensures a in Wanted(destinations)
    {
      var j :| 0 <= j < |destinations| && NormaliseAll(destinations)[j] == a;
      assert destinations[j] in destinations;
    }
    assert Wanted(destinations) == ToSet(cleaned);
    DistinctSize(cleaned);
  }

  /** Whether writing these destinations would make mail loop: the resolver's answer about the table with
      the change made. It is not asked when the address does not parse or its domain is not hosted. */
  method WouldCreateLoop(aliasAddress: string, destinations: seq<string>, domains: Table)
      returns (loop: Option<seq<string>>)
    ensures var parsed := ParseAddress(aliasAddress, true);
            if parsed.None? || parsed.value.domain !in domains then loop.None?
            else
              var proposed := Perform(domains,
                  PutAlias(parsed.value.domain, parsed.value.localPart, NormaliseAll(destinations)));
              if loop.None? then NoCycleFrom(proposed, Normalise(aliasAddress))
              else IsReason(proposed, Normalise(aliasAddress), loop.value)
  {
    hide ParseAddress, Normalise, NoCycleFrom, IsReason;
    var parsed := ParseAddress(aliasAddress, true);
    if parsed.None? || parsed.value.domain !in domains {
      return None;
    }
    var d, l := parsed.value.domain, parsed.value.localPart;
    var routing := domains[d];
    var proposed := domains[d := DomainRouting(routing.mailboxes, routing.aliases[l := NormaliseAll(destinations)])];
    var r := ResolveAddress(aliasAddress, proposed);
    loop := r.loop;
  }

  /** The checks of `create` for an alias before the loop check, in their order. */
  function AliasProblem(t: Table, active: set<string>, domain: string, localPart: string,
      destinations: seq<string>): Option<MailError> {
    var l := Normalise(localPart);
    if domain !in t then Some(NoDomain)
    else if domain !in active then Some(NotActive)
    else if CheckDestinations(destinations).BadList? then Some(CheckDestinations(destinations).error)
    else if l != CATCH_ALL && !IsValidLocalPart(l, true) then Some(BadName)
    else if IsReservedLocalPart(l) then Some(Reserved)
    else if l in t[domain].aliases then Some(AliasExists)
    else if l in t[domain].mailboxes then Some(MailboxExists)
    else None
  }

  function MailboxProblem(t: Table, active: set<string>, domain: string, localPart: string,
      withinLimit: bool): Option<MailError> {
    var l := Normalise(localPart);
    if domain !in t then Some(NoDomain)
    else if domain !in active then Some(NotActive)
    else if !IsValidLocalPart(l, true) then Some(BadName)
    else if IsReservedLocalPart(l) then Some(Reserved)
    else if l in t[domain].mailboxes then Some(MailboxExists)
    else if l in t[domain].aliases then Some(AliasExists)
    else if !withinLimit then Some(OverLimit)
    else None
  }

  /** An alias gets as far as the loop check exactly on an active domain, with an acceptable list, under a name that
      is the catch-all or valid, not reserved, and nobody's yet. */
  lemma AliasIsInOrderIff(t: Table, active: set<string>, domain: string, localPart: string, destinations: seq<string>)
    ensures AliasProblem(t, active, domain, localPart, destinations).None?
            <==> domain in t && domain in active && CheckDestinations(destinations).Destinations?
                 && var l := Normalise(localPart);
                    (l == "*" || IsValidLocalPart(localPart, true)) && l !in RESERVED_LOCAL_PARTS
                    && l !in t[domain].aliases && l !in t[domain].mailboxes
  {
    hide RESERVED_LOCAL_PARTS, CheckDestinations, Normalise, MatchesLocalPart;
    NormaliseShape(localPart);
    NormaliseShape(Normalise(localPart));
    ReservedIs(Normalise(localPart));
  }

  /** A mailbox is created exactly on an active domain, under a valid name that is not reserved and nobody's yet, and
      while the plan has room. */
  lemma MailboxIsInOrderIff(t: Table, active: set<string>, domain: string, localPart: string, withinLimit: bool)
    ensures MailboxProblem(t, active, domain, localPart, withinLimit).None?
            <==> domain in t && domain in active && withinLimit
                 && var l := Normalise(localPart);
                    IsValidLocalPart(localPart, true) && l !in RESERVED_LOCAL_PARTS
                    && l !in t[domain].aliases && l !in t[domain].mailboxes
  {
    hide RESERVED_LOCAL_PARTS, Normalise, MatchesLocalPart;
    NormaliseShape(localPart);
    NormaliseShape(Normalise(localPart));
    ReservedIs(Normalise(localPart));
  }

  /** A long TXT value arrives in chunks. */
  function Joined(chunks: seq<string>): string {
    if chunks == [] then "" else chunks[0] + Joined(chunks[1..])
  }

  lemma {:induction false} JoinedOfTwo(a: seq<string>, b: seq<string>, chunk: string)
    ensures Joined([chunk]) == chunk && Joined(a + b) == Joined(a) + Joined(b)
  {
    assert [chunk][1..] == [];
    if a == [] {
      assert a + b == b;
    } else {
      assert (a + b)[1..] == a[1..] + b;
      JoinedOfTwo(a[1..], b, chunk);
    }
  }

  const VERIFICATION_PREFIX := "webedge-domain-verification="

  /** One of the values looked up is exactly the prefix and the token. */
  predicate Publishes(answer: Option<seq<seq<string>>>, token: string) {
    answer.Some? && exists i :: 0 <= i < |answer.value| && Joined(answer.value[i]) == VERIFICATION_PREFIX + token
  }

  class MailService {
    var table: Table
    /** What the holder of a domain has to publish to prove control of it. */
    var tokens: map<string, string>
    /** Domains whose control has been proved. */
    var active: set<string>

    constructor ()
      ensures table == map[] && active == {} && Valid()
    {
      EmptyTable();
      table, tokens, active := map[], map[], {};
    }

    ghost predicate Valid()
      reads this
    {
      MailInv(table) && tokens.Keys == table.Keys && active <= table.Keys
    }

    method CreateAlias(domain: string, localPart: string, destinations: seq<string>) returns (r: MailResult)
      requires Valid()
      modifies this`table
      ensures Valid()
      ensures AliasProblem(old(table), active, domain, localPart, destinations).Some? ==>
                r == Refused(AliasProblem(old(table), active, domain, localPart, destinations).value)
      ensures AliasProblem(old(table), active, domain, localPart, destinations).None? ==>
                var w := PutAlias(domain, Normalise(localPart), CheckDestinations(destinations).list);
                if r.Done? then table == Perform(old(table), w) && Allowed(old(table), w)
                else r.error.WouldLoop?
                     && IsReason(Perform(old(table), w), Address(Normalise(localPart), domain), r.error.chain)
      ensures r.Refused? ==> table == old(table)
    {
      hide RESERVED_LOCAL_PARTS, MailInv, Normalise, IsValidLocalPart, IsReservedLocalPart, CheckDestinations,
        Allowed, IsReason, Address, Perform, IsNormal;
      if domain !in table {
        return Refused(NoDomain);
      }
      if domain !in active {
        return Refused(NotActive);
      }
      var l := Normalise(localPart);
      var checked := CheckDestinations(destinations);
      if checked.BadList? {
        return Refused(checked.error);
      }
      if l != CATCH_ALL && !IsValidLocalPart(l, true) {
        return Refused(BadName);
      }
      if IsReservedLocalPart(l) {
        return Refused(Reserved);
      }
      if l in table[domain].aliases {
        return Refused(AliasExists);
      }
      if l in table[domain].mailboxes {
        return Refused(MailboxExists);
      }
      CheckedDestinations(destinations);
      NormaliseShape(localPart);
      ReservedIs(l);
      r := WriteUnlessLoop(domain, l, checked.list);
    }

    /** Asks the resolver about the table with the alias in place, and writes it if there is no loop. */
    method WriteUnlessLoop(domain: string, l: string, list: seq<string>) returns (r: MailResult)
      requires Valid() && domain in table && l !in table[domain].mailboxes
      requires (l == CATCH_ALL || IsStoredName(l)) && NormaliseAll(list) == list && l !in RESERVED_LOCAL_PARTS
      modifies this`table
      ensures Valid()
      ensures var w := PutAlias(domain, l, list);
              if r.Done? then table == Perform(old(table), w) && Allowed(old(table), w)
              else table == old(table) && r.error.WouldLoop?
                   && IsReason(Perform(old(table), w), Address(l, domain), r.error.chain)
    {
      hide RESERVED_LOCAL_PARTS, LoopsNeedCatchAll, Normalise, IsStoredName, ParseAddress, NoCycleFrom, IsReason,
        IsStoredDomain, Address;
      var loop := WouldCreateLoop(Address(l, domain), list, table);
      StoredAddress(table, l, domain);
      if loop.Some? {
        return Refused(WouldLoop(loop.value));
      }
      WriteKeepsInv(table, PutAlias(domain, l, list));
      table := table[domain := table[domain].(aliases := table[domain].aliases[l := list])];
      r := Done;
    }

    /** An alias that exists is given new destinations; there is no check that its domain is active. */
    method UpdateAlias(domain: string, localPart: string, destinations: Option<seq<string>>) returns (r: MailResult)
      requires Valid()
      modifies this`table
      ensures Valid()
      ensures r == Refused(NoRow) <==> domain !in old(table) || localPart !in old(table)[domain].aliases
      ensures destinations.None? || r.Refused? ==> table == old(table)
      ensures destinations.Some? && r != Refused(NoRow) ==>
                var checked := CheckDestinations(destinations.value);
                if checked.BadList? then r == Refused(checked.error)
                else
                  var w := PutAlias(domain, localPart, checked.list);
                  if r.Done? then table == Perform(old(table), w) && Allowed(old(table), w)
                  else r.error.WouldLoop? && IsReason(Perform(old(table), w), Address(localPart, domain), r.error.chain)
    {
      hide RESERVED_LOCAL_PARTS, LoopsNeedCatchAll, Normalise, IsStoredName, CheckDestinations, Allowed, IsReason,
        IsStoredDomain, Address, Perform;
      if domain !in table || localPart !in table[domain].aliases {
        return Refused(NoRow);
      }
      if destinations.None? {
        return Done;
      }
      var checked := CheckDestinations(destinations.value);
      if checked.BadList? {
        ErrorOfCheck(destinations.value);
        return Refused(checked.error);
      }
      CheckedDestinations(destinations.value);
      r := WriteUnlessLoop(domain, localPart, checked.list);
    }

    method RemoveAlias(domain: string, localPart: string) returns (r: MailResult)
      requires Valid()
      modifies this`table
      ensures Valid()
      ensures if domain in old(table) && localPart in old(table)[domain].aliases
              then r == Done && table == Perform(old(table), DropAlias(domain, localPart))
              else r == Refused(NoRow) && table == old(table)
    {
      hide RESERVED_LOCAL_PARTS, LoopsNeedCatchAll, IsStoredName, IsStoredDomain;
      if domain !in table || localPart !in table[domain].aliases {
        return Refused(NoRow);
      }
      WriteKeepsInv(table, DropAlias(domain, localPart));
      table := table[domain := table[domain].(aliases := table[domain].aliases - {localPart})];
      r := Done;
    }

    method CreateMailbox(domain: string, localPart: string, withinLimit: bool) returns (r: MailResult)
      requires Valid()
      modifies this`table
      ensures Valid()
      ensures match MailboxProblem(old(table), active, domain, localPart, withinLimit)
              case Some(e) => r == Refused(e) && table == old(table)
              case None => r == Done && Allowed(old(table), PutMailbox(domain, Normalise(localPart)))
                           && table == Perform(old(table), PutMailbox(domain, Normalise(localPart)))
    {
      hide RESERVED_LOCAL_PARTS, LoopsNeedCatchAll, Normalise, IsValidLocalPart, IsReservedLocalPart, IsStoredDomain;
      if domain !in table {
        return Refused(NoDomain);
      }
      if domain !in active {
        return Refused(NotActive);
      }
      var l := Normalise(localPart);
      if !IsValidLocalPart(l, true) {
        return Refused(BadName);
      }
      if IsReservedLocalPart(l) {
        return Refused(Reserved);
      }
      if l in table[domain].mailboxes {
        return Refused(MailboxExists);
      }
      if l in table[domain].aliases {
        return Refused(AliasExists);
      }
      if !withinLimit {
        return Refused(OverLimit);
      }
      NormaliseShape(localPart);
      ReservedIs(l);
      WriteKeepsInv(table, PutMailbox(domain, l));
      table := table[domain := table[domain].(mailboxes := table[domain].mailboxes + {l})];
      r := Done;
    }

    /** Only for a caller who repeats the whole address. */
    method RemoveMailbox(domain: string, localPart: string, confirmAddress: string) returns (r: MailResult)
      requires Valid()
      modifies this`table
      ensures Valid()
      ensures r.Refused? ==> table == old(table)
      ensures if domain !in old(table) || localPart !in old(table)[domain].mailboxes then r == Refused(NoRow)
              else if Normalise(confirmAddress) != Address(localPart, domain) then r == Refused(NotConfirmed)
              else r == Done && table == Perform(old(table), DropMailbox(domain, localPart))
    {
      hide RESERVED_LOCAL_PARTS, LoopsNeedCatchAll, Normalise, IsStoredName, IsStoredDomain;
      if domain !in table || localPart !in table[domain].mailboxes {
        return Refused(NoRow);
      }
      if Normalise(confirmAddress) != Address(localPart, domain) {
        return Refused(NotConfirmed);
      }
      WriteKeepsInv(table, DropMailbox(domain, localPart));
      table := table[domain := table[domain].(mailboxes := table[domain].mailboxes - {localPart})];
      r := Done;
    }

    /** `token` is the fresh random one. */
    method AddDomain(name: string, token: string) returns (r: MailResult)
      requires Valid()
      modifies this`table, this`tokens
      ensures Valid()
      ensures var d := Normalise(name);
              if !IsValidDomain(d) then r == Refused(BadDomain) && table == old(table)
              else if d in old(table) then r == Refused(DomainExists) && table == old(table)
              else r == Done && Allowed(old(table), PutDomain(d)) && table == Perform(old(table), PutDomain(d))
                   && tokens == old(tokens)[d := token] && d !in active
    {
      hide RESERVED_LOCAL_PARTS, LoopsNeedCatchAll, Normalise, IsStoredName, IsValidDomain;
      var d := Normalise(name);
      NormaliseShape(name);
      if !IsValidDomain(d) {
        return Refused(BadDomain);
      }
      if d in table {
        return Refused(DomainExists);
      }
      WriteKeepsInv(table, PutDomain(d));
      table := table[d := DomainRouting({}, map[])];
      tokens := tokens[d := token];
      r := Done;
    }

    /** A domain becomes active only when its own token is published, whole; `answer` is what the lookup gave. */
    method VerifyDomain(domain: string, answer: Option<seq<seq<string>>>) returns (r: MailResult)
      requires Valid()
      modifies this`active
      ensures Valid()
      ensures r.Done? <==>
                domain in old(active)
                || (domain in table && answer.Some?
                    && exists i :: 0 <= i < |answer.value|
                                   && Joined(answer.value[i]) == "webedge-domain-verification=" + tokens[domain])
      ensures active == if r.Done? then old(active) + {domain} else old(active)
    {
      hide MailInv, Joined;
      if domain !in table {
        return Refused(NoDomain);
      }
      if domain in active {
        return Done;
      }
      if answer.None? {
        return Refused(LookupFailed);
      }
      if !Publishes(answer, tokens[domain]) {
        return Refused(NotPublished);
      }
      active := active + {domain};
      r := Done;
    }

    method RemoveDomain(domain: string, confirmName: string) returns (r: MailResult)
      requires Valid()
      modifies this
      ensures Valid()
      ensures if domain !in old(table) then r == Refused(NoDomain) && table == old(table)
              else if Normalise(confirmName) != domain then r == Refused(NotConfirmed) && table == old(table)
              else r == Done && table == Perform(old(table), DropDomain(domain)) && active == old(active) - {domain}
      ensures r != Done ==> active == old(active)
    {
      hide RESERVED_LOCAL_PARTS, LoopsNeedCatchAll, Normalise, IsStoredName, IsStoredDomain;
      if domain !in table {
        return Refused(NoDomain);
      }
      if Normalise(confirmName) != domain {
        return Refused(NotConfirmed);
      }
      WriteKeepsInv(table, DropDomain(domain));
      table := table - {domain};
      tokens := tokens - {domain};
      active := active - {domain};
      r := Done;
    }
  }

  lemma ErrorOfCheck(destinations: seq<string>)
    requires CheckDestinations(destinations).BadList?
    ensures CheckDestinations(destinations).error in {NoDestination, TooManyDestinations, BadDestination}
  {
    hide Cleaned, IsValidAddress, Normalise;
  }

  /** Where an alias is stored its address is in normal form, and parses into its own domain and name. */
  lemma StoredAddress(t: Table, l: string, d: string)
    requires TableInv(t) && d in t && (l == CATCH_ALL || IsStoredName(l))
    ensures Normalise(Address(l, d)) == Address(l, d)
    ensures ParseAddress(Address(l, d), true).Some? ==> ParseAddress(Address(l, d), true).value == AddressParts(l, d)
  {
    hide Normalise, IsValidDomain, IsValidLocalPart, ParseAddress, IsNormal;
    assert IsStoredDomain(d);
    if IsStoredName(l) {
      ParseOfAddress(l, d, true);
    } else {
      CatchAllIsNotAsked(d);
      NormalCatchAll(d);
    }
  }

  lemma NormalCatchAll(d: string)
    requires IsStoredDomain(d)
    ensures Normalise(Address(CATCH_ALL, d)) == Address(CATCH_ALL, d)
  {
    hide Normalise, IsValidDomain;
    NonEmptyDomain(d);
    assert IsNormal(CATCH_ALL);
    NormalConcat(CATCH_ALL, '@', d);
    NormaliseShape(Address(CATCH_ALL, d));
  }
}
