/**
 What the writes of the mail services do to the routing graph (backend/src/mail/aliases.service.ts,
 backend/src/mail/mailboxes.service.ts, backend/src/mail/mail-domains.service.ts), over whole runs.
 */
module MailRuns {
  import opened Options
  import opened Strings
  import opened MailAddress
  import opened MailRouting

  // ---------- Tables ----------

  predicate IsStoredName(localPart: string) {
    IsNormal(localPart) && IsValidLocalPart(localPart, true)
  }

  predicate IsStoredDomain(domain: string) {
    IsNormal(domain) && IsValidDomain(domain)
  }

  /** Names are stored in normal form, no name is both a mailbox and an alias, and none is reserved. */
  ghost predicate TableInv(t: Table) {
    forall d :: d in t ==>
      && IsStoredDomain(d)
      && (forall l :: l in t[d].aliases ==> l == CATCH_ALL || IsStoredName(l))
      && (forall l :: l in t[d].mailboxes ==> IsStoredName(l))
      && (forall l :: !(l in t[d].aliases && l in t[d].mailboxes))
      && (forall l :: l in t[d].aliases || l in t[d].mailboxes ==> l !in RESERVED_LOCAL_PARTS)
  }

  ghost predicate NoCatchAll(t: Table) {
    forall d :: d in t ==> CATCH_ALL !in t[d].aliases
  }

  predicate IsNamedAlias(t: Table, a: string) {
    TargetOf(a, t).Forwarded? && !TargetOf(a, t).viaCatchAll
  }

  /** Every cycle there is leads through an address that a catch-all forwards. */
  ghost predicate LoopsNeedCatchAll(t: Table) {
    forall p :: IsCycle(t, p) ==> exists i :: 0 <= i < |p| && IsCaught(t, p[i])
  }

  ghost predicate MailInv(t: Table) {
    TableInv(t) && LoopsNeedCatchAll(t)
  }

  ghost predicate LoopFree(t: Table) {
    TableInv(t) && Acyclic(t)
  }

  // ---------- Writes ----------

  datatype Write =
    | PutAlias(domain: string, localPart: string, destinations: seq<string>)
    | DropAlias(domain: string, localPart: string)
    | PutMailbox(domain: string, localPart: string)
    | DropMailbox(domain: string, localPart: string)
    | PutDomain(domain: string)
    | DropDomain(domain: string)

  function Perform(t: Table, w: Write): Table {
    match w
    case PutAlias(d, l, ds) => if d in t then t[d := t[d].(aliases := t[d].aliases[l := ds])] else t
    case DropAlias(d, l) => if d in t then t[d := t[d].(aliases := t[d].aliases - {l})] else t
    case PutMailbox(d, l) => if d in t then t[d := t[d].(mailboxes := t[d].mailboxes + {l})] else t
    case DropMailbox(d, l) => if d in t then t[d := t[d].(mailboxes := t[d].mailboxes - {l})] else t
    case PutDomain(d) => t[d := DomainRouting({}, map[])]
    case DropDomain(d) => t - {d}
  }

  /** What the services make sure of before a write. For a named alias: the resolver, asked about the table with
      the write made, finds no cycle from the alias; it is only asked when the address parses. A catch-all is
      written, and rows are removed, unasked. */
  ghost predicate Allowed(t: Table, w: Write) {
    match w
    case PutAlias(d, l, ds) =>
      d in t && l !in t[d].mailboxes && l !in RESERVED_LOCAL_PARTS
      && (l == CATCH_ALL
          || (IsStoredName(l)
              && (ParseAddress(Address(l, d), true).Some? ==> NoCycleFrom(Perform(t, w), Address(l, d)))))
    case PutMailbox(d, l) => d in t && IsStoredName(l) && l !in t[d].aliases && l !in RESERVED_LOCAL_PARTS
    case PutDomain(d) => IsStoredDomain(d) && d !in t
    case _ => true
  }

  ghost predicate ValidWrites(t: Table, ws: seq<Write>)
    decreases |ws|
  {
    ws == [] || (Allowed(t, ws[0]) && ValidWrites(Perform(t, ws[0]), ws[1..]))
  }

  function AfterWrites(t: Table, ws: seq<Write>): Table
    decreases |ws|
  {
    if ws == [] then t else AfterWrites(Perform(t, ws[0]), ws[1..])
  }

  // ---------- Edges ----------

  lemma EdgeEndsNormal(t: Table, a: string, b: string)
    requires Edge(t, a, b)
    ensures Normalise(b) == b
  {
    hide Normalise, TargetOf;
    var i :| 0 <= i < |TargetOf(a, t).destinations| && Normalise(TargetOf(a, t).destinations[i]) == b;
    NormaliseShape(TargetOf(a, t).destinations[i]);
    NormaliseShape(b);
  }

  lemma CycleIsNormal(t: Table, p: seq<string>, i: nat)
    requires IsCycle(t, p) && i < |p|
    ensures Normalise(p[i]) == p[i]
  {
    hide Edge, Normalise;
    var k := if i == 0 then |p| - 2 else i - 1;
    assert Edge(t, p[k], p[k + 1]);
    EdgeEndsNormal(t, p[k], p[k + 1]);
  }

  lemma CycleIsForwarded(t: Table, p: seq<string>, i: nat)
    requires IsCycle(t, p) && i < |p|
    ensures TargetOf(p[i], t).Forwarded?
  {
    hide TargetOf, Normalise;
    var k := if i == |p| - 1 then 0 else i;
    assert Edge(t, p[k], p[k + 1]);
  }

  lemma SameTargetSameEdges(t: Table, after: Table, a: string, b: string)
    requires TargetOf(a, after) == TargetOf(a, t)
    ensures Edge(after, a, b) <==> Edge(t, a, b)
  {
    hide TargetOf, Normalise;
  }

  /** A cycle of which every address is forwarded as before was there before. */
  lemma OldCycle(t: Table, after: Table, p: seq<string>)
    requires IsCycle(after, p) && forall i :: 0 <= i < |p| ==> TargetOf(p[i], after) == TargetOf(p[i], t)
    ensures IsCycle(t, p)
  {
    hide Edge, TargetOf;
    forall i | 0 <= i < |p| - 1
      ensures Edge(t, p[i], p[i + 1])
    {
      SameTargetSameEdges(t, after, p[i], p[i + 1]);
    }
  }

  lemma EndOfCycle(t: Table, p: seq<string>, i: nat)
    requires IsCycle(t, p) && i < |p|
    ensures Reaches(t, p[i], p[0])
  {
    hide Edge;
    var q := p[i..];
    forall j | 0 <= j < |q| - 1
      ensures Edge(t, q[j], q[j + 1])
    {
      assert q[j] == p[i + j] && q[j + 1] == p[i + j + 1];
    }
    assert IsPath(t, q) && q[0] == p[i] && Last(q) == p[0];
  }

  /** A cycle through any spelling of an address is seen from its normal form. */
  lemma CycleThrough(t: Table, d: string, l: string, p: seq<string>, i: nat)
    requires IsCycle(t, p) && i < |p| && ParseAddress(p[i], false) == Some(AddressParts(l, d))
    ensures p[i] == Address(l, d) && !NoCycleFrom(t, Address(l, d))
  {
    hide Edge, IsPath, Reaches, ParseAddress, Normalise, Address;
    CycleIsNormal(t, p, i);
    ParseIsNormal(p[i], false);
    EndOfCycle(t, p, i);
  }

  // ---------- Changing what is said of one address ----------

  /** A write after which only the spellings of one address may forward to something new keeps the graph
      without cycles exactly when the resolver, asked about that address, can reach none. */
  lemma ChangedAtOneAddress(t: Table, after: Table, d: string, l: string)
    requires Acyclic(t)
    requires forall a :: TargetOf(a, after).Forwarded? && ParseAddress(a, false) != Some(AddressParts(l, d)) ==>
                           TargetOf(a, after) == TargetOf(a, t)
    ensures Acyclic(after) <==> NoCycleFrom(after, Address(l, d))
  {
    hide TargetOf, ParseAddress, Address, Reaches, IsPath;
    if NoCycleFrom(after, Address(l, d)) {
      forall p | IsCycle(after, p)
        ensures false
      {
        forall i | 0 <= i < |p|
          ensures TargetOf(p[i], after) == TargetOf(p[i], t)
        {
          CycleIsForwarded(after, p, i);
          if ParseAddress(p[i], false) == Some(AddressParts(l, d)) {
            CycleThrough(after, d, l, p, i);
          }
        }
        OldCycle(t, after, p);
      }
    }
  }

  /** The check of a named alias is exact: any cycle the write closes passes through the alias, so the resolver
      sees it from there; and what it sees is a cycle. */
  lemma AliasKeepsAcyclicIff(t: Table, d: string, l: string, ds: seq<string>)
    requires Acyclic(t) && d in t && l != CATCH_ALL
    ensures Acyclic(Perform(t, PutAlias(d, l, ds))) <==> NoCycleFrom(Perform(t, PutAlias(d, l, ds)), Address(l, d))
  {
    hide Acyclic, NoCycleFrom, ParseAddress, Address;
    ChangedAtOneAddress(t, Perform(t, PutAlias(d, l, ds)), d, l);
  }

  /** Removing a mailbox or an alias frees its address, which may then fall to a catch-all. It keeps the graph
      without cycles exactly when the resolver, asked about the freed address afterwards, can reach none. */
  lemma RemovalKeepsAcyclicIff(t: Table, w: Write)
    requires Acyclic(t) && (w.DropAlias? || w.DropMailbox?)
    ensures Acyclic(Perform(t, w)) <==> NoCycleFrom(Perform(t, w), Address(w.localPart, w.domain))
  {
    hide Acyclic, NoCycleFrom, ParseAddress, Address;
    ChangedAtOneAddress(t, Perform(t, w), w.domain, w.localPart);
  }

  /** Writing a catch-all, a first or a new one, keeps the graph without cycles exactly when the resolver, asked
      about each of its destinations in the table with the catch-all in place, can reach none. */
  lemma CatchAllKeepsAcyclicIff(t: Table, domain: string, ds: seq<string>)
    requires Acyclic(t) && domain in t
    ensures var after := Perform(t, PutAlias(domain, CATCH_ALL, ds));
            Acyclic(after) <==> forall i :: 0 <= i < |ds| ==> NoCycleFrom(after, Normalise(ds[i]))
  {
    hide Edge, ParseAddress, TargetOf, Normalise, Reaches, IsPath;
    var after := Perform(t, PutAlias(domain, CATCH_ALL, ds));
    if forall i :: 0 <= i < |ds| ==> NoCycleFrom(after, Normalise(ds[i])) {
      forall p | IsCycle(after, p)
        ensures IsCycle(t, p)
      {
        NewCycleFromDestination(t, domain, ds, p);
      }
    }
  }

  lemma NewCycleFromDestination(t: Table, domain: string, ds: seq<string>, p: seq<string>)
    requires domain in t && IsCycle(Perform(t, PutAlias(domain, CATCH_ALL, ds)), p)
    ensures IsCycle(t, p)
            || exists i :: 0 <= i < |ds| && Reaches(Perform(t, PutAlias(domain, CATCH_ALL, ds)), Normalise(ds[i]), p[0])
  {
    hide Edge, ParseAddress, TargetOf, Normalise, Perform, Reaches;
    var after := Perform(t, PutAlias(domain, CATCH_ALL, ds));
    if !IsCycle(t, p) {
      var k :| 0 <= k < |p| - 1 && !Edge(t, p[k], p[k + 1]);
      assert Edge(after, p[k], p[k + 1]);
      NewEdgeIsCatchAll(t, domain, ds, p[k], p[k + 1]);
      var i :| 0 <= i < |ds| && Normalise(ds[i]) == p[k + 1];
      EndOfCycle(after, p, k + 1);
    }
  }

  lemma NewEdgeIsCatchAll(t: Table, domain: string, ds: seq<string>, a: string, b: string)
    requires domain in t
    requires Edge(Perform(t, PutAlias(domain, CATCH_ALL, ds)), a, b) && !Edge(t, a, b)
    ensures exists i :: 0 <= i < |ds| && Normalise(ds[i]) == b
  {
    hide ParseAddress, Normalise;
  }

  // ---------- What every run keeps ----------

  lemma NamesAreNotCatchAll(a: string)
    ensures ParseAddress(a, false).Some? ==> ParseAddress(a, false).value.localPart != CATCH_ALL
  {
    hide Split, Normalise, IsValidDomain;
    assert Normalise(CATCH_ALL) == CATCH_ALL by {
      assert IsNormal(CATCH_ALL);
      NormaliseShape(CATCH_ALL);
    }
    assert !IsValidLocalPart(CATCH_ALL, false);
  }

  /** After an allowed write a named alias other than the one written forwards as it did. */
  lemma NamedIsOld(t: Table, w: Write, a: string)
    requires TableInv(t) && Allowed(t, w) && IsNamedAlias(Perform(t, w), a)
    requires w.PutAlias? ==> ParseAddress(a, false) != Some(AddressParts(w.localPart, w.domain))
    ensures TargetOf(a, t) == TargetOf(a, Perform(t, w))
  {
    hide ParseAddress, IsStoredDomain, IsStoredName, NoCycleFrom;
  }

  lemma WriteKeepsTables(t: Table, w: Write)
    requires TableInv(t) && Allowed(t, w)
    ensures TableInv(Perform(t, w))
  {
    hide RESERVED_LOCAL_PARTS, IsStoredDomain, IsStoredName, ParseAddress, NoCycleFrom;
  }

  lemma StorageIsStricter(l: string)
    requires IsStoredName(l)
    ensures IsValidLocalPart(l, false)
  {
    hide Normalise, IsNormal;
  }

  /** What is checked for an alias is that no cycle leads through it. */
  lemma AllowedAliasIsNotOnCycle(t: Table, w: Write, p: seq<string>, i: nat)
    requires TableInv(t) && Allowed(t, w) && w.PutAlias? && IsCycle(Perform(t, w), p) && i < |p|
    ensures ParseAddress(p[i], false) != Some(AddressParts(w.localPart, w.domain))
  {
    hide IsCycle, ParseAddress, NoCycleFrom, IsValidDomain, IsValidLocalPart, IsNormal, Address, Perform;
    var l, d := w.localPart, w.domain;
    if ParseAddress(p[i], false) == Some(AddressParts(l, d)) {
      NamesAreNotCatchAll(p[i]);
      CycleThrough(Perform(t, w), d, l, p, i);
      assert IsStoredDomain(d);
      StorageIsStricter(l);
      ParseOfAddress(l, d, false);
      ParseOfAddress(l, d, true);
    }
  }

  /** A cycle without catch-alls would have been there before. */
  lemma WriteKeepsLoopsNeedCatchAll(t: Table, w: Write)
    requires MailInv(t) && Allowed(t, w)
    ensures LoopsNeedCatchAll(Perform(t, w))
  {
    hide IsPath, TableInv, Allowed, Perform, TargetOf, ParseAddress, IsCaught, IsNamed, IsMailbox, IsHosted, IsForeign;
    var after := Perform(t, w);
    forall p | IsCycle(after, p)
      ensures exists i :: 0 <= i < |p| && IsCaught(after, p[i])
    {
      if forall i :: 0 <= i < |p| ==> !IsCaught(after, p[i]) {
        forall i | 0 <= i < |p|
          ensures TargetOf(p[i], after) == TargetOf(p[i], t)
          ensures IsCaught(t, p[i]) ==> IsCaught(after, p[i])
        {
          CycleIsForwarded(after, p, i);
          if w.PutAlias? {
            AllowedAliasIsNotOnCycle(t, w, p, i);
          }
          TargetMeans(after, p[i]);
          NamedIsOld(t, w, p[i]);
          TargetMeans(t, p[i]);
        }
        OldCycle(t, after, p);
      }
    }
  }

  lemma WriteKeepsInv(t: Table, w: Write)
    requires MailInv(t) && Allowed(t, w)
    ensures MailInv(Perform(t, w))
  {
    hide LoopsNeedCatchAll, TableInv, Perform, Allowed;
    WriteKeepsTables(t, w);
    WriteKeepsLoopsNeedCatchAll(t, w);
  }

  lemma {:induction false} WritesKeepInv(t: Table, ws: seq<Write>)
    requires MailInv(t) && ValidWrites(t, ws)
    ensures MailInv(AfterWrites(t, ws))
    decreases |ws|
  {
    hide MailInv, Allowed, Perform;
    if ws != [] {
      WriteKeepsInv(t, ws[0]);
      WritesKeepInv(Perform(t, ws[0]), ws[1..]);
    }
  }

  lemma NoCatchAllNoLoop(t: Table)
    requires LoopsNeedCatchAll(t) && NoCatchAll(t)
    ensures Acyclic(t)
  {
    hide ParseAddress, IsCycle;
  }

  /** Only a catch-all can make mail loop: starting with nothing, after any run of the writes the services allow,
      catch-alls and removals included, every cycle leads through an address that a catch-all forwards. So while
      no domain has a catch-all there is no loop at all. And no name is both a mailbox and an alias, and none is
      reserved. */
  lemma NeverALoopWithoutCatchAll(ws: seq<Write>)
    requires ValidWrites(map[], ws)
    ensures var t := AfterWrites(map[], ws);
            TableInv(t) && LoopsNeedCatchAll(t) && (NoCatchAll(t) ==> Acyclic(t))
  {
    hide ValidWrites, AfterWrites, LoopsNeedCatchAll, NoCatchAll, Acyclic;
    EmptyTable();
    WritesKeepInv(map[], ws);
    if NoCatchAll(AfterWrites(map[], ws)) {
      NoCatchAllNoLoop(AfterWrites(map[], ws));
    }
  }

  lemma EmptyTable()
    ensures MailInv(map[]) && Acyclic(map[])
  {
    forall p
      ensures !IsCycle(map[], p)
    {
      if |p| >= 2 {
        NoEdges(map[], p[0]);
        assert !Edge(map[], p[0], p[0 + 1]);
      }
    }
  }

  // ---------- The check that would settle it ----------

  /** What the resolver would have to be asked after each kind of write. The code asks only in the first case,
      and only for named aliases. */
  ghost predicate Checked(t: Table, w: Write) {
    match w
    case PutAlias(d, l, ds) =>
      l == CATCH_ALL ==> forall i :: 0 <= i < |ds| ==> NoCycleFrom(Perform(t, w), Normalise(ds[i]))
    case DropAlias(d, l) => NoCycleFrom(Perform(t, w), Address(l, d))
    case DropMailbox(d, l) => NoCycleFrom(Perform(t, w), Address(l, d))
    case _ => true
  }

  /** An allowed write keeps mail from looping exactly when that check passes. */
  lemma WriteKeepsLoopFreeIff(t: Table, w: Write)
    requires LoopFree(t) && Allowed(t, w)
    ensures LoopFree(Perform(t, w)) <==> Checked(t, w)
  {
    hide Acyclic, NoCycleFrom, TableInv, Normalise, ParseAddress, Address, Perform, IsStoredName, IsStoredDomain;
    WriteKeepsTables(t, w);
    match w
    case PutAlias(d, l, ds) =>
      if l == CATCH_ALL {
        CatchAllKeepsAcyclicIff(t, d, ds);
      } else {
        AllowedAliasKeepsAcyclic(t, w);
      }
    case DropAlias(_, _) => RemovalKeepsAcyclicIff(t, w);
    case DropMailbox(_, _) => RemovalKeepsAcyclicIff(t, w);
    case _ => OtherWriteKeepsAcyclic(t, w);
  }

  lemma AllowedAliasKeepsAcyclic(t: Table, w: Write)
    requires LoopFree(t) && Allowed(t, w) && w.PutAlias? && w.localPart != CATCH_ALL
    ensures Acyclic(Perform(t, w))
  {
    hide TargetOf, ParseAddress, Address, IsPath, TableInv, Allowed, Perform;
    forall p | IsCycle(Perform(t, w), p)
      ensures false
    {
      forall i | 0 <= i < |p|
        ensures TargetOf(p[i], Perform(t, w)) == TargetOf(p[i], t)
      {
        AllowedAliasIsNotOnCycle(t, w, p, i);
        AliasIsLocal(t, w, p[i]);
      }
      OldCycle(t, Perform(t, w), p);
    }
  }

  /** Writing a named alias changes what is said of its own address only. */
  lemma AliasIsLocal(t: Table, w: Write, a: string)
    requires w.PutAlias? && w.localPart != CATCH_ALL
    requires ParseAddress(a, false) != Some(AddressParts(w.localPart, w.domain))
    ensures TargetOf(a, Perform(t, w)) == TargetOf(a, t)
  {
    hide ParseAddress;
  }

  lemma OtherWriteKeepsAcyclic(t: Table, w: Write)
    requires LoopFree(t) && Allowed(t, w) && (w.PutMailbox? || w.PutDomain? || w.DropDomain?)
    ensures Acyclic(Perform(t, w))
  {
    hide TargetOf, ParseAddress, IsPath, TableInv, Allowed, Perform;
    forall p | IsCycle(Perform(t, w), p)
      ensures false
    {
      forall i | 0 <= i < |p|
        ensures TargetOf(p[i], Perform(t, w)) == TargetOf(p[i], t)
      {
        CycleIsForwarded(Perform(t, w), p, i);
        OtherWriteKeepsForwarding(t, w, p[i]);
      }
      OldCycle(t, Perform(t, w), p);
    }
  }

  lemma OtherWriteKeepsForwarding(t: Table, w: Write, a: string)
    requires Allowed(t, w) && (w.PutMailbox? || w.PutDomain? || w.DropDomain?)
    ensures TargetOf(a, Perform(t, w)).Forwarded? ==> TargetOf(a, t) == TargetOf(a, Perform(t, w))
  {
    hide ParseAddress, IsStoredDomain, IsStoredName;
  }

  ghost predicate AllChecked(t: Table, ws: seq<Write>)
    decreases |ws|
  {
    ws == [] || (Checked(t, ws[0]) && AllChecked(Perform(t, ws[0]), ws[1..]))
  }

  ghost predicate LoopFreeThroughout(t: Table, ws: seq<Write>)
    decreases |ws|
  {
    LoopFree(t) && (ws == [] || LoopFreeThroughout(Perform(t, ws[0]), ws[1..]))
  }

  /** Over whole runs, catch-alls and removals included: mail never loops at any point of a run exactly when the
      check would have passed at each of its writes. */
  lemma {:induction false} NeverALoopIff(t: Table, ws: seq<Write>)
    requires LoopFree(t) && ValidWrites(t, ws)
    ensures LoopFreeThroughout(t, ws) <==> AllChecked(t, ws)
    decreases |ws|
  {
    hide LoopFree, Allowed, Perform, Checked;
    if ws != [] {
      WriteKeepsLoopFreeIff(t, ws[0]);
      if LoopFree(Perform(t, ws[0])) {
        NeverALoopIff(Perform(t, ws[0]), ws[1..]);
      }
    }
  }

  // ---------- Where the code does not look ----------

  /** The catch-all is never asked about: `*` is no address. */
  lemma CatchAllIsNotAsked(domain: string)
    requires IsStoredDomain(domain)
    ensures ParseAddress(Address(CATCH_ALL, domain), true).None?
  {
    hide Split, Normalise, IsValidDomain;
    var a := Address(CATCH_ALL, domain);
    NonEmptyDomain(domain);
    assert IsNormal(CATCH_ALL);
    NormaliseShape(CATCH_ALL);
    NormalConcat(CATCH_ALL, '@', domain);
    NormaliseShape(a);
    DomainHasNoAt(domain);
    var at := LastIndexOf(a, '@');
    assert a[1] == '@';
    forall j | 1 < j < |a|
      ensures a[j] != '@'
    {
      assert a[j] == domain[j - 2];
    }
    assert at == 1 && a[..at] == CATCH_ALL;
    assert !IsValidLocalPart(CATCH_ALL, true);
  }

  lemma NonEmptyDomain(domain: string)
    requires IsStoredDomain(domain)
    ensures domain != []
  {
    hide Split;
    NormaliseShape(domain);
  }

  /** So a catch-all can close a loop: pointed at any unused address of its own domain, it does. */
  lemma CatchAllCanLoop(t: Table, domain: string, localPart: string)
    requires domain in t && IsStoredDomain(domain) && IsStoredName(localPart)
    requires localPart !in t[domain].mailboxes && localPart !in t[domain].aliases
    requires |localPart| + 1 + |domain| <= MAX_ADDRESS
    ensures !Acyclic(Perform(t, PutAlias(domain, CATCH_ALL, [Address(localPart, domain)])))
  {
    hide Normalise, ParseAddress, IsNormal, IsValidDomain, IsValidLocalPart, Address;
    var a := Address(localPart, domain);
    var after := Perform(t, PutAlias(domain, CATCH_ALL, [a]));
    StorageIsStricter(localPart);
    ParseOfAddress(localPart, domain, false);
    assert TargetOf(a, after) == Forwarded([a], true) by { NotTheCatchAll(localPart); }
    assert Normalise(TargetOf(a, after).destinations[0]) == a;
    assert Edge(after, a, a);
    assert IsCycle(after, [a, a]);
  }

  lemma NotTheCatchAll(localPart: string)
    requires IsStoredName(localPart)
    ensures localPart != CATCH_ALL
  {
    NormaliseShape(CATCH_ALL);
  }

  /** And a removal can: pointed at a mailbox of its own domain a catch-all is harmless, until the mailbox is
      removed and its address falls to the catch-all. */
  lemma RemovalCanLoop(t: Table, domain: string, localPart: string)
    requires LoopFree(t) && domain in t && localPart in t[domain].mailboxes
    requires |localPart| + 1 + |domain| <= MAX_ADDRESS
    ensures var caught := Perform(t, PutAlias(domain, CATCH_ALL, [Address(localPart, domain)]));
            LoopFree(caught) && !Acyclic(Perform(caught, DropMailbox(domain, localPart)))
  {
    hide Normalise, ParseAddress, IsNormal, IsValidDomain, IsValidLocalPart, Address, Acyclic, NoCycleFrom;
    var a := Address(localPart, domain);
    var w := PutAlias(domain, CATCH_ALL, [a]);
    var caught := Perform(t, w);
    assert IsStoredDomain(domain) && IsStoredName(localPart);
    NotTheCatchAll(localPart);
    assert CATCH_ALL !in t[domain].mailboxes by { CatchAllIsNoName(); }
    StorageIsStricter(localPart);
    ParseOfAddress(localPart, domain, false);
    NoEdges(caught, a);
    NoCycleFromFinished(caught, [a], a) by { Leaf(caught, a); }
    WriteKeepsLoopFreeIff(t, w);
    CatchAllToItself(t, domain, localPart);
  }

  lemma CatchAllIsNoName()
    ensures !IsStoredName(CATCH_ALL)
  {
    NormaliseShape(CATCH_ALL);
  }

  lemma Leaf(t: Table, a: string)
    requires forall b :: !Edge(t, a, b)
    ensures Topological(t, [a])
  {
    hide Edge;
  }

  lemma CatchAllToItself(t: Table, domain: string, localPart: string)
    requires TableInv(t) && domain in t && localPart in t[domain].mailboxes
    requires |localPart| + 1 + |domain| <= MAX_ADDRESS
    ensures var caught := Perform(t, PutAlias(domain, CATCH_ALL, [Address(localPart, domain)]));
            !Acyclic(Perform(caught, DropMailbox(domain, localPart)))
  {
    hide Normalise, ParseAddress, IsNormal, IsValidDomain, IsValidLocalPart, Address;
    var a := Address(localPart, domain);
    var after := Perform(Perform(t, PutAlias(domain, CATCH_ALL, [a])), DropMailbox(domain, localPart));
    assert IsStoredDomain(domain) && IsStoredName(localPart);
    NotTheCatchAll(localPart);
    StorageIsStricter(localPart);
    ParseOfAddress(localPart, domain, false);
    assert TargetOf(a, after) == Forwarded([a], true);
    assert Normalise(TargetOf(a, after).destinations[0]) == a;
    assert Edge(after, a, a);
    assert IsCycle(after, [a, a]);
  }

  // ---------- Two writers at once ----------

  /** The row a write goes to belongs to a domain that is gone; then it changes nothing. */
  predicate IsMoot(t: Table, w: Write) {
    !w.PutDomain? && w.domain !in t
  }

  /** Two different writes that were both checked on the same table, made one after the other, leave mail without
      loops and no name used twice exactly when the second would pass its checks again after the first. */
  lemma ConcurrentWritesAreSafeIff(t: Table, w1: Write, w2: Write)
    requires LoopFree(t) && w1 != w2
    requires Allowed(t, w1) && Checked(t, w1) && Allowed(t, w2) && Checked(t, w2)
    ensures var first := Perform(t, w1);
            LoopFree(Perform(first, w2)) <==> IsMoot(first, w2) || (Allowed(first, w2) && Checked(first, w2))
  {
    hide LoopFree, Allowed, Checked, Perform, IsMoot;
    var first := Perform(t, w1);
    WriteKeepsLoopFreeIff(t, w1);
    if IsMoot(first, w2) {
      MootChangesNothing(first, w2);
    } else {
      if LoopFree(Perform(first, w2)) {
        SecondIsAllowed(t, w1, w2);
      }
      if Allowed(first, w2) {
        WriteKeepsLoopFreeIff(first, w2);
      }
    }
  }

  lemma MootChangesNothing(t: Table, w: Write)
    requires IsMoot(t, w)
    ensures Perform(t, w) == t
  {
    if w.DropDomain? {
      assert t - {w.domain} == t;
    }
  }

  lemma SecondIsAllowed(t: Table, w1: Write, w2: Write)
    requires w1 != w2 && Allowed(t, w2) && !IsMoot(Perform(t, w1), w2)
    requires LoopFree(Perform(Perform(t, w1), w2))
    ensures Allowed(Perform(t, w1), w2)
  {
    hide IsStoredDomain, IsStoredName, ParseAddress, Reaches, IsCycle;
    var first := Perform(t, w1);
    var after := Perform(first, w2);
    if w2.PutAlias? {
      assert w2.localPart in after[w2.domain].aliases && after[w2.domain].mailboxes == first[w2.domain].mailboxes;
    } else if w2.PutMailbox? {
      assert w2.localPart in after[w2.domain].mailboxes && after[w2.domain].aliases == first[w2.domain].aliases;
    } else if w2.PutDomain? {
      assert w2.domain in first ==> w1 == w2;
    }
  }

  /** They need not be: any two unused addresses of a domain may each be
      pointed at the other, both checks pass on the table as it was, and both writes together make a loop. */
  lemma ConcurrentWritersCanLoop(t: Table, d: string, l1: string, l2: string)
    requires TableInv(t) && d in t && CATCH_ALL !in t[d].aliases
    requires IsStoredName(l1) && IsStoredName(l2) && l1 != l2
    requires l1 !in RESERVED_LOCAL_PARTS && l2 !in RESERVED_LOCAL_PARTS
    requires l1 !in t[d].mailboxes && l1 !in t[d].aliases && l2 !in t[d].mailboxes && l2 !in t[d].aliases
    requires |l1| + 1 + |d| <= MAX_ADDRESS && |l2| + 1 + |d| <= MAX_ADDRESS
    ensures var first, second := PutAlias(d, l1, [Address(l2, d)]), PutAlias(d, l2, [Address(l1, d)]);
            Allowed(t, first) && Allowed(t, second) && !Acyclic(Perform(Perform(t, first), second))
  {
    hide Normalise, ParseAddress, IsNormal, IsValidDomain, IsValidLocalPart, Address, NoCycleFrom, Acyclic;
    AloneIsAllowed(t, d, l1, l2);
    AloneIsAllowed(t, d, l2, l1);
    CrossedAliasesLoop(t, d, l1, l2);
  }

  lemma CrossedAliasesLoop(t: Table, d: string, l1: string, l2: string)
    requires d in t && IsStoredDomain(d) && IsStoredName(l1) && IsStoredName(l2) && l1 != l2
    requires l1 !in t[d].mailboxes && l2 !in t[d].mailboxes
    requires |l1| + 1 + |d| <= MAX_ADDRESS && |l2| + 1 + |d| <= MAX_ADDRESS
    ensures !Acyclic(Perform(Perform(t, PutAlias(d, l1, [Address(l2, d)])), PutAlias(d, l2, [Address(l1, d)])))
  {
    hide Normalise, ParseAddress, IsNormal, IsValidDomain, IsValidLocalPart, Address;
    var a1, a2 := Address(l1, d), Address(l2, d);
    var after := Perform(Perform(t, PutAlias(d, l1, [a2])), PutAlias(d, l2, [a1]));
    StorageIsStricter(l1);
    StorageIsStricter(l2);
    ParseOfAddress(l1, d, false);
    ParseOfAddress(l2, d, false);
    assert TargetOf(a1, after) == Forwarded([a2], false) && TargetOf(a2, after) == Forwarded([a1], false);
    assert Normalise(TargetOf(a1, after).destinations[0]) == a2 && Normalise(TargetOf(a2, after).destinations[0]) == a1;
    assert Edge(after, a1, a2) && Edge(after, a2, a1);
    assert IsCycle(after, [a1, a2, a1]);
  }

  lemma OneStepToLeaf(t: Table, a: string, leaf: string)
    requires (forall b :: Edge(t, a, b) ==> b == leaf) && forall b :: !Edge(t, leaf, b)
    ensures Topological(t, [leaf, a])
  {
    hide Edge;
    var f := [leaf, a];
    assert f[..1] == [leaf];
  }

  /** Pointing an unused address at another unused one of the domain is allowed: nothing leads on from there. */
  lemma AloneIsAllowed(t: Table, d: string, l1: string, l2: string)
    requires TableInv(t) && d in t && CATCH_ALL !in t[d].aliases
    requires IsStoredName(l1) && IsStoredName(l2) && l1 != l2
    requires l1 !in RESERVED_LOCAL_PARTS && l2 !in RESERVED_LOCAL_PARTS
    requires l1 !in t[d].mailboxes && l2 !in t[d].mailboxes && l2 !in t[d].aliases
    requires |l2| + 1 + |d| <= MAX_ADDRESS
    ensures Allowed(t, PutAlias(d, l1, [Address(l2, d)]))
  {
    hide Normalise, ParseAddress, IsNormal, IsValidDomain, IsValidLocalPart, Address, Reaches;
    var a2 := Address(l2, d);
    var after := Perform(t, PutAlias(d, l1, [a2]));
    NotTheCatchAll(l1);
    StorageIsStricter(l2);
    ParseOfAddress(l2, d, false);
    if ParseAddress(Address(l1, d), true).Some? {
      StorageIsStricter(l1);
      ParseOfAddress(l1, d, true);
      ParseOfAddress(l1, d, false);
      assert IsStoredDomain(d);
      assert TargetOf(a2, after) == Undeliverable && TargetOf(Address(l1, d), after) == Forwarded([a2], false);
      NoEdges(after, a2);
      EdgesAre(after, Address(l1, d));
      NoCycleFromFinished(after, [a2, Address(l1, d)], Address(l1, d)) by {
        OneStepToLeaf(after, Address(l1, d), a2);
      }
    }
  }
}
