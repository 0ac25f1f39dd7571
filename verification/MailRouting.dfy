/**
 Where an address delivers, and whether aliases loop (backend/src/mail/mail-routing.ts).

 Addresses are the nodes of a graph; an address that is forwarded has an edge to each destination.
 */
module MailRouting {
  import opened Options
  import opened Strings
  import opened MailAddress
  import opened Sequences

  datatype DomainRouting = DomainRouting(mailboxes: set<string>, aliases: map<string, seq<string>>)

  type Table = map<string, DomainRouting>

  const MAX_DEPTH := 20

  // ---------- The routing graph ----------

  datatype Target =
    | Unaddressable
    | External
    | Delivered
    | Forwarded(destinations: seq<string>, viaCatchAll: bool)
    | Undeliverable

  /** What the table says about an address: a mailbox wins over an alias, a named alias over the catch-all. */
  function TargetOf(node: string, t: Table): Target {
    var parsed := ParseAddress(node, false);
    if parsed.None? then Unaddressable
    else
      var parts := parsed.value;
      if parts.domain !in t then External
      else
        var routing := t[parts.domain];
        if parts.localPart in routing.mailboxes then Delivered
        else if parts.localPart in routing.aliases then Forwarded(routing.aliases[parts.localPart], false)
        else if CATCH_ALL in routing.aliases then Forwarded(routing.aliases[CATCH_ALL], true)
        else Undeliverable
  }

  // What an address is, from the table alone.

  predicate IsHosted(t: Table, node: string) {
    ParseAddress(node, false).Some? && ParseAddress(node, false).value.domain in t
  }

  predicate IsForeign(t: Table, node: string) {
    ParseAddress(node, false).Some? && ParseAddress(node, false).value.domain !in t
  }

  predicate IsMailbox(t: Table, node: string) {
    IsHosted(t, node)
    && var parts := ParseAddress(node, false).value;
       parts.localPart in t[parts.domain].mailboxes
  }

  predicate IsNamed(t: Table, node: string) {
    IsHosted(t, node)
    && var parts := ParseAddress(node, false).value;
       parts.localPart in t[parts.domain].mailboxes || parts.localPart in t[parts.domain].aliases
  }

  predicate IsCaught(t: Table, node: string) {
    IsHosted(t, node) && !IsNamed(t, node) && CATCH_ALL in t[ParseAddress(node, false).value.domain].aliases
  }

  /** Where the walk goes from an address, and where it stops: a mailbox comes before an alias, a named alias before
      the catch-all, and without any of them nothing delivers. */
  lemma TargetMeans(t: Table, node: string)
    ensures TargetOf(node, t).Unaddressable? <==> ParseAddress(node, false).None?
    ensures TargetOf(node, t).External? <==> IsForeign(t, node)
    ensures TargetOf(node, t).Delivered? <==> IsMailbox(t, node)
    ensures TargetOf(node, t).Forwarded? <==> (IsNamed(t, node) && !IsMailbox(t, node)) || IsCaught(t, node)
    ensures TargetOf(node, t).Undeliverable? <==> IsHosted(t, node) && !IsNamed(t, node) && !IsCaught(t, node)
    ensures TargetOf(node, t).Forwarded? ==>
              var target, parts := TargetOf(node, t), ParseAddress(node, false).value;
              (target.viaCatchAll <==> IsCaught(t, node))
              && target.destinations
                 == t[parts.domain].aliases[if IsCaught(t, node) then CATCH_ALL else parts.localPart]
  {
    hide ParseAddress;
  }

  ghost predicate Edge(t: Table, a: string, b: string) {
    TargetOf(a, t).Forwarded?
    && exists i :: 0 <= i < |TargetOf(a, t).destinations| && Normalise(TargetOf(a, t).destinations[i]) == b
  }

  ghost predicate IsPath(t: Table, p: seq<string>) {
    p != [] && forall i :: 0 <= i < |p| - 1 ==> Edge(t, p[i], p[i + 1])
  }

  function Last<T>(s: seq<T>): T
    requires s != []
  {
    s[|s| - 1]
  }

  ghost predicate Reaches(t: Table, a: string, b: string) {
    exists p :: IsPath(t, p) && p[0] == a && Last(p) == b
  }

  ghost predicate IsCycle(t: Table, p: seq<string>) {
    |p| >= 2 && IsPath(t, p) && p[0] == Last(p)
  }

  ghost predicate NoCycleFrom(t: Table, a: string) {
    forall p :: IsCycle(t, p) ==> !Reaches(t, a, p[0])
  }

  ghost predicate Acyclic(t: Table) {
    forall p :: !IsCycle(t, p)
  }

  /** What a reported loop is: a cycle that can be reached, or a chain longer than anybody intends. */
  ghost predicate IsReason(t: Table, start: string, loop: seq<string>) {
    || (IsCycle(t, loop) && Reaches(t, start, loop[0]))
    || (|loop| == MAX_DEPTH + 1 && IsPath(t, loop) && loop[0] == start && Distinct(loop))
  }

  datatype Resolution = Resolution(deliverTo: set<string>, external: set<string>, loop: Option<seq<string>>,
      viaCatchAll: bool)

  /** A resolution without a loop is exact: no cycle can be reached, and the results are what can be. */
  ghost predicate IsExact(t: Table, start: string, r: Resolution) {
    && NoCycleFrom(t, start)
    && (forall x :: x in r.deliverTo <==> Reaches(t, start, x) && IsMailbox(t, x))
    && (forall x :: x in r.external <==> Reaches(t, start, x) && IsForeign(t, x))
    && (r.viaCatchAll <==> exists x :: Reaches(t, start, x) && IsCaught(t, x))
  }

  // ---------- Finishing order ----------

  /** Everything an address forwards to was finished before it. */
  ghost predicate Topological(t: Table, f: seq<string>) {
    forall i, b :: 0 <= i < |f| && Edge(t, f[i], b) ==> b in f[..i]
  }

  /** A path of two or more addresses from a finished one ends at one finished earlier. */
  lemma {:induction false} PathGoesBack(t: Table, f: seq<string>, p: seq<string>, i: nat)
    requires Topological(t, f) && IsPath(t, p) && i < |f| && p[0] == f[i]
    ensures if |p| >= 2 then Last(p) in f[..i] else Last(p) == f[i]
    decreases |p|
  {
    hide Edge;
    if |p| >= 2 {
      assert Edge(t, p[0], p[1]);
      var k :| 0 <= k < i && f[..i][k] == p[1];
      forall j | 0 <= j < |p[1..]| - 1
        ensures Edge(t, p[1..][j], p[1..][j + 1])
      {
        assert Edge(t, p[j + 1], p[j + 1 + 1]);
      }
      PathGoesBack(t, f, p[1..], k);
      assert Last(p) == Last(p[1..]);
    }
  }

  lemma {:induction false} NoCycleAmongFinished(t: Table, f: seq<string>, p: seq<string>, i: nat)
    requires Topological(t, f) && i < |f| && IsCycle(t, p)
    ensures f[i] != p[0]
    decreases i
  {
    hide Edge;
    if f[i] == p[0] {
      PathGoesBack(t, f, p, i);
      var k :| 0 <= k < i && f[..i][k] == p[0];
      NoCycleAmongFinished(t, f, p, k);
    }
  }

  lemma FinishedIsClosed(t: Table, f: seq<string>, a: string, b: string)
    requires Topological(t, f) && a in f && Reaches(t, a, b)
    ensures b in f
  {
    hide Edge;
    var p :| IsPath(t, p) && p[0] == a && Last(p) == b;
    var i :| 0 <= i < |f| && f[i] == a;
    PathGoesBack(t, f, p, i);
  }

  lemma NoCycleFromFinished(t: Table, f: seq<string>, a: string)
    requires Topological(t, f) && a in f
    ensures NoCycleFrom(t, a)
  {
    hide Topological, Reaches, IsPath;
    forall p | IsCycle(t, p) && Reaches(t, a, p[0])
      ensures false
    {
      FinishedIsClosed(t, f, a, p[0]);
      var i :| 0 <= i < |f| && f[i] == p[0];
      NoCycleAmongFinished(t, f, p, i);
    }
  }

  lemma TopologicalAppended(t: Table, f: seq<string>, a: string)
    requires Topological(t, f) && forall b :: Edge(t, a, b) ==> b in f
    ensures Topological(t, f + [a])
  {
    hide Edge;
    var g := f + [a];
    forall i, b | 0 <= i < |g| && Edge(t, g[i], b)
      ensures b in g[..i]
    {
      if i < |f| {
        assert g[..i] == f[..i];
      } else {
        assert g[..i] == f;
      }
    }
  }

  // ---------- Chains ----------

  /** `chain` is a simple path from `start` whose next address is `node`. */
  ghost predicate LeadsTo(t: Table, start: string, chain: seq<string>, node: string) {
    IsPath(t, chain + [node]) && (chain + [node])[0] == start && Distinct(chain) && |chain| <= MAX_DEPTH
  }

  lemma ChainReaches(t: Table, start: string, chain: seq<string>, node: string)
    requires LeadsTo(t, start, chain, node)
    ensures Reaches(t, start, node)
  {
    hide IsPath;
    assert Last(chain + [node]) == node;
  }

  lemma ChainGoesOn(t: Table, start: string, chain: seq<string>, node: string, next: string)
    requires LeadsTo(t, start, chain, node) && Edge(t, node, next)
    requires node !in chain && |chain| < MAX_DEPTH
    ensures LeadsTo(t, start, chain + [node], next)
  {
    hide Edge;
    var p, q := chain + [node], chain + [node] + [next];
    forall i | 0 <= i < |q| - 1
      ensures Edge(t, q[i], q[i + 1])
    {
      if i < |chain| {
        assert q[i] == p[i] && q[i + 1] == p[i + 1];
      }
    }
  }

  lemma RepeatIsReason(t: Table, start: string, chain: seq<string>, node: string, i: nat)
    requires LeadsTo(t, start, chain, node) && i < |chain| && chain[i] == node
    ensures IsReason(t, start, chain[i..] + [node])
  {
    hide Edge;
    var p, q := chain + [node], chain[i..] + [node];
    forall j | 0 <= j < |q| - 1
      ensures Edge(t, q[j], q[j + 1])
    {
      assert q[j] == p[i + j] && q[j + 1] == p[i + j + 1];
    }
    var r := chain[..i + 1];
    assert forall j :: 0 <= j < |r| ==> r[j] == p[j];
    assert IsPath(t, r) && r[0] == start && Last(r) == node;
  }

  lemma LongChainIsReason(t: Table, start: string, chain: seq<string>, node: string)
    requires LeadsTo(t, start, chain, node) && node !in chain && |chain| == MAX_DEPTH
    ensures IsReason(t, start, chain + [node])
  {
    hide IsPath;
  }

  function IndexOf(s: seq<string>, x: string): (i: nat)
    requires x in s
    ensures i < |s| && s[i] == x
  {
    if s[0] == x then 0 else 1 + IndexOf(s[1..], x)
  }

  // ---------- The walk ----------

  class Resolver {
    const table: Table
    ghost const start: string
    var visited: set<string>
    var deliverTo: set<string>
    var external: set<string>
    var viaCatchAll: bool
    var loop: Option<seq<string>>
    /** Addresses whose walk has ended, in the order it did. */
    ghost var finished: seq<string>

    constructor (table: Table, ghost start: string)
      ensures this.table == table && this.start == start
      ensures loop == None && Consistent([])
    {
      this.table, this.start := table, start;
      visited, deliverTo, external := {}, {}, {};
      viaCatchAll, loop, finished := false, None, [];
    }

    /** The results say exactly what the visited addresses are. */
    ghost predicate Recorded()
      reads this
    {
      && (forall x :: x in visited ==> Reaches(table, start, x))
      && (forall x :: x in deliverTo <==> x in visited && TargetOf(x, table).Delivered?)
      && (forall x :: x in external <==> x in visited && TargetOf(x, table).External?)
      && (viaCatchAll <==> exists x :: x in visited && TargetOf(x, table).Forwarded? && TargetOf(x, table).viaCatchAll)
    }

    /** Visited addresses are those still being walked, `chain`, and those finished. */
    ghost predicate Ordered(chain: seq<string>)
      reads this
    {
      (forall x :: x in visited <==> x in chain || x in finished) && Topological(table, finished)
    }

    ghost predicate Consistent(chain: seq<string>)
      reads this
    {
      if loop.None? then Recorded() && Ordered(chain) else IsReason(table, start, loop.value)
    }

    /** Ends the walk of an address all of whose destinations are finished. */
    ghost method Finish(chain: seq<string>, node: string)
      requires loop.None? && Recorded() && Ordered(chain + [node])
      requires forall b :: Edge(table, node, b) ==> b in finished
      modifies this`finished
      ensures Consistent(chain) && finished == old(finished) + [node]
    {
      hide TargetOf, Edge, Topological;
      TopologicalAppended(table, finished, node);
      finished := finished + [node];
    }

    /** An address met again is a loop if it is still being walked. */
    method MeetAgain(chain: seq<string>, node: string)
      requires LeadsTo(table, start, chain, node) && loop.None? && Consistent(chain) && node in visited
      modifies this`loop
      ensures Consistent(chain) && (loop.None? ==> node in finished)
    {
      hide TargetOf, Edge, Topological, IsReason, LeadsTo;
      if node in chain {
        var i := IndexOf(chain, node);
        loop := Some(chain[i..] + [node]);
        RepeatIsReason(table, start, chain, node, i);
      }
    }

    /** Records where an address that is not forwarded delivers, and ends its walk. */
    method Deliver(chain: seq<string>, node: string)
      requires loop.None? && Reaches(table, start, node) && Consistent(chain) && node !in visited
      requires !TargetOf(node, table).Forwarded?
      modifies this`visited, this`external, this`deliverTo, this`finished
      ensures Consistent(chain) && finished == old(finished) + [node]
    {
      hide TargetOf, Edge, Topological, Reaches;
      visited := visited + {node};
      match TargetOf(node, table) {
        case External =>
          external := external + {node};
        case Delivered =>
          deliverTo := deliverTo + {node};
        case _ =>
      }
      NoEdges(table, node);
      Finish(chain, node);
    }

    method Walk(current: string, chain: seq<string>)
      requires LeadsTo(table, start, chain, Normalise(current)) && Consistent(chain)
      modifies this
      ensures Consistent(chain)
      ensures old(loop).Some? ==> loop == old(loop)
      ensures loop.None? ==> old(finished) <= finished && Normalise(current) in finished
      decreases MAX_DEPTH - |chain|, 1
    {
      hide Normalise, TargetOf, Edge, Topological, IsReason, LeadsTo, Reaches;
      if loop.Some? {
        return;
      }
      var normalised := Normalise(current);
      if normalised in visited {
        MeetAgain(chain, normalised);
        return;
      }
      ChainReaches(table, start, chain, normalised);
      ChainIsShort(table, start, chain, normalised);
      if |chain| >= MAX_DEPTH {
        visited := visited + {normalised};
        loop := Some(chain + [normalised]);
        LongChainIsReason(table, start, chain, normalised);
        return;
      }
      if !TargetOf(normalised, table).Forwarded? {
        Deliver(chain, normalised);
        return;
      }
      visited := visited + {normalised};
      viaCatchAll := viaCatchAll || TargetOf(normalised, table).viaCatchAll;
      WalkEach(TargetOf(normalised, table).destinations, chain, normalised);
      if loop.None? {
        EdgesAre(table, normalised);
        Finish(chain, normalised);
      }
    }

    /** Walks the destinations of an address in turn. */
    method WalkEach(destinations: seq<string>, chain: seq<string>, node: string)
      requires LeadsTo(table, start, chain, node) && node !in chain && |chain| < MAX_DEPTH
      requires TargetOf(node, table).Forwarded? && TargetOf(node, table).destinations == destinations
      requires loop.None? && Consistent(chain + [node])
      modifies this
      ensures Consistent(chain + [node])
      ensures loop.None? ==> old(finished) <= finished
      ensures loop.None? ==> forall j :: 0 <= j < |destinations| ==> Normalise(destinations[j]) in finished
      decreases MAX_DEPTH - |chain|, 0
    {
      hide Normalise, TargetOf, Edge, LeadsTo, Consistent;
      var i := 0;
      while i < |destinations|
        invariant 0 <= i <= |destinations|
        invariant Consistent(chain + [node])
        invariant loop.None? ==> old(finished) <= finished
        invariant loop.None? ==> forall j :: 0 <= j < i ==> Normalise(destinations[j]) in finished
      {
        EdgeTo(table, node, i);
        ChainGoesOn(table, start, chain, node, Normalise(destinations[i]));
        Walk(destinations[i], chain + [node]);
        i := i + 1;
      }
    }
  }

  lemma ChainIsShort(t: Table, start: string, chain: seq<string>, node: string)
    requires LeadsTo(t, start, chain, node)
    ensures |chain| <= MAX_DEPTH
  {
  }

  lemma NoEdges(t: Table, a: string)
    requires !TargetOf(a, t).Forwarded?
    ensures forall b :: !Edge(t, a, b)
  {
    hide TargetOf;
  }

  lemma EdgeTo(t: Table, a: string, i: nat)
    requires TargetOf(a, t).Forwarded? && i < |TargetOf(a, t).destinations|
    ensures Edge(t, a, Normalise(TargetOf(a, t).destinations[i]))
  {
    hide TargetOf, Normalise;
  }

  lemma EdgesAre(t: Table, a: string)
    requires TargetOf(a, t).Forwarded?
    ensures forall b :: Edge(t, a, b) ==>
              exists j :: 0 <= j < |TargetOf(a, t).destinations| && Normalise(TargetOf(a, t).destinations[j]) == b
  {
    hide TargetOf, Normalise;
  }

  /** Resolves an address. Without a loop the answer is exact, whatever order the destinations are listed in;
      a loop is a cycle that can be reached, or a chain of 21 addresses. */
  method ResolveAddress(address: string, domains: Table) returns (r: Resolution)
    ensures r.loop.None? ==> IsExact(domains, Normalise(address), r)
    ensures r.loop.Some? ==> IsReason(domains, Normalise(address), r.loop.value)
  {
    hide Normalise, TargetOf, Edge, Topological, IsReason, ParseAddress;
    if ParseAddress(address, false).None? {
      r := Resolution({}, {}, None, false);
      NothingFromUnaddressable(domains, address);
      return;
    }
    var start := Normalise(address);
    var walk := new Resolver(domains, start);
    assert LeadsTo(domains, start, [], start);
    walk.Walk(address, []);
    r := Resolution(walk.deliverTo, walk.external, walk.loop, walk.viaCatchAll);
    if walk.loop.None? {
      FinishedIsExact(domains, start, walk.finished, walk.visited, r);
    }
  }

  lemma FinishedIsExact(t: Table, start: string, f: seq<string>, visited: set<string>, r: Resolution)
    requires Topological(t, f) && start in f && forall x :: x in visited <==> x in f
    requires forall x :: x in visited ==> Reaches(t, start, x)
    requires forall x :: x in r.deliverTo <==> x in visited && TargetOf(x, t).Delivered?
    requires forall x :: x in r.external <==> x in visited && TargetOf(x, t).External?
    requires r.viaCatchAll <==> exists x :: x in visited && TargetOf(x, t).Forwarded? && TargetOf(x, t).viaCatchAll
    ensures IsExact(t, start, r)
  {
    hide TargetOf, Topological, Reaches, IsPath, IsMailbox, IsForeign, IsCaught;
    forall x | Reaches(t, start, x)
      ensures x in visited
    {
      FinishedIsClosed(t, f, start, x);
    }
    NoCycleFromFinished(t, f, start);
    forall x
      ensures TargetOf(x, t).Delivered? <==> IsMailbox(t, x)
      ensures TargetOf(x, t).External? <==> IsForeign(t, x)
      ensures TargetOf(x, t).Forwarded? && TargetOf(x, t).viaCatchAll <==> IsCaught(t, x)
    {
      TargetMeans(t, x);
    }
  }

  lemma OnlyStep(t: Table, p: seq<string>)
    requires IsPath(t, p)
    ensures |p| == 1 || exists b :: Edge(t, p[0], b)
  {
    hide Edge;
    if |p| >= 2 {
      assert Edge(t, p[0], p[1]);
    }
  }

  lemma NothingFromUnaddressable(t: Table, address: string)
    requires ParseAddress(address, false).None?
    ensures IsExact(t, Normalise(address), Resolution({}, {}, None, false))
  {
    hide ParseAddress, Normalise;
    var start := Normalise(address);
    ParseIsNormal(address, false);
    NoEdges(t, start);
    forall x | Reaches(t, start, x)
      ensures x == start
    {
      var p :| IsPath(t, p) && p[0] == start && Last(p) == x;
      OnlyStep(t, p);
    }
    forall p | IsCycle(t, p)
      ensures p[0] != start
    {
      assert Edge(t, p[0], p[1]);
    }
  }
}
