/**
 A customer's DNS zone: what the editors refuse, what every edit keeps, and what is published
 (backend/src/dns/dns-validation.ts, backend/src/dns/dns.service.ts, backend/src/dns/admin-dns.service.ts,
 backend/src/hosting/provider-hosting.service.ts:431-450).
 */
module DnsZone {
  import opened DnsAddress
  import opened DnsText
  import opened Options
  import opened Strings

  datatype RecordType = A | AAAA | CNAME | MX | TXT | SRV | NS | CAA

  datatype DnsRecord = DnsRecord(
    kind: RecordType, name: string, value: string, ttl: int, priority: Option<int>, weight: Option<int>,
        port: Option<int>)

  const MIN_TTL := 60
  const MAX_TTL := 604_800
  const MAX_TXT_LENGTH := 4096
  const APEX := "@"
  const DMARC_NAME := "_dmarc"
  const DMARC_TAG := "v=dmarc1"
  const SPF_TAG := "v=spf1"

  datatype Issue =
    | BadTtl | BadValue | BadName
    | CnameAtApex | NsAtApex | BadNumber
    | CnameSharesName | NameIsCname | SecondDmarc | SecondSpf | Duplicate

  // ---------- One record ----------

  predicate IsSixteenBit(n: Option<int>) {
    n.Some? && 0 <= n.value <= 65_535
  }

  /** Whether a value, without blanks around it, is well spelt for its type. */
  predicate IsWellSpelt(kind: RecordType, value: string) {
    match kind
    case A => IsValidIPv4(value)
    case AAAA => IsValidIPv6(value)
    case CNAME => IsValidHostname(value)
    case MX => IsValidHostname(value)
    case NS => IsValidHostname(value)
    case SRV => IsValidHostname(value)
    case TXT => 1 <= |value| <= MAX_TXT_LENGTH
    case CAA => IsValidCaa(value)
  }

  predicate IsWellNamed(kind: RecordType, name: string) {
    IsValidRecordName(name) && (kind == SRV ==> IsServiceName(name))
  }

  predicate HasItsNumbers(r: DnsRecord) {
    (r.kind == MX || r.kind == SRV ==> IsSixteenBit(r.priority))
    && (r.kind == SRV ==> IsSixteenBit(r.weight) && IsSixteenBit(r.port) && r.port != Some(0))
  }

  /** The rules that depend on the type of a record; `value` is its value without blanks around it. */
  method ValidateForType(input: DnsRecord, value: string) returns (issues: seq<Issue>)
    ensures BadName in issues <==> input.kind == SRV && !IsServiceName(input.name)
    ensures BadValue in issues <==> !IsWellSpelt(input.kind, value)
    ensures CnameAtApex in issues <==> input.kind == CNAME && input.name == APEX
    ensures NsAtApex in issues <==> input.kind == NS && input.name == APEX
    ensures BadNumber in issues <==> !HasItsNumbers(input)
    ensures forall c :: c in issues ==> c in {BadName, BadValue, CnameAtApex, NsAtApex, BadNumber}
  {
    hide IsServiceName, IsValidIPv4, IsValidIPv6, IsValidHostname, IsValidCaa, IsSixteenBit;
    issues := [];
    match input.kind {
      case A =>
        if !IsValidIPv4(value) {
          issues := issues + [BadValue];
        }
      case AAAA =>
        if !IsValidIPv6(value) {
          issues := issues + [BadValue];
        }
      case CNAME =>
        if !IsValidHostname(value) {
          issues := issues + [BadValue];
        }
        if input.name == APEX {
          issues := issues + [CnameAtApex];
        }
      case MX =>
        if !IsValidHostname(value) {
          issues := issues + [BadValue];
        }
        if !IsSixteenBit(input.priority) {
          issues := issues + [BadNumber];
        }
      case TXT =>
        if |value| == 0 || |value| > MAX_TXT_LENGTH {
          issues := issues + [BadValue];
        }
      case NS =>
        if !IsValidHostname(value) {
          issues := issues + [BadValue];
        }
        if input.name == APEX {
          issues := issues + [NsAtApex];
        }
      case SRV =>
        if !IsServiceName(input.name) {
          issues := issues + [BadName];
        }
        if !IsValidHostname(value) {
          issues := issues + [BadValue];
        }
        if !IsSixteenBit(input.priority) || !IsSixteenBit(input.weight) || !IsSixteenBit(input.port) {
          issues := issues + [BadNumber];
        }
        if input.port == Some(0) {
          issues := issues + [BadNumber];
        }
      case CAA =>
        if !IsValidCaa(value) {
          issues := issues + [BadValue];
        }
    }
  }

  /** The rules for one record, each with its own report. */
  method ValidateRecord(input: DnsRecord) returns (issues: seq<Issue>)
    ensures issues == [] <==> IsAcceptable(input)
    ensures BadName in issues <==> !IsWellNamed(input.kind, input.name)
    ensures BadTtl in issues <==> !(MIN_TTL <= input.ttl <= MAX_TTL)
    ensures BadValue in issues <==> !IsWellSpelt(input.kind, Trim(input.value))
    ensures CnameAtApex in issues <==> input.kind == CNAME && input.name == APEX
    ensures NsAtApex in issues <==> input.kind == NS && input.name == APEX
    ensures BadNumber in issues <==> !HasItsNumbers(input)
  {
    hide IsValidRecordName, IsServiceName, IsWellSpelt, HasItsNumbers, Trim;
    issues := [];
    if !IsValidRecordName(input.name) {
      issues := issues + [BadName];
    }
    if input.ttl < MIN_TTL || input.ttl > MAX_TTL {
      issues := issues + [BadTtl];
    }
    var forType := ValidateForType(input, Trim(input.value));
    issues := issues + forType;
    if issues != [] {
      assert issues[0] in issues;
    }
  }

  predicate IsAcceptable(r: DnsRecord) {
    IsWellNamed(r.kind, r.name) && MIN_TTL <= r.ttl <= MAX_TTL && IsWellSpelt(r.kind, Trim(r.value))
    && !(r.name == APEX && (r.kind == CNAME || r.kind == NS)) && HasItsNumbers(r)
  }

  /** What is acceptable, in numbers and in what the values are. */
  lemma AcceptableIff(r: DnsRecord)
    ensures IsAcceptable(r)
            <==> IsValidRecordName(r.name) && (r.kind == SRV ==> IsServiceName(r.name))
                 && 60 <= r.ttl <= 604_800
                 && (r.name == "@" ==> r.kind != CNAME && r.kind != NS)
                 && (r.kind == MX || r.kind == SRV ==> r.priority.Some? && 0 <= r.priority.value <= 65_535)
                 && (r.kind == SRV ==> r.weight.Some? && 0 <= r.weight.value <= 65_535
                                       && r.port.Some? && 1 <= r.port.value <= 65_535)
                 && var value := Trim(r.value);
                    match r.kind
                    case A => exists bytes: seq<nat> ::
                                value == Dotted(bytes) && |bytes| == 4 && forall i :: 0 <= i < 4 ==> bytes[i] <= 255
                    case AAAA => IsAddress(value) || exists head :: IsMisplacedText(value, head)
                    case TXT => 1 <= |value| <= 4096
                    case CAA => IsValidCaa(value)
                    case _ => IsValidHostname(value)
  {
    hide IsValidRecordName, IsServiceName, IsValidIPv4, IsValidIPv6, IsValidHostname, IsValidCaa, Trim, Dotted,
      IsAddress, IsMisplacedText;
    IPv4Iff(Trim(r.value));
    IPv6Iff(Trim(r.value));
  }

  // ---------- Two records ----------

  predicate SameName(r: DnsRecord, s: DnsRecord) {
    ToLowerCase(r.name) == ToLowerCase(s.name)
  }

  predicate HasTag(r: DnsRecord, tag: string) {
    r.kind == TXT && tag <= Normalise(r.value)
  }

  predicate IsSpf(r: DnsRecord) {
    HasTag(r, SPF_TAG)
  }

  predicate IsDmarc(r: DnsRecord) {
    HasTag(r, DMARC_TAG) && ToLowerCase(r.name) == DMARC_NAME
  }

  predicate SameRecord(r: DnsRecord, s: DnsRecord) {
    r.kind == s.kind && Normalise(r.value) == Normalise(s.value) && r.priority == s.priority
  }

  /** Two records that may stand in one zone. */
  predicate Compatible(r: DnsRecord, s: DnsRecord) {
    SameName(r, s) ==>
      r.kind != CNAME && s.kind != CNAME && !(IsSpf(r) && IsSpf(s)) && !(IsDmarc(r) && IsDmarc(s)) && !SameRecord(r, s)
  }

  /** What a record and one already in the zone conflict in. */
  predicate Conflicts(issue: Issue, r: DnsRecord, s: DnsRecord) {
    SameName(r, s)
    && match issue
       case CnameSharesName => r.kind == CNAME
       case NameIsCname => r.kind != CNAME && s.kind == CNAME
       case SecondSpf => IsSpf(r) && IsSpf(s)
       case SecondDmarc => IsDmarc(r) && IsDmarc(s)
       case Duplicate => SameRecord(r, s)
       case _ => false
  }

  predicate ConflictsWithAny(issue: Issue, r: DnsRecord, existing: seq<DnsRecord>) {
    exists i :: 0 <= i < |existing| && Conflicts(issue, r, existing[i])
  }

  lemma CompatibleIff(r: DnsRecord, s: DnsRecord)
    ensures Compatible(r, s) <==> forall issue :: !Conflicts(issue, r, s)
  {
    hide HasTag, SameRecord, SameName;
    if !Compatible(r, s) {
      assert Conflicts(CnameSharesName, r, s) || Conflicts(NameIsCname, r, s) || Conflicts(SecondSpf, r, s)
             || Conflicts(SecondDmarc, r, s) || Conflicts(Duplicate, r, s);
    }
  }

  lemma AllCompatibleIff(r: DnsRecord, existing: seq<DnsRecord>)
    ensures (forall i :: 0 <= i < |existing| ==> Compatible(r, existing[i]))
            <==> forall issue :: !ConflictsWithAny(issue, r, existing)
  {
    hide Compatible, Conflicts;
    forall i | 0 <= i < |existing|
      ensures Compatible(r, existing[i]) <==> forall issue :: !Conflicts(issue, r, existing[i])
    {
      CompatibleIff(r, existing[i]);
    }
    if forall i :: 0 <= i < |existing| ==> Compatible(r, existing[i]) {
      forall issue
        ensures !ConflictsWithAny(issue, r, existing)
      {
      }
    } else if forall issue :: !ConflictsWithAny(issue, r, existing) {
      forall i, issue | 0 <= i < |existing|
        ensures !Conflicts(issue, r, existing[i])
      {
        assert !ConflictsWithAny(issue, r, existing);
      }
    }
  }

  predicate SharesName(r: DnsRecord, existing: seq<DnsRecord>) {
    exists i :: 0 <= i < |existing| && SameName(r, existing[i])
  }

  predicate SharesNameWithCname(r: DnsRecord, existing: seq<DnsRecord>) {
    exists i :: 0 <= i < |existing| && SameName(r, existing[i]) && existing[i].kind == CNAME
  }

  predicate SharesNameWithTag(r: DnsRecord, existing: seq<DnsRecord>, tag: string) {
    exists i :: 0 <= i < |existing| && SameName(r, existing[i]) && HasTag(existing[i], tag)
  }

  predicate IsThere(r: DnsRecord, existing: seq<DnsRecord>) {
    exists i :: 0 <= i < |existing| && SameName(r, existing[i]) && SameRecord(r, existing[i])
  }

  /** The rules that depend on the other records of the zone: each conflict there is is reported, and no other. */
  method ValidateAgainstZone(input: DnsRecord, existing: seq<DnsRecord>) returns (issues: seq<Issue>)
    ensures issues == [] <==> forall i :: 0 <= i < |existing| ==> Compatible(input, existing[i])
    ensures forall issue :: issue in issues <==> ConflictsWithAny(issue, input, existing)
  {
    hide HasTag, Compatible, SharesName, SharesNameWithCname, SharesNameWithTag, IsThere, ConflictsWithAny, ToLowerCase;
    issues := [];
    if input.kind == CNAME && SharesName(input, existing) {
      issues := issues + [CnameSharesName];
    }
    if input.kind != CNAME && SharesNameWithCname(input, existing) {
      issues := issues + [NameIsCname];
    }
    if input.kind == TXT {
      if ToLowerCase(input.name) == DMARC_NAME && HasTag(input, DMARC_TAG) {
        if SharesNameWithTag(input, existing, DMARC_TAG) {
          issues := issues + [SecondDmarc];
        }
      }
      if HasTag(input, SPF_TAG) {
        if SharesNameWithTag(input, existing, SPF_TAG) {
          issues := issues + [SecondSpf];
        }
      }
    }
    if IsThere(input, existing) {
      issues := issues + [Duplicate];
    }
    ReportsAre(input, existing);
    AllCompatibleIff(input, existing);
    if issues != [] {
      assert issues[0] in issues;
    }
  }

  /** The conditions the rules test are the conflicts they report. */
  lemma ReportsAre(r: DnsRecord, existing: seq<DnsRecord>)
    ensures ConflictsWithAny(CnameSharesName, r, existing) <==> r.kind == CNAME && SharesName(r, existing)
    ensures ConflictsWithAny(NameIsCname, r, existing) <==> r.kind != CNAME && SharesNameWithCname(r, existing)
    ensures ConflictsWithAny(SecondSpf, r, existing)
            <==> r.kind == TXT && HasTag(r, SPF_TAG) && SharesNameWithTag(r, existing, SPF_TAG)
    ensures ConflictsWithAny(SecondDmarc, r, existing)
            <==> r.kind == TXT && ToLowerCase(r.name) == DMARC_NAME && HasTag(r, DMARC_TAG)
                 && SharesNameWithTag(r, existing, DMARC_TAG)
    ensures ConflictsWithAny(Duplicate, r, existing) <==> IsThere(r, existing)
    ensures forall issue :: ConflictsWithAny(issue, r, existing) ==>
              issue in {CnameSharesName, NameIsCname, SecondSpf, SecondDmarc, Duplicate}
  {
    hide HasTag, SameRecord, SameName;
    OnlyText(r);
    DmarcNames(r, existing);
  }

  lemma OnlyText(r: DnsRecord)
    ensures IsSpf(r) || IsDmarc(r) ==> r.kind == TXT
  {
  }

  lemma DmarcNames(input: DnsRecord, existing: seq<DnsRecord>)
    ensures IsDmarc(input) <==> HasTag(input, DMARC_TAG) && ToLowerCase(input.name) == DMARC_NAME
    ensures ToLowerCase(input.name) == DMARC_NAME ==>
              forall i :: 0 <= i < |existing| && SameName(input, existing[i]) ==>
                            (IsDmarc(existing[i]) <==> HasTag(existing[i], DMARC_TAG))
  {
    hide HasTag;
  }

  lemma CompatibleIsSymmetric(r: DnsRecord, s: DnsRecord)
    ensures Compatible(r, s) <==> Compatible(s, r)
  {
    hide HasTag, Normalise;
  }

  // ---------- Zones ----------

  type Zone = map<nat, DnsRecord>

  /** Any two rows may stand together, and no row is a CNAME at the apex. */
  ghost predicate Integrity(z: Zone) {
    && (forall i, j :: i in z && j in z && i != j ==> Compatible(z[i], z[j]))
    && (forall i :: i in z ==> !(z[i].kind == CNAME && z[i].name == APEX))
  }

  /** What integrity means: a CNAME is alone at its name in any spelling (section 3.6.2 of RFC 1034), a name
      has at most one SPF record, the domain at most one DMARC record, and no record is there twice. */
  lemma IntegrityMeans(z: Zone, i: nat, j: nat)
    requires Integrity(z) && i in z && j in z && i != j
    ensures z[i].kind == CNAME ==> ToLowerCase(z[i].name) != ToLowerCase(z[j].name)
    ensures z[i].kind == z[j].kind == TXT
            && "v=spf1" <= Normalise(z[i].value) && "v=spf1" <= Normalise(z[j].value) ==>
              ToLowerCase(z[i].name) != ToLowerCase(z[j].name)
    ensures z[i].kind == z[j].kind == TXT
            && "v=dmarc1" <= Normalise(z[i].value) && "v=dmarc1" <= Normalise(z[j].value) ==>
              ToLowerCase(z[i].name) != "_dmarc" || ToLowerCase(z[j].name) != "_dmarc"
    ensures z[i].kind == z[j].kind && z[i].priority == z[j].priority
            && Normalise(z[i].value) == Normalise(z[j].value) ==>
              ToLowerCase(z[i].name) != ToLowerCase(z[j].name)
  {
    hide ToLowerCase, Normalise;
    assert Compatible(z[i], z[j]);
    CompatibleMeans(z[i], z[j]);
  }

  /** Two records may stand together exactly when they have different names in every spelling, or neither is a CNAME,
      they are not both SPF, not both the domain's DMARC record, and not the same. */
  lemma CompatibleMeans(r: DnsRecord, s: DnsRecord)
    ensures Compatible(r, s)
            <==> ToLowerCase(r.name) != ToLowerCase(s.name)
                 || (r.kind != CNAME && s.kind != CNAME
                     && !(r.kind == s.kind == TXT
                          && "v=spf1" <= Normalise(r.value) && "v=spf1" <= Normalise(s.value))
                     && !(r.kind == s.kind == TXT && ToLowerCase(r.name) == "_dmarc"
                          && "v=dmarc1" <= Normalise(r.value) && "v=dmarc1" <= Normalise(s.value))
                     && !(r.kind == s.kind && Normalise(r.value) == Normalise(s.value) && r.priority == s.priority))
  {
    hide ToLowerCase, Normalise;
  }

  datatype Editor = Customer | Staff

  /** Customers' values are stored trimmed, those staff enter as they are. */
  function Stored(input: DnsRecord, editor: Editor): DnsRecord {
    if editor == Customer then input.(value := Trim(input.value)) else input
  }

  /** A customer's value is stored without the blanks around it, a member of staff's as it was entered; nothing else
      of a record changes. */
  lemma StoredIs(input: DnsRecord)
    ensures Stored(input, Staff) == input
    ensures var stored := Stored(input, Customer);
            stored == input.(value := stored.value) && IsTrimmed(stored.value)
            && exists before, behind ::
                 IsBlank(before) && IsBlank(behind) && input.value == before + stored.value + behind
  {
    hide Trim, IsTrimmed, IsBlank;
    var before, behind := TrimIs(input.value);
  }

  lemma StoredIsCompatible(input: DnsRecord, editor: Editor, s: DnsRecord)
    ensures Compatible(Stored(input, editor), s) <==> Compatible(input, s)
  {
    hide Trim, ToLowerCase;
    TrimShape(input.value);
    TrimShape(Trim(input.value));
  }

  datatype Edit =
    | Create(editor: Editor, input: DnsRecord)
    | Update(editor: Editor, id: nat, input: DnsRecord)
    | Remove(id: nat)

  /** What both editors ask before a write; the record being edited is not compared with itself. */
  predicate Accepted(z: Zone, e: Edit) {
    match e
    case Create(_, input) =>
      !(input.kind == CNAME && input.name == APEX) && forall i :: i in z ==> Compatible(input, z[i])
    case Update(_, id, input) =>
      id in z && !(input.kind == CNAME && input.name == APEX)
      && forall i :: i in z && i != id ==> Compatible(input, z[i])
    case Remove(id) => id in z
  }

  function Perform(z: Zone, e: Edit, newId: nat): Zone {
    match e
    case Create(editor, input) => z[newId := Stored(input, editor)]
    case Update(editor, id, input) => z[id := Stored(input, editor)]
    case Remove(id) => z - {id}
  }

  lemma EditKeepsIntegrity(z: Zone, e: Edit, newId: nat)
    requires Integrity(z) && Accepted(z, e) && newId !in z
    ensures Integrity(Perform(z, e, newId))
  {
    hide Compatible, Trim;
    var after := Perform(z, e, newId);
    forall i, j | i in after && j in after && i != j
      ensures Compatible(after[i], after[j])
    {
      if !e.Remove? {
        var id := if e.Create? then newId else e.id;
        if i == id {
          StoredIsCompatible(e.input, e.editor, z[j]);
        } else if j == id {
          StoredIsCompatible(e.input, e.editor, z[i]);
          CompatibleIsSymmetric(after[i], after[j]);
        }
      }
    }
  }

  /** A run of edits by customers and staff; each creation takes an id that is not in use. */
  ghost predicate ValidEdits(z: Zone, edits: seq<(Edit, nat)>)
    decreases |edits|
  {
    edits == []
    || (Accepted(z, edits[0].0) && edits[0].1 !in z && ValidEdits(Perform(z, edits[0].0, edits[0].1), edits[1..]))
  }

  function AfterEdits(z: Zone, edits: seq<(Edit, nat)>): Zone
    decreases |edits|
  {
    if edits == [] then z else AfterEdits(Perform(z, edits[0].0, edits[0].1), edits[1..])
  }

  /** Every sequential run of accepted edits keeps the zone's integrity. */
  lemma {:induction false} EditsKeepIntegrity(z: Zone, edits: seq<(Edit, nat)>)
    requires Integrity(z) && ValidEdits(z, edits)
    ensures Integrity(AfterEdits(z, edits))
    decreases |edits|
  {
    hide Integrity, Accepted, Perform;
    if edits != [] {
      EditKeepsIntegrity(z, edits[0].0, edits[0].1);
      EditsKeepIntegrity(Perform(z, edits[0].0, edits[0].1), edits[1..]);
    }
  }

  // ---------- The editors ----------

  class ZoneEditor {
    var rows: Zone
    var next: nat

    ghost predicate Valid()
      reads this
    {
      Integrity(rows) && forall i :: i in rows ==> i < next
    }

    constructor ()
      ensures Valid() && rows == map[]
    {
      rows, next := map[], 0;
    }

    /** The rows but one, as the query returns them: `listing` names each of them once. */
    ghost predicate Lists(listing: seq<nat>, except: Option<nat>)
      reads this
    {
      (forall i :: i in listing ==> i in rows) && forall i :: i in rows && Some(i) != except ==> i in listing
    }

    method AssertValid(input: DnsRecord, existing: seq<DnsRecord>) returns (issues: seq<Issue>)
      ensures issues == []
              <==> IsAcceptable(input) && forall i :: 0 <= i < |existing| ==> Compatible(input, existing[i])
    {
      var own := ValidateRecord(input);
      var zone := ValidateAgainstZone(input, existing);
      issues := own + zone;
    }

    method CreateRecord(editor: Editor, input: DnsRecord, listing: seq<nat>) returns (issues: seq<Issue>)
      requires Valid() && Lists(listing, None)
      modifies this
      ensures Valid()
      ensures issues == [] <==> IsAcceptable(input) && Accepted(old(rows), Create(editor, input))
      ensures rows == if issues == [] then Perform(old(rows), Create(editor, input), old(next)) else old(rows)
    {
      hide Compatible, Integrity, Trim;
      var existing := seq(|listing|,
        i requires 0 <= i < |listing| && listing[i] in rows reads this => rows[listing[i]]);
      issues := AssertValid(input, existing);
      assert forall i :: i in rows ==> exists k :: 0 <= k < |listing| && listing[k] == i && existing[k] == rows[i];
      if issues == [] {
        EditKeepsIntegrity(rows, Create(editor, input), next);
        rows := rows[next := Stored(input, editor)];
        next := next + 1;
      }
    }

    method UpdateRecord(editor: Editor, id: nat, input: DnsRecord, listing: seq<nat>)
      returns (found: bool, issues: seq<Issue>)
      requires Valid() && Lists(listing, Some(id)) && id !in listing
      modifies this`rows
      ensures Valid() && found == (id in old(rows))
      ensures found ==> (issues == [] <==> IsAcceptable(input) && Accepted(old(rows), Update(editor, id, input)))
      ensures rows == if found && issues == [] then Perform(old(rows), Update(editor, id, input), next) else old(rows)
    {
      hide Compatible, Integrity, Trim;
      issues := [];
      found := id in rows;
      if !found {
        return;
      }
      var existing := seq(|listing|,
        i requires 0 <= i < |listing| && listing[i] in rows reads this => rows[listing[i]]);
      issues := AssertValid(input, existing);
      assert forall i :: i in rows && i != id ==>
               exists k :: 0 <= k < |listing| && listing[k] == i && existing[k] == rows[i];
      if issues == [] {
        EditKeepsIntegrity(rows, Update(editor, id, input), next);
        rows := rows[id := Stored(input, editor)];
      }
    }

    method RemoveRecord(id: nat) returns (found: bool)
      requires Valid()
      modifies this`rows
      ensures Valid() && found == (id in old(rows))
      ensures rows == if found then Perform(old(rows), Remove(id), next) else old(rows)
    {
      hide Compatible;
      found := id in rows;
      rows := rows - {id};
    }
  }

  // ---------- Publishing ----------

  datatype Key = Key(name: string, kind: RecordType)

  datatype ZoneEntry = ZoneEntry(name: string, kind: RecordType, ttl: int, values: seq<string>)

  function KeyOf(r: DnsRecord): Key { Key(r.name, r.kind) }

  function EntryKey(e: ZoneEntry): Key { Key(e.name, e.kind) }

  /** The values of the records of one name and type, in order. */
  function ValuesOf(records: seq<DnsRecord>, k: Key): seq<string> {
    if records == [] then []
    else
      var last := records[|records| - 1];
      ValuesOf(records[..|records| - 1], k) + if KeyOf(last) == k then [last.value] else []
  }

  /** The values of a key are those of its records, one after another. */
  lemma {:induction false} ValuesOfTwo(a: seq<DnsRecord>, b: seq<DnsRecord>, r: DnsRecord, k: Key)
    ensures ValuesOf([r], k) == if r.name == k.name && r.kind == k.kind then [r.value] else []
    ensures ValuesOf(a + b, k) == ValuesOf(a, k) + ValuesOf(b, k)
    decreases |b|
  {
    assert [r][..0] == [] && ValuesOf([], k) == [];
    if b == [] {
      assert a + b == a;
    } else {
      var n := |b| - 1;
      ValuesOfTwo(a, b[..n], r, k);
      assert (a + b)[..|a + b| - 1] == a + b[..n];
    }
  }

  ghost predicate IsLeastTtl(records: seq<DnsRecord>, k: Key, ttl: int) {
    && (exists i :: 0 <= i < |records| && KeyOf(records[i]) == k && records[i].ttl == ttl)
    && (forall i :: 0 <= i < |records| && KeyOf(records[i]) == k ==> ttl <= records[i].ttl)
  }

  /** One entry for each name and type there is, with all its values and the least TTL. */
  ghost predicate IsGrouping(records: seq<DnsRecord>, entries: seq<ZoneEntry>) {
    && (forall i, j :: 0 <= i < j < |entries| ==> EntryKey(entries[i]) != EntryKey(entries[j]))
    && (forall i :: 0 <= i < |entries| ==>
          entries[i].values == ValuesOf(records, EntryKey(entries[i]))
              && IsLeastTtl(records, EntryKey(entries[i]), entries[i].ttl))
    && (forall i :: 0 <= i < |records| ==> exists j :: 0 <= j < |entries| && EntryKey(entries[j]) == KeyOf(records[i]))
  }

  function CountValues(entries: seq<ZoneEntry>): nat {
    if entries == [] then 0 else CountValues(entries[..|entries| - 1]) + |entries[|entries| - 1].values|
  }

  /** The position of a key among the entries, in the order the keys were first met. */
  function Position(entries: seq<ZoneEntry>, k: Key): (r: Option<nat>)
    ensures r.Some? ==> r.value < |entries| && EntryKey(entries[r.value]) == k
    ensures r.None? ==> forall i :: 0 <= i < |entries| ==> EntryKey(entries[i]) != k
  {
    if entries == [] then None
    else
      var n := |entries| - 1;
      if EntryKey(entries[n]) == k then Some(n) else Position(entries[..n], k)
  }

  lemma OneMoreValue(records: seq<DnsRecord>, i: nat, k: Key)
    requires i < |records|
    ensures ValuesOf(records[..i + 1], k)
            == ValuesOf(records[..i], k) + if KeyOf(records[i]) == k then [records[i].value] else []
  {
    assert records[..i + 1][..i] == records[..i];
  }

  lemma {:induction false} NoValues(records: seq<DnsRecord>, k: Key)
    ensures ValuesOf(records, k) == [] <==> forall i :: 0 <= i < |records| ==> KeyOf(records[i]) != k
  {
    if records != [] {
      var n := |records| - 1;
      NoValues(records[..n], k);
      assert forall i :: 0 <= i < n ==> records[..n][i] == records[i];
    }
  }

  lemma {:induction false} CountOfUpdated(entries: seq<ZoneEntry>, p: nat, e: ZoneEntry)
    requires p < |entries| && |e.values| == |entries[p].values| + 1
    ensures CountValues(entries[p := e]) == CountValues(entries) + 1
  {
    var n := |entries| - 1;
    if p < n {
      CountOfUpdated(entries[..n], p, e);
      assert entries[p := e][..n] == entries[..n][p := e];
    } else {
      assert entries[p := e][..n] == entries[..n];
    }
  }

  /** What the entries are after one more record: its value is appended to the entry of its key, whose TTL can
      only go down, or a new entry is made for it. */
  function Added(entries: seq<ZoneEntry>, r: DnsRecord): seq<ZoneEntry> {
    match Position(entries, KeyOf(r))
    case Some(p) =>
      var e := entries[p];
      entries[p := e.(values := e.values + [r.value], ttl := if r.ttl < e.ttl then r.ttl else e.ttl)]
    case None => entries + [ZoneEntry(r.name, r.kind, r.ttl, [r.value])]
  }

  lemma AddedKeys(entries: seq<ZoneEntry>, r: DnsRecord)
    ensures |entries| <= |Added(entries, r)| <= |entries| + 1
    ensures forall j :: 0 <= j < |entries| ==> EntryKey(Added(entries, r)[j]) == EntryKey(entries[j])
    ensures forall j :: 0 <= j < |entries| && EntryKey(entries[j]) != KeyOf(r) ==> Added(entries, r)[j] == entries[j]
    ensures |Added(entries, r)| > |entries| ==>
              EntryKey(Added(entries, r)[|entries|]) == KeyOf(r)
              && forall j :: 0 <= j < |entries| ==> EntryKey(entries[j]) != KeyOf(r)
    ensures exists j :: 0 <= j < |Added(entries, r)| && EntryKey(Added(entries, r)[j]) == KeyOf(r)
    ensures CountValues(Added(entries, r)) == CountValues(entries) + 1
  {
    hide CountValues;
    var after := Added(entries, r);
    match Position(entries, KeyOf(r)) {
      case Some(p) =>
        assert EntryKey(after[p]) == KeyOf(r);
        CountOfUpdated(entries, p, after[p]);
      case None =>
        assert EntryKey(after[|entries|]) == KeyOf(r);
        CountOfAppended(entries, after[|entries|]);
    }
  }

  lemma CountOfAppended(entries: seq<ZoneEntry>, e: ZoneEntry)
    ensures CountValues(entries + [e]) == CountValues(entries) + |e.values|
  {
    assert (entries + [e])[..|entries|] == entries;
  }

  lemma AddedIsGrouping(records: seq<DnsRecord>, i: nat, entries: seq<ZoneEntry>)
    requires i < |records| && IsGrouping(records[..i], entries)
    ensures IsGrouping(records[..i + 1], Added(entries, records[i]))
  {
    hide IsLeastTtl, ValuesOf, CountValues, Added;
    var r, before, now, after := records[i], records[..i], records[..i + 1], Added(entries, records[i]);
    AddedKeys(entries, r);
    forall j | 0 <= j < |after|
      ensures after[j].values == ValuesOf(now, EntryKey(after[j])) && IsLeastTtl(now, EntryKey(after[j]), after[j].ttl)
    {
      AddedEntry(records, i, entries, j);
    }
    forall k | 0 <= k < |now|
      ensures exists j :: 0 <= j < |after| && EntryKey(after[j]) == KeyOf(now[k])
    {
      if k < i {
        assert now[k] == before[k];
        var j :| 0 <= j < |entries| && EntryKey(entries[j]) == KeyOf(before[k]);
        assert EntryKey(after[j]) == KeyOf(now[k]);
      }
    }
  }

  lemma AddedEntry(records: seq<DnsRecord>, i: nat, entries: seq<ZoneEntry>, j: nat)
    requires i < |records| && IsGrouping(records[..i], entries) && j < |Added(entries, records[i])|
    ensures var e := Added(entries, records[i])[j];
            e.values == ValuesOf(records[..i + 1], EntryKey(e)) && IsLeastTtl(records[..i + 1], EntryKey(e), e.ttl)
  {
    hide ValuesOf, CountValues, IsLeastTtl;
    var r, before, e := records[i], records[..i], Added(entries, records[i])[j];
    var k := EntryKey(e);
    OneMoreValue(records, i, k);
    if j < |entries| {
      AddedKeys(entries, r);
      OldLeast(records, i, k, entries[j].ttl);
    } else {
      NoEntryNoRecord(before, entries, k);
      NewLeast(records, i, k);
    }
  }

  lemma NoEntryNoRecord(records: seq<DnsRecord>, entries: seq<ZoneEntry>, k: Key)
    requires IsGrouping(records, entries) && forall j :: 0 <= j < |entries| ==> EntryKey(entries[j]) != k
    ensures ValuesOf(records, k) == [] && forall i :: 0 <= i < |records| ==> KeyOf(records[i]) != k
  {
    hide IsLeastTtl, ValuesOf;
    NoValues(records, k);
  }

  lemma OldLeast(records: seq<DnsRecord>, i: nat, k: Key, ttl: int)
    requires i < |records| && IsLeastTtl(records[..i], k, ttl)
    ensures var lower := KeyOf(records[i]) == k && records[i].ttl < ttl;
            IsLeastTtl(records[..i + 1], k, if lower then records[i].ttl else ttl)
  {
    var before, now := records[..i], records[..i + 1];
    assert forall n :: 0 <= n < i ==> now[n] == before[n];
    assert now[i] == records[i];
    var n :| 0 <= n < i && KeyOf(before[n]) == k && before[n].ttl == ttl;
    assert KeyOf(now[n]) == k;
  }

  lemma NewLeast(records: seq<DnsRecord>, i: nat, k: Key)
    requires i < |records| && KeyOf(records[i]) == k && forall n :: 0 <= n < i ==> KeyOf(records[..i][n]) != k
    ensures IsLeastTtl(records[..i + 1], k, records[i].ttl)
  {
    var before, now := records[..i], records[..i + 1];
    assert forall n :: 0 <= n < i ==> now[n] == before[n];
    assert now[i] == records[i];
  }

  /** Groups the records for publishing, entry by entry as the loop meets them. */
  method GroupForPublishing(records: seq<DnsRecord>) returns (entries: seq<ZoneEntry>)
    ensures IsGrouping(records, entries) && CountValues(entries) == |records|
  {
    hide ValuesOf, IsGrouping;
    entries := [];
    NothingGrouped(records);
    for i := 0 to |records|
      invariant IsGrouping(records[..i], entries) && CountValues(entries) == i
    {
      var record := records[i];
      AddedKeys(entries, record);
      AddedIsGrouping(records, i, entries);
      var position := Position(entries, KeyOf(record));
      if position.Some? {
        var entry := entries[position.value];
        entry := entry.(values := entry.values + [record.value]);
        entry := entry.(ttl := if record.ttl < entry.ttl then record.ttl else entry.ttl);
        entries := entries[position.value := entry];
      } else {
        entries := entries + [ZoneEntry(record.name, record.kind, record.ttl, [record.value])];
      }
    }
    assert records[..|records|] == records;
  }

  lemma NothingGrouped(records: seq<DnsRecord>)
    ensures IsGrouping(records[..0], [])
  {
  }

  /** Publishing a zone with integrity: a CNAME is the only entry at its name in any spelling, with one value. */
  lemma PublishedCnameIsAlone(z: Zone, listing: seq<nat>, records: seq<DnsRecord>, entries: seq<ZoneEntry>, c: nat)
    requires Integrity(z) && |records| == |listing|
    requires forall i :: 0 <= i < |listing| ==> listing[i] in z && records[i] == z[listing[i]]
    requires forall i, j :: 0 <= i < j < |listing| ==> listing[i] != listing[j]
    requires IsGrouping(records, entries) && c < |entries| && entries[c].kind == CNAME
    ensures |entries[c].values| == 1
    ensures forall j :: 0 <= j < |entries| && j != c ==> ToLowerCase(entries[j].name) != ToLowerCase(entries[c].name)
  {
    hide Compatible, ToLowerCase, ValuesOf;
    var k := EntryKey(entries[c]);
    var m :| 0 <= m < |records| && KeyOf(records[m]) == k;
    forall i | 0 <= i < |records| && i != m
      ensures ToLowerCase(records[i].name) != ToLowerCase(entries[c].name)
    {
      assert listing[i] != listing[m];
      IntegrityMeans(z, listing[m], listing[i]);
    }
    OneValue(records, k, m);
    forall j | 0 <= j < |entries| && j != c
      ensures ToLowerCase(entries[j].name) != ToLowerCase(entries[c].name)
    {
      assert IsLeastTtl(records, EntryKey(entries[j]), entries[j].ttl);
      var n :| 0 <= n < |records| && KeyOf(records[n]) == EntryKey(entries[j]);
      assert EntryKey(entries[j]) != k;
    }
  }

  lemma {:induction false} OneValue(records: seq<DnsRecord>, k: Key, m: nat)
    requires m < |records| && KeyOf(records[m]) == k
    requires forall i :: 0 <= i < |records| && i != m ==> KeyOf(records[i]) != k
    ensures |ValuesOf(records, k)| == 1
  {
    hide ValuesOf;
    var n := |records| - 1;
    OneMoreValue(records, n, k);
    assert records[..n + 1] == records;
    forall i | 0 <= i < n && i != m
      ensures KeyOf(records[..n][i]) != k
    {
    }
    if m < n {
      OneValue(records[..n], k, m);
    } else {
      NoValues(records[..n], k);
    }
  }
}
