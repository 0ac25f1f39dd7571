/**
 What every document says, over all runs of workers, staff and plan changes: whom it is for, what it is, and what it
 is against (backend/src/plans/subscriptions.service.ts:151-165, backend/src/billing/invoice.service.ts:158-214 and
 284-322); and which subscriptions expire (backend/src/plans/renewals.service.ts:88-130).
 */
module Documents {
  import opened Options
  import opened Calendar
  import opened Billing
  import opened Renewal
  import opened RenewalProtocol
  import opened PlanChanges

  /** A document for a period bills the subscription's own customer, for that period, due when it begins. A credit
      note is against an earlier tax invoice of the same customer, for no period, and never due. */
  predicate IsInOrder(st: Store, draft: Draft, n: nat) {
    && (draft.period.Some? ==>
          var p := draft.period.value;
          p.subscription < |st.subscriptions| && draft.customer == st.subscriptions[p.subscription].customer
          && draft.kind == TaxInvoice && draft.dueAt == Some(p.start))
    && (draft.kind == TaxInvoice ==> draft.against.None?)
    && (draft.kind == CreditNote ==>
          draft.period.None? && draft.dueAt.None? && draft.against.Some? && draft.against.value < n
          && draft.against.value < |st.invoices|
          && var original := st.invoices[draft.against.value].draft;
             original.kind == TaxInvoice && original.customer == draft.customer)
  }

  ghost predicate AllInOrder(st: Store) {
    forall i :: 0 <= i < |st.invoices| ==> IsInOrder(st, st.invoices[i].draft, i)
  }

  /** A worker about to invoice has the subscription's own customer. */
  predicate KnowsCustomer(st: Store, t: Task) {
    t.Issuing? ==> t.subscription < |st.subscriptions| && t.customer == st.subscriptions[t.subscription].customer
  }

  ghost predicate DocumentsInv(sys: System) {
    AllInOrder(sys.store) && forall w :: w in sys.tasks ==> KnowsCustomer(sys.store, sys.tasks[w])
  }

  // ---------- Steps ----------

  /** Rows stay and keep their customers; documents stay and keep what they say. */
  ghost predicate Keeps(st: Store, after: Store) {
    && |st.subscriptions| <= |after.subscriptions|
    && (forall i :: 0 <= i < |st.subscriptions| ==> after.subscriptions[i].customer == st.subscriptions[i].customer)
    && |st.invoices| <= |after.invoices|
    && (forall i :: 0 <= i < |st.invoices| ==> after.invoices[i].draft == st.invoices[i].draft)
  }

  lemma InOrderLasts(st: Store, after: Store, draft: Draft, n: nat)
    requires IsInOrder(st, draft, n) && Keeps(st, after)
    ensures IsInOrder(after, draft, n)
  {
  }

  lemma SameDocuments(st: Store, after: Store)
    requires AllInOrder(st) && Keeps(st, after) && |after.invoices| == |st.invoices|
    ensures AllInOrder(after)
  {
    hide IsInOrder;
    forall i | 0 <= i < |after.invoices|
      ensures IsInOrder(after, after.invoices[i].draft, i)
    {
      InOrderLasts(st, after, st.invoices[i].draft, i);
    }
  }

  lemma IssueKeepsInOrder(st: Store, draft: Draft, now: int)
    requires AllInOrder(st) && IsInOrder(st, draft, |st.invoices|)
    ensures AllInOrder(IssueIn(st, draft, now).0) && Keeps(st, IssueIn(st, draft, now).0)
  {
    hide IsInOrder, IssueIn;
    var after := IssueIn(st, draft, now).0;
    IssuedDocument(st, draft, now);
    IssueKeepsSubscriptions(st, draft, now);
    forall i | 0 <= i < |st.invoices|
      ensures after.invoices[i] == st.invoices[i]
    {
      assert after.invoices[..|st.invoices|][i] == st.invoices[i];
    }
    forall i | 0 <= i < |after.invoices|
      ensures IsInOrder(after, after.invoices[i].draft, i)
    {
      if i < |st.invoices| {
        InOrderLasts(st, after, st.invoices[i].draft, i);
      } else {
        InOrderLasts(st, after, draft, i);
      }
    }
  }

  lemma WorkerStepKeepsInOrder(st: Store, t: Task, e: Event)
    requires AllInOrder(st) && KnowsCustomer(st, t)
    ensures var (after, next) := WorkerStep(st, t, e);
            AllInOrder(after) && Keeps(st, after) && KnowsCustomer(after, next)
  {
    hide AllInOrder, IssueIn, RenewalDateAfter, PeriodTaken;
    if t.Issuing? && e.Issue? {
      IssueKeepsInOrder(st, RenewalDraft(t.customer, t.subscription, t.periodStart), e.now);
    } else {
      SameDocuments(st, WorkerStep(st, t, e).0);
    }
  }

  lemma OtherStepKeepsInOrder(sys: System, e: Event)
    requires AllInOrder(sys.store) && Enabled(sys, e) && !ByWorker(e)
    ensures AllInOrder(OtherStep(sys.store, e)) && Keeps(sys.store, OtherStep(sys.store, e))
  {
    hide AllInOrder, IssueIn, NextRenewal, Supported;
    var st := sys.store;
    match e
    case IssueOther(customer, dueAt, now) =>
      IssueKeepsInOrder(st, Draft(customer, TaxInvoice, None, None, dueAt), now);
    case CreditInvoice(id, now) =>
      IssueKeepsInOrder(st, Draft(st.invoices[id].draft.customer, CreditNote, None, Some(id), None), now);
    case _ => SameDocuments(st, OtherStep(st, e));
  }

  lemma ActKeepsDocuments(sys: System, a: Act)
    requires DocumentsInv(sys) && CanAct(sys, a)
    ensures DocumentsInv(Perform(sys, a)) && Keeps(sys.store, Perform(sys, a).store)
  {
    hide AllInOrder, WorkerStep, OtherStep, Enabled, NextRenewal;
    match a
    case MovePlan(id, cycle, now) => SameDocuments(sys.store, MovePlanIn(sys.store, id, cycle, now));
    case Step(e) =>
      if ByWorker(e) {
        WorkerStepKeepsInOrder(sys.store, TaskOf(sys, e.worker), e);
      } else {
        OtherStepKeepsInOrder(sys, e);
      }
  }

  lemma {:induction false} ActsKeepDocuments(sys: System, acts: seq<Act>)
    requires DocumentsInv(sys) && ValidActs(sys, acts)
    ensures DocumentsInv(AfterActs(sys, acts))
    decreases |acts|
  {
    hide DocumentsInv, Perform, CanAct;
    if acts != [] {
      ActKeepsDocuments(sys, acts[0]);
      ActsKeepDocuments(Perform(sys, acts[0]), acts[1..]);
    }
  }

  /** Over every run: each row for a period bills that subscription's customer, as a tax invoice due when the period
      begins; and a credit note is against a tax invoice of the same customer, never against a credit note. */
  lemma EveryDocumentIsInOrder(acts: seq<Act>, i: nat)
    requires ValidActs(INITIAL_SYSTEM, acts) && i < |AfterActs(INITIAL_SYSTEM, acts).store.invoices|
    ensures var st := AfterActs(INITIAL_SYSTEM, acts).store;
            var draft := st.invoices[i].draft;
            (draft.period.Some? ==>
               var p := draft.period.value;
               p.subscription < |st.subscriptions| && draft.customer == st.subscriptions[p.subscription].customer
               && draft.kind == TaxInvoice && draft.dueAt == Some(p.start))
            && (draft.kind == CreditNote ==>
                  draft.against.Some? && draft.against.value < i
                  && st.invoices[draft.against.value].draft.kind == TaxInvoice
                  && st.invoices[draft.against.value].draft.customer == draft.customer
                  && draft.period.None? && draft.dueAt.None?)
            && (draft.kind == TaxInvoice ==> draft.against.None?)
  {
    hide ValidActs, AfterActs;
    ActsKeepDocuments(INITIAL_SYSTEM, acts);
  }

  // ---------- Who expires ----------

  predicate WasCancelled(s: Subscription) {
    s.cancelledAt.Some? && !s.autoRenew
  }

  /** The rows listed to expire, and the expired ones, were cancelled. */
  ghost predicate ExpiryInv(sys: System) {
    && (forall i :: 0 <= i < |sys.store.subscriptions| && sys.store.subscriptions[i].status == Expired ==>
          WasCancelled(sys.store.subscriptions[i]))
    && (forall w, r :: w in sys.tasks && sys.tasks[w].Expiring? && r in sys.tasks[w].rows ==>
          r.subscription < |sys.store.subscriptions| && WasCancelled(sys.store.subscriptions[r.subscription]))
  }

  /** Nobody is un-cancelled, and who expires was cancelled. */
  ghost predicate OnlyCancelledExpire(st: Store, after: Store) {
    && |st.subscriptions| <= |after.subscriptions|
    && (forall i :: 0 <= i < |st.subscriptions| ==>
          (WasCancelled(st.subscriptions[i]) ==> WasCancelled(after.subscriptions[i]))
          && (after.subscriptions[i].status == Expired ==>
                st.subscriptions[i].status == Expired || WasCancelled(after.subscriptions[i])))
    && (forall i :: |st.subscriptions| <= i < |after.subscriptions| ==> after.subscriptions[i].status != Expired)
  }

  lemma WorkerStepExpires(st: Store, t: Task, e: Event)
    requires SawLive(t)
    requires t.Expiring? ==> forall r :: r in t.rows ==>
               r.subscription < |st.subscriptions| && WasCancelled(st.subscriptions[r.subscription])
    requires e.ListExpired? ==> forall r :: r in e.expired ==>
               r.subscription < |st.subscriptions| && WasCancelled(st.subscriptions[r.subscription])
    ensures var (after, next) := WorkerStep(st, t, e);
            OnlyCancelledExpire(st, after)
            && (next.Expiring? ==> forall r :: r in next.rows ==>
                  r.subscription < |after.subscriptions| && WasCancelled(after.subscriptions[r.subscription]))
  {
    hide IssueIn, ReadForRenewal, PeriodTaken;
    if t.Issuing? && e.Issue? {
      IssueKeepsSubscriptions(st, RenewalDraft(t.customer, t.subscription, t.periodStart), e.now);
    }
  }

  lemma OtherStepExpires(st: Store, e: Event)
    ensures OnlyCancelledExpire(st, OtherStep(st, e))
  {
    hide IssueIn, NextRenewal;
    if e.IssueOther? {
      IssueKeepsSubscriptions(st, Draft(e.customer, TaxInvoice, None, None, e.dueAt), e.now);
    }
    if e.CreditInvoice? && e.invoice < |st.invoices| {
      var draft := Draft(st.invoices[e.invoice].draft.customer, CreditNote, None, Some(e.invoice), None);
      IssueKeepsSubscriptions(st, draft, e.now);
    }
  }

  lemma ListedWereCancelled(sys: System, e: Event)
    requires Enabled(sys, e) && e.ListExpired?
    ensures forall r :: r in e.expired ==>
              r.subscription < |sys.store.subscriptions| && WasCancelled(sys.store.subscriptions[r.subscription])
  {
  }

  lemma ActKeepsExpiry(sys: System, a: Act)
    requires ExpiryInv(sys) && AllSawLive(sys) && CanAct(sys, a)
    ensures ExpiryInv(Perform(sys, a))
  {
    hide WorkerStep, OtherStep, Enabled, NextRenewal, WasCancelled, SawLive;
    match a
    case MovePlan(id, cycle, now) => MovingUncancelsNobody(sys.store, id, cycle, now);
    case Step(e) =>
      if ByWorker(e) {
        IdleSawLive();
        if e.ListExpired? {
          ListedWereCancelled(sys, e);
        }
        WorkerStepExpires(sys.store, TaskOf(sys, e.worker), e);
      } else {
        OtherStepExpires(sys.store, e);
      }
  }

  lemma IdleSawLive()
    ensures SawLive(Idle)
  {
  }

  lemma MovingUncancelsNobody(st: Store, id: nat, cycle: BillingCycle, now: int)
    ensures OnlyCancelledExpire(st, MovePlanIn(st, id, cycle, now))
  {
    hide NextRenewal;
  }

  lemma {:induction false} ActsKeepExpiry(sys: System, acts: seq<Act>)
    requires ExpiryInv(sys) && AllSawLive(sys) && ValidActs(sys, acts)
    ensures ExpiryInv(AfterActs(sys, acts))
    decreases |acts|
  {
    hide ExpiryInv, AllSawLive, Perform, CanAct;
    if acts != [] {
      ActKeepsExpiry(sys, acts[0]);
      ActKeepsSawLive(sys, acts[0]);
      ActsKeepExpiry(Perform(sys, acts[0]), acts[1..]);
    }
  }

  /** Over every run: a subscription that has expired was cancelled. One whose renewal was only switched off, by a
      customer who means to pay by hand, is never cut off. */
  lemma ExpiredWasCancelled(acts: seq<Act>, id: nat)
    requires ValidActs(INITIAL_SYSTEM, acts) && id < |AfterActs(INITIAL_SYSTEM, acts).store.subscriptions|
    requires AfterActs(INITIAL_SYSTEM, acts).store.subscriptions[id].status == Expired
    ensures AfterActs(INITIAL_SYSTEM, acts).store.subscriptions[id].cancelledAt.Some?
    ensures !AfterActs(INITIAL_SYSTEM, acts).store.subscriptions[id].autoRenew
  {
    hide ValidActs, AfterActs;
    ActsKeepExpiry(INITIAL_SYSTEM, acts);
  }
}
