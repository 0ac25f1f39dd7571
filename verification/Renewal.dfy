/**
 The steps of renewing, expiring and re-assessing a subscription, each one atomic at the database
 (backend/src/plans/subscriptions.service.ts, backend/src/plans/renewals.service.ts), and the
 invariant they keep.
 */
module Renewal {
  import opened Numbers
  import opened Options
  import opened Calendar
  import opened Billing

  // ---------- The steps of `renew` ----------

  datatype Reading =
    | NoSubscription
    | WasCancelled
    | HasExpired
    | NotThatPeriod
    | Renewable(customer: nat, periodStart: int, renewsAt: int)

  /** Reads the row afresh, refuses what cannot be renewed, and compares the pin. */
  function ReadForRenewal(st: Store, id: nat, pin: Option<int>): Reading {
    if id >= |st.subscriptions| then NoSubscription
    else
      var s := st.subscriptions[id];
      if s.status == Cancelled then WasCancelled
      else if s.status == Expired then HasExpired
      else if pin.Some? && s.renewsAt != pin.value then NotThatPeriod
      else Renewable(s.customer, s.renewsAt, RenewalDateAfter(s.startsAt, s.renewsAt, s.cycle))
  }

  function RenewalDraft(customer: nat, id: nat, periodStart: int): Draft {
    Draft(customer, TaxInvoice, Some(Period(id, periodStart)), None, Some(periodStart))
  }

  function SetSubscription(st: Store, id: nat, s: Subscription): Store
    requires id < |st.subscriptions|
  {
    st.(subscriptions := st.subscriptions[id := s])
  }

  /** Moves the renewal date, but only if it is still the one invoiced against. */
  function AdvanceIn(st: Store, id: nat, periodStart: int, renewsAt: int): Store {
    if id < |st.subscriptions| && st.subscriptions[id].renewsAt == periodStart
    then SetSubscription(st, id, st.subscriptions[id].(renewsAt := renewsAt))
    else st
  }

  // ---------- The other steps that write subscriptions ----------

  /** Subscribing cancels what the customer has active. */
  function Superseded(s: Subscription, customer: nat, now: int): Subscription {
    if s.customer == customer && s.status == Active then s.(status := Cancelled, cancelledAt := Some(now)) else s
  }

  /** `missed` are the rows that were not there, or not active, when the transaction looked for them: it need not
      see what another one commits at the same time. */
  function SubscribeIn(st: Store, customer: nat, cycle: BillingCycle, now: int, missed: set<nat>): Store {
    var kept := seq(|st.subscriptions|, i requires 0 <= i < |st.subscriptions| =>
      if i in missed then st.subscriptions[i] else Superseded(st.subscriptions[i], customer, now));
    st.(subscriptions := kept + [Subscription(customer, now, NextRenewal(now, cycle), cycle, Active, true, None)])
  }

  function CancelIn(st: Store, id: nat, now: int): Store
    requires id < |st.subscriptions|
  {
    SetSubscription(st, id, st.subscriptions[id].(autoRenew := false, cancelledAt := Some(now)))
  }

  function ExpireIn(st: Store, id: nat, renewsAt: int): Store {
    if id < |st.subscriptions| && st.subscriptions[id].renewsAt == renewsAt && Live(st.subscriptions[id].status)
    then SetSubscription(st, id, st.subscriptions[id].(status := Expired))
    else st
  }

  /** The second step of a plan change: the row starts afresh, whatever its status was. */
  function MovePlanIn(st: Store, id: nat, cycle: BillingCycle, now: int): Store {
    if id >= |st.subscriptions| then st
    else
      var s := st.subscriptions[id];
      SetSubscription(st, id,
          s.(cycle := cycle, startsAt := now, renewsAt := NextRenewal(now, cycle), status := Active))
  }

  function ReassessIn(st: Store, id: nat, seen: Status, owes: bool): Store {
    var target := if owes then PastDue else Active;
    if seen != target && id < |st.subscriptions| && st.subscriptions[id].status == seen
    then SetSubscription(st, id, st.subscriptions[id].(status := target))
    else st
  }

  // ---------- What those steps do ----------

  /** The other rows, and all documents, are left alone. */
  ghost predicate OnlyRow(st: Store, after: Store, id: nat) {
    after.invoices == st.invoices && after.counters == st.counters
    && |after.subscriptions| == |st.subscriptions|
    && forall i :: 0 <= i < |st.subscriptions| && i != id ==> after.subscriptions[i] == st.subscriptions[i]
  }

  /** A cancelled subscription goes on as it was until its date: it is not renewed any more, and from that date on
      it is found to have run out. */
  lemma CancelledRunsToItsEnd(st: Store, id: nat, now: int)
    requires id < |st.subscriptions|
    ensures var s, t := st.subscriptions[id], CancelIn(st, id, now).subscriptions[id];
            OnlyRow(st, CancelIn(st, id, now), id)
            && t.status == s.status && t.renewsAt == s.renewsAt && SameSchedule(s, t) && t.customer == s.customer
            && !t.autoRenew && t.cancelledAt == Some(now)
  {
  }

  /** Expiring compares the date and the status it was listed with: a row renewed or ended meanwhile is left alone. */
  lemma ExpireIff(st: Store, id: nat, renewsAt: int)
    requires id < |st.subscriptions|
    ensures var s, t := st.subscriptions[id], ExpireIn(st, id, renewsAt).subscriptions[id];
            OnlyRow(st, ExpireIn(st, id, renewsAt), id)
            && t == s.(status := t.status)
            && t.status == if s.renewsAt == renewsAt && (s.status == Active || s.status == PastDue) then Expired
                           else s.status
  {
  }

  /** Re-assessing compares the status it saw: one that has changed meanwhile is left alone. */
  lemma ReassessIff(st: Store, id: nat, seen: Status, owes: bool)
    requires id < |st.subscriptions|
    ensures var s, t := st.subscriptions[id], ReassessIn(st, id, seen, owes).subscriptions[id];
            OnlyRow(st, ReassessIn(st, id, seen, owes), id)
            && t == s.(status := t.status)
            && t.status == if s.status != seen then s.status else if owes then PastDue else Active
  {
  }

  /** A new plan starts a new schedule on the day it is changed, and is the customer's own as before. */
  lemma MovedStartsAfresh(st: Store, id: nat, cycle: BillingCycle, now: int)
    requires id < |st.subscriptions|
    ensures var s, t := st.subscriptions[id], MovePlanIn(st, id, cycle, now).subscriptions[id];
            OnlyRow(st, MovePlanIn(st, id, cycle, now), id)
            && t.customer == s.customer && t.status == Active && t.startsAt == now && t.cycle == cycle
            && t.renewsAt == PeriodDate(t, 1) && t.autoRenew == s.autoRenew && t.cancelledAt == s.cancelledAt
  {
    hide NextRenewal, Anniversary;
    FirstAnniversary(now, cycle);
  }

  /** What subscribing leaves: a new row of the customer's that renews, the rows it found active cancelled at that
      moment, and every other row as it was. */
  lemma SubscribedIs(st: Store, customer: nat, cycle: BillingCycle, now: int, missed: set<nat>)
    ensures var after := SubscribeIn(st, customer, cycle, now, missed);
            var n := |st.subscriptions|;
            after.invoices == st.invoices && after.counters == st.counters && |after.subscriptions| == n + 1
            && (forall i :: 0 <= i < n ==>
                  var s, t := st.subscriptions[i], after.subscriptions[i];
                  if s.customer == customer && s.status == Active && i !in missed
                  then t.status == Cancelled && t.cancelledAt == Some(now) && SameSchedule(s, t)
                       && t.renewsAt == s.renewsAt && t.customer == customer && t.autoRenew == s.autoRenew
                  else t == s)
            && (var s := after.subscriptions[n];
                s.customer == customer && s.status == Active && s.autoRenew && s.cancelledAt.None?
                && s.startsAt == now && s.cycle == cycle && s.renewsAt == PeriodDate(s, 1))
  {
    hide NextRenewal, Anniversary;
    FirstAnniversary(now, cycle);
  }

  predicate LiveFor(st: Store, customer: nat, id: nat) {
    id < |st.subscriptions| && st.subscriptions[id].customer == customer && Live(st.subscriptions[id].status)
  }

  /** A live row that subscribing leaves live: only active ones are superseded, and only those it sees. */
  predicate IsLeftLive(st: Store, customer: nat, missed: set<nat>, id: nat) {
    LiveFor(st, customer, id) && (st.subscriptions[id].status == PastDue || id in missed)
  }

  /** A new subscription is the customer's only live one exactly when none of theirs was past due or missed. */
  lemma OnlyLiveOneIff(st: Store, customer: nat, cycle: BillingCycle, now: int, missed: set<nat>)
    ensures var after := SubscribeIn(st, customer, cycle, now, missed);
            LiveFor(after, customer, |st.subscriptions|)
            && ((forall id: nat :: LiveFor(after, customer, id) ==> id == |st.subscriptions|)
                <==> forall id: nat :: !IsLeftLive(st, customer, missed, id))
  {
    hide NextRenewal, SubscribeIn, LiveFor, IsLeftLive;
    var n := |st.subscriptions|;
    var after := SubscribeIn(st, customer, cycle, now, missed);
    forall id: nat
      ensures LiveFor(after, customer, id) <==> id == n || IsLeftLive(st, customer, missed, id)
      ensures IsLeftLive(st, customer, missed, id) ==> id < n
    {
      LiveAfterSubscribing(st, customer, cycle, now, missed, id);
    }
  }

  lemma LiveAfterSubscribing(st: Store, customer: nat, cycle: BillingCycle, now: int, missed: set<nat>, id: nat)
    ensures LiveFor(SubscribeIn(st, customer, cycle, now, missed), customer, id)
            <==> id == |st.subscriptions| || IsLeftLive(st, customer, missed, id)
    ensures LiveFor(st, customer, id) ==> id < |st.subscriptions|
    ensures IsLeftLive(st, customer, missed, id) ==> LiveFor(st, customer, id)
  {
    hide NextRenewal;
  }

  // ---------- The invariant of one subscription ----------

  /** The date subscription `s` reaches with its k-th period. */
  function PeriodDate(s: Subscription, k: int): int {
    Anniversary(s.startsAt, s.cycle, k)
  }

  /** Subscription `id` stands at its k-th anniversary: every earlier one is invoiced exactly once, this
      one at most once, and no other date is invoiced at all. */
  ghost predicate BilledUpTo(st: Store, id: nat, k: int)
    requires id < |st.subscriptions|
  {
    var s := st.subscriptions[id];
    k >= 1
    && s.renewsAt == PeriodDate(s, k)
    && (forall j :: 1 <= j < k ==> CountPeriod(st.invoices, Period(id, PeriodDate(s, j))) == 1)
    && CountPeriod(st.invoices, Period(id, PeriodDate(s, k))) <= 1
    && (forall start :: CountPeriod(st.invoices, Period(id, start)) > 0 ==>
          exists j :: 1 <= j <= k && PeriodDate(s, j) == start)
  }

  ghost predicate Billed(st: Store, id: nat)
    requires id < |st.subscriptions|
  {
    Supported(st.subscriptions[id].startsAt) && exists k :: BilledUpTo(st, id, k)
  }

  ghost predicate ExactlyOnce(st: Store) {
    && (forall id: nat :: id < |st.subscriptions| ==> Billed(st, id))
    && (forall id: nat, start :: CountPeriod(st.invoices, Period(id, start)) > 0 ==> id < |st.subscriptions|)
  }

  ghost predicate StoreInv(st: Store) {
    Gapless(st) && ExactlyOnce(st)
  }

  /** A renewal that read the row: `periodStart` was the renewal date then, `renewsAt` the one after it. */
  ghost predicate ReadEarlier(st: Store, id: nat, periodStart: int, renewsAt: int) {
    id < |st.subscriptions|
    && periodStart <= st.subscriptions[id].renewsAt
    && exists j :: j >= 1 && PeriodDate(st.subscriptions[id], j) == periodStart
                   && PeriodDate(st.subscriptions[id], j + 1) == renewsAt
  }

  ghost predicate SameSchedule(s: Subscription, t: Subscription) {
    s.startsAt == t.startsAt && s.cycle == t.cycle
  }

  /** The later store keeps what a renewal in progress relies on. */
  ghost predicate Later(st: Store, after: Store) {
    && |st.subscriptions| <= |after.subscriptions|
    && (forall id :: 0 <= id < |st.subscriptions| ==>
          SameSchedule(st.subscriptions[id], after.subscriptions[id])
          && st.subscriptions[id].renewsAt <= after.subscriptions[id].renewsAt)
    && (forall p :: CountPeriod(st.invoices, p) <= CountPeriod(after.invoices, p))
  }

  lemma ReadEarlierLasts(st: Store, after: Store, id: nat, periodStart: int, renewsAt: int)
    requires ReadEarlier(st, id, periodStart, renewsAt) && Later(st, after)
    ensures ReadEarlier(after, id, periodStart, renewsAt)
  {
    hide Anniversary;
    var j :| j >= 1 && PeriodDate(st.subscriptions[id], j) == periodStart
             && PeriodDate(st.subscriptions[id], j + 1) == renewsAt;
    assert PeriodDate(after.subscriptions[id], j) == periodStart
           && PeriodDate(after.subscriptions[id], j + 1) == renewsAt;
  }

  // ---------- Each step keeps the invariant ----------

  /** A subscription whose schedule, date and invoices a step does not touch stays billed as it was. */
  lemma BilledIsKept(st: Store, after: Store, id: nat, k: int)
    requires id < |st.subscriptions| && id < |after.subscriptions|
    requires BilledUpTo(st, id, k)
    requires SameSchedule(st.subscriptions[id], after.subscriptions[id])
    requires st.subscriptions[id].renewsAt == after.subscriptions[id].renewsAt
    requires forall start ::
             CountPeriod(after.invoices, Period(id, start)) == CountPeriod(st.invoices, Period(id, start))
    ensures BilledUpTo(after, id, k)
  {
    hide Anniversary;
    var s, t := st.subscriptions[id], after.subscriptions[id];
    assert forall j :: PeriodDate(t, j) == PeriodDate(s, j);
    forall start | CountPeriod(after.invoices, Period(id, start)) > 0
      ensures exists j :: 1 <= j <= k && PeriodDate(t, j) == start
    {
      assert CountPeriod(st.invoices, Period(id, start)) > 0;
      var j :| 1 <= j <= k && PeriodDate(s, j) == start;
      assert PeriodDate(t, j) == start;
    }
  }

  lemma ReadIsEarlier(st: Store, id: nat, pin: Option<int>)
    requires ExactlyOnce(st)
    ensures var r := ReadForRenewal(st, id, pin);
            r.Renewable? ==> ReadEarlier(st, id, r.periodStart, r.renewsAt)
                             && r.periodStart == st.subscriptions[id].renewsAt
                             && (pin.Some? ==> r.periodStart == pin.value)
  {
    hide Anniversary, NextIndex, Supported;
    if ReadForRenewal(st, id, pin).Renewable? {
      var s := st.subscriptions[id];
      assert Billed(st, id);
      var k :| BilledUpTo(st, id, k);
      RenewalStep(s.startsAt, s.cycle, k);
      assert PeriodDate(s, k + 1) == RenewalDateAfter(s.startsAt, s.renewsAt, s.cycle);
    }
  }

  /** The transaction of a renewal in progress keeps every subscription billed exactly once: if the date
      has moved on, the period is invoiced already and the insert is refused. */
  lemma IssueKeepsExactlyOnce(st: Store, draft: Draft, renewsAt: int, now: int)
    requires StoreInv(st)
    requires draft.period.Some? ==> ReadEarlier(st, draft.period.value.subscription, draft.period.value.start, renewsAt)
    ensures StoreInv(IssueIn(st, draft, now).0) && Later(st, IssueIn(st, draft, now).0)
    ensures draft.period.Some? ==> CountPeriod(IssueIn(st, draft, now).0.invoices, draft.period.value) > 0
  {
    hide Anniversary, NextIndex, Supported, FinancialYearFor, IssueIn;
    IssueKeepsGapless(st, draft, now);
    var after := IssueIn(st, draft, now).0;
    assert after.subscriptions == st.subscriptions by { IssueKeepsSubscriptions(st, draft, now); }
    forall p
      ensures CountPeriod(after.invoices, p)
              == if draft.period == Some(p) then Max(1, CountPeriod(st.invoices, p)) else CountPeriod(st.invoices, p)
    {
      IssueCounts(st, draft, now, p);
    }
    forall id: nat | id < |after.subscriptions|
      ensures Billed(after, id)
    {
      assert Billed(st, id);
      var k :| BilledUpTo(st, id, k);
      if draft.period.Some? && draft.period.value.subscription == id {
        IssueKeepsBilled(st, after, id, k, draft.period.value.start, renewsAt);
      } else {
        BilledIsKept(st, after, id, k);
      }
    }
  }

  lemma IssueKeepsSubscriptions(st: Store, draft: Draft, now: int)
    ensures IssueIn(st, draft, now).0.subscriptions == st.subscriptions
  {
    hide FinancialYearFor;
  }

  lemma IssueKeepsBilled(st: Store, after: Store, id: nat, k: int, start: int, renewsAt: int)
    requires id < |st.subscriptions| && after.subscriptions == st.subscriptions
    requires Supported(st.subscriptions[id].startsAt)
    requires BilledUpTo(st, id, k) && ReadEarlier(st, id, start, renewsAt)
    requires forall s :: CountPeriod(after.invoices, Period(id, s))
                         == Max(if s == start then 1 else 0, CountPeriod(st.invoices, Period(id, s)))
    ensures BilledUpTo(after, id, k)
  {
    hide Anniversary, NextIndex, Supported;
    var s := st.subscriptions[id];
    var j :| j >= 1 && PeriodDate(s, j) == start && PeriodDate(s, j + 1) == renewsAt;
    if k < j {
      AnniversariesIncrease(s.startsAt, s.cycle, k, j);
      assert false;
    }
    assert 1 <= j <= k && PeriodDate(s, j) == start;
  }

  /** Advancing after the invoice exists keeps every subscription billed exactly once: the date moves by
      exactly one period, or not at all. */
  lemma AdvanceKeepsExactlyOnce(st: Store, id: nat, periodStart: int, renewsAt: int)
    requires StoreInv(st) && ReadEarlier(st, id, periodStart, renewsAt)
    requires CountPeriod(st.invoices, Period(id, periodStart)) > 0
    ensures StoreInv(AdvanceIn(st, id, periodStart, renewsAt)) && Later(st, AdvanceIn(st, id, periodStart, renewsAt))
  {
    hide Anniversary, NextIndex, Supported;
    var after := AdvanceIn(st, id, periodStart, renewsAt);
    assert after.invoices == st.invoices && after.counters == st.counters;
    if st.subscriptions[id].renewsAt == periodStart {
      assert Billed(st, id);
      var k :| BilledUpTo(st, id, k);
      AdvanceKeepsBilled(st, id, k, periodStart, renewsAt);
      forall i: nat | i < |after.subscriptions|
        ensures Billed(after, i)
      {
        if i != id {
          assert Billed(st, i);
          var k :| BilledUpTo(st, i, k);
          BilledIsKept(st, after, i, k);
        }
      }
    }
  }

  lemma AdvanceKeepsBilled(st: Store, id: nat, k: int, periodStart: int, renewsAt: int)
    requires id < |st.subscriptions| && Supported(st.subscriptions[id].startsAt)
    requires BilledUpTo(st, id, k) && ReadEarlier(st, id, periodStart, renewsAt)
    requires st.subscriptions[id].renewsAt == periodStart
    requires CountPeriod(st.invoices, Period(id, periodStart)) > 0
    ensures BilledUpTo(AdvanceIn(st, id, periodStart, renewsAt), id, k + 1)
    ensures periodStart < renewsAt
  {
    hide Anniversary, NextIndex, Supported;
    var s, after := st.subscriptions[id], AdvanceIn(st, id, periodStart, renewsAt);
    var t := after.subscriptions[id];
    assert forall j :: PeriodDate(t, j) == PeriodDate(s, j);
    var j :| j >= 1 && PeriodDate(s, j) == periodStart && PeriodDate(s, j + 1) == renewsAt;
    AnniversariesAreDistinct(s.startsAt, s.cycle, j, k);
    AnniversariesIncrease(s.startsAt, s.cycle, k, k + 1);
    forall start | CountPeriod(after.invoices, Period(id, start)) > 0
      ensures exists i :: 1 <= i <= k + 1 && PeriodDate(t, i) == start
    {
      var i :| 1 <= i <= k && PeriodDate(s, i) == start;
      assert PeriodDate(t, i) == start;
    }
    if CountPeriod(st.invoices, Period(id, renewsAt)) > 0 {
      var i :| 1 <= i <= k && PeriodDate(s, i) == renewsAt;
      AnniversariesAreDistinct(s.startsAt, s.cycle, i, k + 1);
      assert false;
    }
  }

  /** A step that leaves the invoices alone and the schedules and dates of all rows keeps the invariant. */
  lemma StatusStepKeeps(st: Store, after: Store)
    requires StoreInv(st)
    requires after.counters == st.counters && |after.subscriptions| == |st.subscriptions|
    requires |after.invoices| == |st.invoices|
    requires forall i :: 0 <= i < |st.invoices| ==>
               after.invoices[i] == st.invoices[i].(status := after.invoices[i].status)
    requires forall i :: 0 <= i < |st.subscriptions| ==>
               SameSchedule(st.subscriptions[i], after.subscriptions[i])
                   && after.subscriptions[i].renewsAt == st.subscriptions[i].renewsAt
    ensures StoreInv(after) && Later(st, after)
  {
    hide Anniversary, NextIndex, Supported;
    forall p
      ensures CountPeriod(after.invoices, p) == CountPeriod(st.invoices, p)
    {
      StatusDoesNotCount(st.invoices, after.invoices, p, 0);
    }
    forall year
      ensures SerialsOf(after.invoices, year) == UpTo(Counter(after, year))
    {
      StatusDoesNotCount(st.invoices, after.invoices, Period(0, 0), year);
    }
    forall i: nat | i < |after.subscriptions|
      ensures Billed(after, i)
    {
      assert Billed(st, i);
      var k :| BilledUpTo(st, i, k);
      BilledIsKept(st, after, i, k);
    }
  }

  /** A new subscription stands at its first anniversary with nothing invoiced. */
  lemma NewSubscriptionIsBilled(st: Store, id: nat, now: int)
    requires id < |st.subscriptions| && Supported(now)
    requires st.subscriptions[id].startsAt == now
             && st.subscriptions[id].renewsAt == NextRenewal(now, st.subscriptions[id].cycle)
    requires forall start :: CountPeriod(st.invoices, Period(id, start)) == 0
    ensures Billed(st, id)
  {
    hide Anniversary, NextRenewal, Supported;
    FirstAnniversary(now, st.subscriptions[id].cycle);
    assert BilledUpTo(st, id, 1);
  }

  lemma SubscribeKeeps(st: Store, customer: nat, cycle: BillingCycle, now: int, missed: set<nat>)
    requires StoreInv(st) && Supported(now)
    ensures var after := SubscribeIn(st, customer, cycle, now, missed);
            StoreInv(after) && Later(st, after)
  {
    hide Anniversary, NextIndex, Supported, NextRenewal;
    var after := SubscribeIn(st, customer, cycle, now, missed);
    var n := |st.subscriptions|;
    forall i: nat | i < |after.subscriptions|
      ensures Billed(after, i)
    {
      if i < n {
        assert Billed(st, i);
        var k :| BilledUpTo(st, i, k);
        BilledIsKept(st, after, i, k);
      } else {
        NewSubscriptionIsBilled(after, n, now);
      }
    }
  }
}
