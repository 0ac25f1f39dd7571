# WebEdge hosting panel: a verified model of its hard parts

WebEdge sells hosting plans: it renews subscriptions, issues GST invoices, forwards mail, paces its calls to
hosting providers, edits DNS zones and confines the file manager to a website. This project models those parts of
the backend in Dafny and proves what they promise. To check it, run `dafny verify dfyconfig.toml` in this directory.

## What is modelled

**Billing periods** (`Calendar`). Dates are time values in milliseconds, with the day numbers and civil fields of
section 21.4.1 of ECMA-262, the re-reading of the years 0 to 99 by `Date.UTC` and the sign of JavaScript's `%`
included. What adding months and the financial year do is proved of every date; the search for the next renewal, of
every start from the year 100 on.

**Renewing and invoicing** (`Billing`, `Renewal`, `RenewalProtocol`, `PlanChanges`). Any number of workers list what
is due, re-read a row, run the transaction that numbers and inserts an invoice, and compare-and-swap the renewal date.
A worker's position is its task; it may crash or fail between any two database steps, and staff renew, subscribe,
cancel, void and credit at the same time. The theorems hold of every interleaving, by an inductive invariant. `Sweep`
and `CatchUp` are about sweeps that run to their end, and `SweepRuns` shows that each of them is a run of the
protocol. `Progress` is about sweeps at the same time, `Listings` about going on with a run until everything is caught
up. `PlanChanges` adds plan changes to the runs and says what survives them, `OnePlan` when a customer has two plans
and `Documents` what every document says; `BillingServices.BillingService` holds the services themselves, statement by
statement over tables they update in place, each method proved to do what the specification does. `InvoiceAudit` and
`InvoiceNumber` are the audit of the numbering and the text of a number.

**Mail** (`Strings`, `MailAddress`, `MailRouting`, `MailRuns`, `MailServices`). Addresses are the nodes of a graph.
The resolver is the depth-first walk of the code, with its visited set, chain, depth limit and catch-all; its proof
keeps the order in which addresses are finished. The services write the table after asking the resolver about the
table with the change made.

**GST** (`Rounding`, `Gst`, `GstDiscount`). Whole paise, quotients rounded as the code rounds them, the discount
handed out line by line.

**Smaller parts.** `RateLimiting` is the token bucket; `DnsText` and `DnsAddress` say how records are spelt and what
the texts mean, `DnsZone` holds the zone editors and the grouping that is published; `PathConfinement` the string
tests of the file manager and what they mean for the names in a path.

## Where the code and its own description differ

- `gst.ts:149-152` says that the parts of a discount sum to the whole and no line is reduced past zero. The shares do
  sum to it, but a last line whose share is beyond it is taxed on nothing, and then part of the discount is lost: 50, 50
  and 1 paise less 100 are charged 2 paise (`DiscountCanBeLost`; the exact condition is `DiscountIsTakenOffIff`). And a
  last line that costs nothing is reduced past zero by any share left for it (`FreeLineCanBeCredited`,
  `NoLinePastZeroIff`).
- `invoice.service.ts:288-289` says that a credit note and its invoice sum to zero. The credit note repeats the
  prices and not the discount. Line by line the two are opposite exactly when there was no discount, and for non-negative
  lines so are the totals (`CreditNoteReversesIff`); for any lines the subtotals are exactly when none of it was taken off
  (`CreditNoteSubtotalIff`). The amount payable, being rounded, can cancel all the same: `PayableCanCancel`.
- `mail-routing.ts:126-128` says that a loop never exists. It is true while no domain has a catch-all and writes are
  made one after another: `NeverALoopWithoutCatchAll`. The check does not look at catch-alls, because `*` does not parse
  as an address (`CatchAllCanLoop`), nor at removals, which can let an address fall to a catch-all (`RemovalCanLoop`).
  `NeverALoopIff` says which answers of the resolver would settle it, over whole runs of every kind of write; and
  `ConcurrentWritesAreSafeIff` when two writes checked at the same time are safe (`ConcurrentWritersCanLoop`: not always).
- `subscriptions.service.ts:28-30` says that a customer is never on two plans. There are three ways onto a second one:
  subscribing while another is past due, because only active ones are superseded (`ArrearsCanGiveTwoPlans`); subscribing
  twice at the same time, when neither transaction sees the other's row (`OverlapCanGiveTwoPlans`); and changing the plan
  of a row, superseded ones included, while another is live (`PlanChangeCanGiveTwoPlans`). There is no other:
  `NeverTwoPlansIff` over whole runs, `ActKeepsOnePlanIff` for one step, `OnlyLiveOneIff` for subscribing.
- `subscriptions.service.ts:265-327` changes the plan of a subscription whatever its status, so a cancelled or expired
  one becomes active again (`ExpiredCanBeRevived`). Nothing else does that: `EndedChangesIff`.
- `rate-limiter.service.ts:78` says tokens left; the answer can be -1 (`RemainingCanBeMinusOne`), and is after a call
  exactly until what it found and what has come in since make a whole token (`RemainingIsMinusOneIff`).
- `mail-address.ts:12-13` says that letters, digits and `. _ + -` are accepted. Both parts are trimmed again when they are
  checked, so a blank beside the at sign is accepted too (`BlankIsAccepted`); `PartsAreNormalIff` is the exact condition.
- `dns-validation.ts:77-88` takes an embedded IPv4 address for the last group of an IPv6 address also when a pair of
  colons follows, so `1.2.3.4::` is accepted: `MisplacedIsAccepted`. `AcceptedIsAddressIff` says which texts those are.
- `dns-validation.ts:126-127` leaves it to the caller that a wildcard is the leftmost label of a host name; the caller
  does not look: `WildcardIsAcceptedAnywhere`, `HostnameIsProperIff`.
- `path-confinement.ts:112-116` rejects everything but the root itself when the root is `/`, and nothing otherwise:
  `OutsideIff`, `NothingIsBelowSlash`.

## Model

| member | source | states |
|---|---|---|
| Calendar.FieldsRoundTrip | backend/src/billing/billing-period.ts:48-70 | reading the fields of any date and putting them together gives the date back, and conversely, except in the years 0 to 99 that `Date.UTC` re-reads |
| Calendar.Epoch | backend/src/billing/billing-period.ts:48-70 | the fields of every moment of January 1970, counted in days of 24 hours from its first |
| Calendar.DaysInMonthIsLength | backend/src/billing/billing-period.ts:36-39 | day 0 of the next month is the last day of the month, leap years included |
| Calendar.AddMonthsLands | backend/src/billing/billing-period.ts:48-70 | the result lies in the exact target month, for positive and negative counts, if and only if the target year is not 0 to 99; the time of day is kept and the day is the same or the last of a shorter month |
| Calendar.AddMonthsIncreases | backend/src/billing/billing-period.ts:41-70 | from the year 100 on, more months is a strictly later date, whatever is clamped |
| Calendar.AddMonthsInTwoSteps | backend/src/billing/billing-period.ts:41-70 | two steps reach the month of one step and never a later day; the exact condition for the same day, which holds up to the 28th |
| Calendar.CycleOnTheCalendar | backend/src/billing/billing-period.ts:27-33 | a monthly renewal is in the very next month, a quarterly one three months on, and a yearly, biennial or triennial one in the same month one, two or three years on |
| Calendar.CyclesAgree | backend/src/billing/billing-period.ts:27-33 | four quarters, and twelve months, of one start are its year to the millisecond; two and three years are the longer cycles |
| Calendar.RenewalAfter | backend/src/billing/billing-period.ts:85-104 | for every start from the year 100 on and every date, returns the earliest anniversary after the date; the loop steps at most once, so its bound of 120 never ends it. For other starts it returns what the bounded search finds |
| Calendar.RenewalStep | backend/src/billing/billing-period.ts:75-104 | from the k-th anniversary the next renewal is the (k+1)-th, none skipped and none repeated |
| Calendar.NoDrift | backend/src/billing/billing-period.ts:73-104 | after any number of renewals the date is an anniversary of the start, on the start's own day in every month that has it, at its time of day |
| Calendar.FinancialYearBounds | backend/src/billing/invoice.service.ts:53-65 | a date belongs to the financial year whose 1 April it is not before and whose next 1 April it precedes, and to no other |
| Billing.IssueKeepsGapless | backend/src/billing/invoice.service.ts:158-214 | the transaction keeps every year's serials 1, 2, ... up to the counter, a refusal included, and no number ever clashes |
| Billing.IssuedDocument | backend/src/billing/invoice.service.ts:158-214 | what is issued is the draft asked for, unpaid, as one more row of the financial year the moment lies in; a refusal changes nothing |
| Billing.IssueKeepsNumbersUnique | backend/src/billing/invoice.service.ts:158-214 | no number is given twice, even in tables with gaps |
| Billing.IssueCounts | backend/src/billing/invoice.service.ts:158-214 | a free period gets its one row, a taken one is refused, and no other period's count changes |
| Billing.VoidKeepsTheRow | backend/src/billing/invoice.service.ts:245-282 | voiding is refused exactly for a paid invoice, does its work exactly for an issued one, keeps every number and period taken and what the document says, and touches no other row |
| Billing.VoidedPeriodStaysTaken | backend/src/billing/invoice.service.ts:245-282 | a period whose invoice was voided is not billed again |
| Billing.CreditNoteIsOneMore | backend/src/billing/invoice.service.ts:284-339 | a credit note is issued exactly for a document that is neither void nor a credit note; it is a credit note to the same customer with the next number of its year, points at the original, takes no period, is never due and leaves earlier rows alone |
| Billing.CreditNoteIsNotCredited | backend/src/billing/invoice.service.ts:302-307 | crediting a credit note just issued is refused and changes nothing |
| Billing.CreditRefusals | backend/src/billing/invoice.service.ts:296-300 | nothing is credited exactly of a document there is not, or a void one |
| Renewal.ReadIsEarlier | backend/src/plans/subscriptions.service.ts:116-149 | what a renewal reads is the row's own anniversary and the one after it, and the pinned date if there is a pin |
| Renewal.IssueKeepsExactlyOnce | backend/src/plans/subscriptions.service.ts:151-179 | issuing from a reading however stale keeps every subscription billed exactly once |
| Renewal.AdvanceKeepsExactlyOnce | backend/src/plans/subscriptions.service.ts:181-187 | once the invoice exists the compare-and-swap moves the date by exactly one period or not at all, and skips none |
| Renewal.SubscribeKeeps | backend/src/plans/subscriptions.service.ts:45-57 | a new subscription stands at its first anniversary with nothing invoiced, and the others stay billed as they were |
| Renewal.SubscribedIs | backend/src/plans/subscriptions.service.ts:45-57 | subscribing adds a row of the customer's that renews, cancels at that moment the active ones it sees, and leaves every other row as it was |
| Renewal.CancelledRunsToItsEnd | backend/src/plans/subscriptions.service.ts:214-241 | a cancelled subscription keeps its status and its date and is not renewed any more |
| Renewal.MovedStartsAfresh | backend/src/plans/subscriptions.service.ts:319-327 | a plan change starts the customer's own row on a new schedule from that day, active, and lifts no cancellation |
| Renewal.ExpireIff | backend/src/plans/renewals.service.ts:95-130 | expiring changes a row if and only if it is still live with the date it was listed with, and only its status |
| Renewal.ReassessIff | backend/src/plans/renewals.service.ts:196-219 | re-assessing changes a row if and only if it still has the status it was seen with, and only its status |
| Renewal.OnlyLiveOneIff | backend/src/plans/subscriptions.service.ts:48-57 | at the moment of subscribing, the new subscription is its customer's only live one if and only if none of theirs was past due or went unseen |
| OnePlan.ActKeepsOnePlanIff | backend/src/plans/subscriptions.service.ts:28-57 | a step leaves every customer with one live subscription at most if and only if it is neither a subscribing that leaves a past due or unseen one live nor a plan change of a row beside another live one |
| OnePlan.NeverTwoPlansIff | backend/src/plans/subscriptions.service.ts:28-30 | over every run of workers, subscriptions and plan changes, no customer is ever on two plans if and only if no step is one of those |
| OnePlan.PlanChangeCanGiveTwoPlans | backend/src/plans/subscriptions.service.ts:319-327 | a run in which nobody is ever past due and a customer ends up on two plans |
| OnePlan.ArrearsCanGiveTwoPlans | backend/src/plans/subscriptions.service.ts:48-57 | a run through arrears, truly owed, in which a customer ends up on two plans |
| OnePlan.OverlapCanGiveTwoPlans | backend/src/plans/subscriptions.service.ts:48-57 | two subscribings of one customer at the same time put them on two plans |
| RenewalProtocol.StepKeepsInv | backend/src/plans/subscriptions.service.ts:79-109 | every step of every worker and of everybody else keeps the invariant, whatever the others are in the middle of and however old what a worker has read |
| RenewalProtocol.AnybodyCanDie | backend/src/plans/subscriptions.service.ts:79-92 | a worker can die between any two steps and any step of a renewal can fail; the tables stay as they are |
| RenewalProtocol.ExactlyOnceBilling | backend/src/plans/subscriptions.service.ts:79-212 | over every interleaving with crashes and failures, every subscription stands at some anniversary, each earlier one has exactly one invoice, that one at most one, and no other date or subscription has any |
| RenewalProtocol.GaplessNumbering | backend/src/billing/invoice.service.ts:94-128 | over the same runs each financial year's serials are exactly 1, 2, ... up to its counter (Rule 46(b) of the CGST Rules) |
| PlanChanges.EndedUntilPlanChange | backend/src/plans/renewals.service.ts:95-219 | a cancelled or expired subscription keeps that status through every run, of workers and of staff, in which its plan is not changed |
| PlanChanges.EndedChangesIff | backend/src/plans/subscriptions.service.ts:265-327 | a step changes the status of an ended subscription if and only if it is a change of its plan, which makes it active |
| PlanChanges.ExpiredCanBeRevived | backend/src/plans/subscriptions.service.ts:319-327 | a run in which a subscription is cancelled, expired by a sweep and made active again by a plan change |
| PlanChanges.BooksSurvivePlanChanges | backend/src/plans/subscriptions.service.ts:265-327 | with plans changed in the middle of whatever renewals, still no period is invoiced twice and every year's serials are 1, 2, ... up to the counter |
| Documents.EveryDocumentIsInOrder | backend/src/billing/invoice.service.ts:158-214 | over every run of workers, staff and plan changes, a row for a period bills that subscription's customer, as a tax invoice due when the period begins, and a credit note is against a tax invoice of the same customer, never against a credit note |
| Documents.ExpiredWasCancelled | backend/src/plans/renewals.service.ts:88-94 | over the same runs only a cancelled subscription expires; one whose renewal was switched off is never cut off |
| RenewalProtocol.CatchUpIsScheduleIndependent | backend/src/plans/renewals.service.ts:27-33 | however sweeps were timed, batched, interrupted and interleaved, a subscription past the horizon has exactly the anniversaries up to it invoiced, each once |
| Progress.ListedIsDealtWith | backend/src/plans/renewals.service.ts:23-33 | with any number of instances at once, when a worker that listed what is due has got through its list without failing or dying, every row on it has moved past its listed date or has ended, whoever did it |
| Sweep.RenewAloneIsARun | backend/src/plans/subscriptions.service.ts:111-212 | an uninterrupted renewal is a run of the protocol, recovery from a taken period included |
| Sweep.RenewalBills | backend/src/plans/subscriptions.service.ts:151-165 | a renewal that issues writes one unpaid tax invoice to the subscription's own customer, for the period that begins, due when it begins |
| Sweep.RenewedIff | backend/src/plans/subscriptions.service.ts:116-149 | a renewal moves the date if and only if there is such a row, it is neither cancelled nor expired and the period is the one asked for; otherwise it changes nothing at all |
| Sweep.InterruptedRenewalHeals | backend/src/plans/subscriptions.service.ts:86-89 | from every state of the protocol, whoever died half way, one idle worker can finish what is due: the date moves by one period, and that period has exactly one invoice, a new one or the one left behind |
| Sweep.RenewRowsEffect | backend/src/plans/renewals.service.ts:133-167 | renewing a batch moves exactly the listed rows by one period each and invoices exactly the periods they stood at |
| Sweep.SweepExpires | backend/src/plans/renewals.service.ts:17-21 | with at most 100 of them, every live subscription that was cancelled and whose date has come is expired by the sweep and not invoiced by it |
| Sweep.SweepSettlesArrears | backend/src/plans/renewals.service.ts:169-219 | with at most 100 live rows, a live subscription is past due after a sweep if and only if there is an issued, unpaid document of its customer due before then |
| Sweep.PaidUpIsActive | backend/src/plans/renewals.service.ts:169-219 | a live subscription of a customer all of whose documents are paid, void or not yet due is active after a sweep |
| Sweep.SweepLeavesAlone | backend/src/plans/renewals.service.ts:67-86 | a sweep neither renews, invoices nor ends a row whose date has not come |
| Sweep.SweepMoves | backend/src/plans/renewals.service.ts:180-219 | what a sweep reports as newly past due, or as cleared, is exactly what it made so |
| Sweep.RecoveredIs | backend/src/plans/renewals.service.ts:142-157 | the rows reported as already invoiced are those whose period has a document |
| CatchUp.SweepShortensBacklog | backend/src/plans/renewals.service.ts:133-167 | a sweep brings the outstanding anniversaries down by exactly the number of rows it listed as due |
| CatchUp.SweepsShortenBacklog | backend/src/plans/renewals.service.ts:67-86 | repeated sweeps use up the backlog, one anniversary a sweep at least |
| CatchUp.SweepsCatchUp | backend/src/plans/renewals.service.ts:27-33 | as many sweeps as there are outstanding anniversaries leave exactly those up to now invoiced, each once, in whatever batches |
| CatchUp.FurtherSweepIssuesNothing | backend/src/plans/renewals.service.ts:27-33 | once caught up, a further sweep issues no document |
| SweepRuns.SweepIsARun | backend/src/plans/renewals.service.ts:67-86 | a whole sweep, run alone from any state, is a run of the protocol and leaves the other workers where they were |
| SweepRuns.CatchUpFromAnywhere | backend/src/plans/renewals.service.ts:27-33 | after any interleaved, interrupted, unattended run one idle worker catches up: enough sweeps go on with that run and leave exactly the anniversaries up to now invoiced, each once |
| Listings.SweepIsPossible | backend/src/plans/renewals.service.ts:67-86 | whatever is in the tables, every query of a sweep has a result, so a sweep can always be made |
| Listings.CatchUpIsPossible | backend/src/plans/renewals.service.ts:27-33 | any unattended run with an idle worker can be gone on with until every subscription that renews has exactly the anniversaries up to now invoiced |
| BillingServices.BillingService.AllocateSerial | backend/src/billing/invoice.service.ts:108-122 | the upsert gives 1 in a new year and one more than the last otherwise, and stores it |
| BillingServices.BillingService.Issue | backend/src/billing/invoice.service.ts:130-214 | allocation and insert succeed together or leave both tables as they were |
| BillingServices.BillingService.ForPeriod | backend/src/billing/invoice.service.ts:233-243 | finds the row of a period, and nothing exactly when no row has it |
| BillingServices.BillingService.VoidInvoice | backend/src/billing/invoice.service.ts:251-282 | does the specified voiding, with its four outcomes |
| BillingServices.BillingService.CreditNoteFor | backend/src/billing/invoice.service.ts:291-339 | does the specified crediting, with its refusals in their order |
| BillingServices.BillingService.Subscribe | backend/src/plans/subscriptions.service.ts:45-57 | supersedes the customer's active rows and adds the new one, in one transaction |
| BillingServices.BillingService.Cancel | backend/src/plans/subscriptions.service.ts:222-241 | switches renewal off and keeps the status; cancelling again changes nothing |
| BillingServices.BillingService.ChangePlan | backend/src/plans/subscriptions.service.ts:314-327 | invoices the change for no period and starts the row afresh as active; changes nothing when the subscription is unknown or nothing was issued |
| BillingServices.BillingService.Renew | backend/src/plans/subscriptions.service.ts:111-212 | pin, invoice, recover, compare-and-swap: the state and outcome of the specified renewal |
| BillingServices.BillingService.Expire | backend/src/plans/renewals.service.ts:88-130 | expires and reports exactly the listed rows |
| BillingServices.BillingService.RenewDue | backend/src/plans/renewals.service.ts:133-167 | run alone, every row listed as due is renewed, none is skipped and none fails, and those reported as already invoiced are the rows whose period had an invoice |
| BillingServices.BillingService.ReassessArrears | backend/src/plans/renewals.service.ts:180-219 | moves the assessed rows between active and past due and reports, in their order, those whose status was not what they owe already |
| BillingServices.BillingService.Sweep | backend/src/plans/renewals.service.ts:67-86 | a whole sweep keeps the billing invariant, ends what has run out and settles arrears, and each list of its summary is exactly what happened |
| InvoiceAudit.AuditSequence | backend/src/billing/invoice.service.ts:347-379 | on any table, `missing` is exactly the absent numbers up to the highest, ascending, duplicates are the repeated rows, and a clean answer is given if and only if the serials are exactly 1 to n |
| InvoiceAudit.AuditYear | backend/src/billing/invoice.service.ts:341-379 | on every table billing reaches the audit is clean and counts what the counter says |
| InvoiceAudit.PrintedNumbersAreDistinct | backend/src/billing/invoice.service.ts:67-69 | where numbers are unique no two documents carry the same text |
| InvoiceNumber.NumbersAreDistinct | backend/src/billing/invoice.service.ts:60-69 | two documents have the same text number if and only if they have the same financial year and serial, beyond five digits too |
| InvoiceNumber.NumberReads | backend/src/billing/invoice.service.ts:60-69 | a number reads as the prefix, the year, the last two digits of the next year and the serial in five digits or more |
| Strings.LowerCharIs | backend/src/mail/mail-address.ts:46-48 | each capital becomes its own small letter and no other character changes |
| Strings.TrimIs | backend/src/mail/mail-address.ts:46-48 | trimming takes off the blanks at both ends and nothing between them |
| MailAddress.LocalPartIff | backend/src/mail/mail-address.ts:65-74 | a name is accepted if and only if it is 1 to 64 letters, digits and `. _ -`, begins and ends with a letter or digit and has no empty piece between dots; a plus sign only where it is not stored |
| MailAddress.ParseIsNormal | backend/src/mail/mail-address.ts:83-100 | parsing does not depend on case and blanks, and the parts put together are the normal form |
| MailAddress.ParseOfAddress | backend/src/mail/mail-address.ts:50-100 | an address made of stored parts parses into exactly those parts, or not at all when longer than 254 |
| MailAddress.PartsAreNormalIff | backend/src/mail/mail-address.ts:12-13 | the parts of an accepted address are the names they should be if and only if there is no blank beside the at sign |
| MailAddress.BlankIsAccepted | backend/src/mail/mail-address.ts:65-100 | any stored name followed by a blank is accepted before the at sign |
| MailRouting.TargetMeans | backend/src/mail/mail-routing.ts:70-111 | from the table alone: an unhosted domain is foreign, a mailbox comes before an alias, an alias before the catch-all, and without any nothing delivers |
| MailRouting.ResolveAddress | backend/src/mail/mail-routing.ts:44-121 | without a loop the answer is exact: no cycle can be reached, and delivered, foreign and caught are precisely the reachable addresses that are mailboxes of the table, lie in no hosted domain, or fall to a catch-all; a loop is a reachable cycle or a simple chain of 21 addresses |
| MailRouting.Resolver.Walk | backend/src/mail/mail-routing.ts:59-111 | the walk keeps its record exact, finishes its address or reports a genuine reason, and never forgets a reported loop |
| MailRouting.PathGoesBack | backend/src/mail/mail-routing.ts:59-111 | a path from a finished address only leads to addresses finished earlier |
| MailRuns.AliasKeepsAcyclicIff | backend/src/mail/mail-routing.ts:123-150 | writing a named alias, whatever catch-alls there are, keeps the graph free of cycles if and only if none can be reached from that alias afterwards, so the check is exact |
| MailRuns.RemovalKeepsAcyclicIff | backend/src/mail/mailboxes.service.ts:207-233 | removing a mailbox or an alias keeps the graph free of cycles if and only if the freed address can reach none afterwards |
| MailRuns.WriteKeepsInv | backend/src/mail/aliases.service.ts:49-155 | every write the services allow, catch-alls and removals included, keeps names in normal form and none of them reserved, no name both mailbox and alias, and every cycle leading through a catch-all |
| MailRuns.NeverALoopWithoutCatchAll | backend/src/mail/mail-routing.ts:126-128 | from nothing, after every run of alias, mailbox and domain writes, every cycle leads through an address a catch-all forwards; without a catch-all there is none |
| MailRuns.WriteKeepsLoopFreeIff | backend/src/mail/mail-routing.ts:123-150 | an allowed write of any kind keeps mail from looping if and only if the resolver's answer about the changed address, or the destinations of a catch-all, is no cycle |
| MailRuns.NeverALoopIff | backend/src/mail/mail-routing.ts:126-128 | over whole runs of every kind of write, mail never loops at any point if and only if that check would have passed at each write |
| MailRuns.CatchAllIsNotAsked | backend/src/mail/mail-routing.ts:135-136 | the address of a catch-all never parses, so the check never sees it |
| MailRuns.CatchAllCanLoop | backend/src/mail/aliases.service.ts:58-91 | pointed at any unused address of its domain, a catch-all makes a loop |
| MailRuns.RemovalCanLoop | backend/src/mail/mailboxes.service.ts:207-233 | a catch-all pointed at a mailbox of its domain makes no loop until the mailbox is removed, and then does |
| MailRuns.CatchAllKeepsAcyclicIff | backend/src/mail/aliases.service.ts:58-137 | writing a first or a new catch-all keeps the graph free of cycles if and only if no destination can reach one in the table with it in place |
| MailRuns.ConcurrentWritesAreSafeIff | backend/src/mail/aliases.service.ts:87-91 | two different writes checked on the same table leave mail without loops and no name used twice if and only if the second, made after the first, would pass its checks again or changes nothing |
| MailRuns.ConcurrentWritersCanLoop | backend/src/mail/aliases.service.ts:87-91 | two crossed aliases each pass the check on the same table and together make a loop |
| MailServices.CheckedDestinations | backend/src/mail/aliases.service.ts:170-187 | what is stored is every destination once, valid, in normal form and none left out |
| MailServices.CheckedIff | backend/src/mail/aliases.service.ts:170-187 | a list is accepted if and only if it names 1 to 50 different addresses, blanks and repeats aside, and all are valid |
| MailServices.CleanedInOrder | backend/src/mail/aliases.service.ts:170-171 | destinations stay in the order they first appear in |
| MailServices.AliasIsInOrderIff | backend/src/mail/aliases.service.ts:54-85 | an alias gets as far as the loop check if and only if its domain is active, its list acceptable, and its name the catch-all or valid, not reserved and nobody's |
| MailServices.MailboxIsInOrderIff | backend/src/mail/mailboxes.service.ts:83-119 | a mailbox is created if and only if its domain is active, its name valid, not reserved and nobody's, and the plan has room |
| MailServices.WouldCreateLoop | backend/src/mail/mail-routing.ts:130-150 | no answer means no cycle can be reached from the alias in the table with the change; an answer is a genuine reason |
| MailServices.StoredAddress | backend/src/mail/aliases.service.ts:87-91 | the address asked about is that of the row to be written |
| MailServices.JoinedOfTwo | backend/src/mail/mail-domains.service.ts:157-160 | the chunks of a long value are put together in their order |
| MailServices.MailService.CreateAlias | backend/src/mail/aliases.service.ts:49-103 | refuses in the order of its checks and changes nothing, or makes exactly the allowed write, a catch-all's included |
| MailServices.MailService.UpdateAlias | backend/src/mail/aliases.service.ts:105-137 | the same for new destinations of an existing alias, active domain or not |
| MailServices.MailService.RemoveAlias | backend/src/mail/aliases.service.ts:139-155 | removes exactly that alias, or reports that there is none |
| MailServices.MailService.CreateMailbox | backend/src/mail/mailboxes.service.ts:78-144 | refuses in the order of its checks, an alias of the name included, or adds exactly that mailbox |
| MailServices.MailService.RemoveMailbox | backend/src/mail/mailboxes.service.ts:207-239 | removes exactly that mailbox, only when its address is typed back |
| MailServices.MailService.AddDomain | backend/src/mail/mail-domains.service.ts:76-115 | adds a valid name nobody has claimed, with nothing on it, its own token, and not active |
| MailServices.MailService.VerifyDomain | backend/src/mail/mail-domains.service.ts:117-183 | a domain becomes active exactly when the token it was given is published, whole and with its prefix |
| MailServices.MailService.RemoveDomain | backend/src/mail/mail-domains.service.ts:215-241 | removes the domain and everything on it, its active status included, only when its name is typed back |
| Rounding.RoundBounds | backend/src/billing/gst.ts:87-96 | rounding is off by at most a half |
| Rounding.HalfGoesAway | backend/src/billing/gst.ts:87-96 | a half goes away from zero on both sides |
| Rounding.RoundIsOdd | backend/src/billing/gst.ts:87-96 | rounding is symmetric about zero |
| Rounding.TruncIs | backend/src/billing/gst.ts:105-108 | the quotient's size rounded down, with its sign |
| Gst.CalculateInvoice | backend/src/billing/gst.ts:154-211 | the running totals and the discount handed out line by line give the specified lines and sums |
| Gst.HalvesSum | backend/src/billing/gst.ts:98-108 | the halves sum exactly and differ by at most a paisa, which goes to CGST |
| Gst.PlaceIs | backend/src/billing/gst.ts:63-75 | abroad the place is the country, else the state on record, else the supplier's |
| Gst.WhoIsPaidByState | backend/src/billing/gst.ts:63-85 | from the customer's record: in the supplier's state, or none, the full tax is CGST and SGST; in another it is IGST; abroad there is none |
| Gst.WhoIsPaid | backend/src/billing/gst.ts:63-85 | an export bears no tax, CGST and SGST are charged only in the supplier's own state, IGST only in another |
| Gst.HostingIsTaxedAt18 | backend/src/billing/gst.ts:15-17 | a line that says nothing else is SAC 998315 at 18 per cent |
| Gst.TotalColumns | backend/src/billing/gst.ts:187-191 | each total is the sum of its own column |
| Gst.TotalsReconcile | backend/src/billing/gst.ts:105-210 | total tax is the same whichever authority it goes to and within half a paisa a line of the exact tax; the total is whole rupees with a round-off of at most 50 paise (section 170 of the CGST Act) |
| Gst.ExactReversal | backend/src/billing/gst.ts:87-211 | negating every price, with the same discount, negates every amount of every line and of the document |
| GstDiscount.DiscountIs | backend/src/billing/gst.ts:165-170 | all of the discount asked for is given, on either side of zero, but never more than the document, and nothing for nothing or less |
| GstDiscount.SharesAreFair | backend/src/billing/gst.ts:172-185 | for non-negative lines, shares sum exactly to the discount; all but the last are their proportion rounded down and within their line; the last exceeds its proportion by less than a paisa a line |
| GstDiscount.SubtotalIs | backend/src/billing/gst.ts:121-129 | for lines of any sign the subtotal is gross less discount, plus what the last line was overdrawn by |
| GstDiscount.DiscountIsTakenOffIff | backend/src/billing/gst.ts:149-187 | of any invoice, the whole discount is taken off if and only if the last share does not go beyond its line |
| GstDiscount.DiscountCanBeLost | backend/src/billing/gst.ts:149-187 | an invoice of three lines whose discount is not all taken off |
| GstDiscount.NoLinePastZeroIff | backend/src/billing/gst.ts:121-152 | for lines of any sign, none is reduced past zero if and only if the last costs something or no share of the discount is left for it |
| GstDiscount.FreeLineCanBeCredited | backend/src/billing/gst.ts:121-152 | an invoice whose last line costs nothing and is reduced past zero |
| GstDiscount.RoomIsEnough | backend/src/billing/gst.ts:149-187 | when the last line leaves a paisa of room for every other line, no line passes zero and the whole discount is taken off |
| GstDiscount.CreditNoteReverses | backend/src/billing/invoice.service.ts:284-322 | the credit note of an invoice without discount is its opposite line by line and in total, rupee rounding included |
| GstDiscount.CreditNoteSubtotalIff | backend/src/billing/invoice.service.ts:284-322 | of any invoice, the credit note takes the subtotal back if and only if nothing of a discount was taken off |
| GstDiscount.CreditNoteReversesIff | backend/src/billing/invoice.service.ts:284-322 | of any invoice, every line of the credit note is opposite to the invoice's if and only if there was no discount; for non-negative lines so are all the totals |
| GstDiscount.PayableCanCancel | backend/src/billing/invoice.service.ts:284-322 | an invoice with a discount whose rounded amount payable its credit note takes back exactly |
| GstDiscount.InclusiveInvertsTaxing | backend/src/billing/gst.ts:213-227 | splitting a taxable value plus its tax gives back exactly the two, at every rate |
| GstDiscount.InclusiveIsNearlyInverse | backend/src/billing/gst.ts:213-227 | taxing the split of an inclusive price comes back to within a paisa, at every rate below 200 per cent |
| RateLimiting.RefillInSteps | backend/src/providers/rate-limiter.service.ts:138-147 | refilling at several times is refilling once |
| RateLimiting.AMinuteFills | backend/src/providers/rate-limiter.service.ts:138-147 | what comes in is in proportion to the time, and a minute fills an empty bucket |
| RateLimiting.LetThroughIff | backend/src/providers/rate-limiter.service.ts:101-112 | a customer is let through while any token is left, background work while more than a quarter of the limit is, and takes exactly one |
| RateLimiting.BurstOf | backend/src/providers/rate-limiter.service.ts:36-45 | at once a full bucket lets 70 calls through for availability, 30 for billing and 60 for the others |
| RateLimiting.ProviderRateLimiter.FirstCallSucceeds | backend/src/providers/rate-limiter.service.ts:128-136 | a new bucket is full: its first call is let through, whoever makes it |
| RateLimiting.RunKeepsRange | backend/src/providers/rate-limiter.service.ts:95-147 | tokens stay above -1 and at or below the limit, whoever comes when, even if the clock goes back |
| RateLimiting.IntervalBound | backend/src/providers/rate-limiter.service.ts:95-147 | however customers and background work interleave, fewer than limit + 1 + limit * T / 60000 acquisitions succeed in any T milliseconds |
| RateLimiting.ReserveIsKept | backend/src/providers/rate-limiter.service.ts:104-111 | background work alone never takes a bucket to limit / 4 - 1 or below |
| RateLimiting.RemainingIsAvailable | backend/src/providers/rate-limiter.service.ts:78-83 | if r tokens are left, r calls can succeed at that moment and at most r + 1 |
| RateLimiting.RemainingIsMinusOneIff | backend/src/providers/rate-limiter.service.ts:78-83 | at any time after a successful call the answer is -1 if and only if the tokens it found and what has come in since are less than one |
| RateLimiting.RemainingCanBeMinusOne | backend/src/providers/rate-limiter.service.ts:78-83 | at every limit of the table a run from a full bucket leads to -1 |
| RateLimiting.ProviderRateLimiter.TryOnce | backend/src/providers/rate-limiter.service.ts:101-114 | one turn of the loop refills and takes a token above the reserve, on its own bucket only |
| RateLimiting.ProviderRateLimiter.Acquire | backend/src/providers/rate-limiter.service.ts:95-121 | alone on its bucket, it takes exactly one token, or none after 120 turns |
| RateLimiting.ProviderRateLimiter.Remaining | backend/src/providers/rate-limiter.service.ts:78-83 | refills the bucket, takes nothing and answers its whole tokens |
| DnsText.IPv4Iff | backend/src/dns/dns-validation.ts:54-65 | exactly four bytes in decimal with dots are accepted, so an address has one spelling |
| DnsAddress.GroupIsSixteenBits | backend/src/dns/dns-validation.ts:88 | every number of sixteen bits in hexadecimal is a group and every group is such a number, in capitals or not |
| DnsAddress.IPv6Iff | backend/src/dns/dns-validation.ts:67-91 | every spelling of an IPv6 address (section 2.2 of RFC 4291) is accepted, and beyond those only an IPv4 address followed by a pair of colons |
| DnsAddress.AcceptedIsAddressIff | backend/src/dns/dns-validation.ts:67-91 | an accepted text is an address if and only if it has no dot or does not end in a pair of colons |
| DnsAddress.MisplacedIsAccepted | backend/src/dns/dns-validation.ts:77-88 | any IPv4 address followed by a pair of colons is accepted and is no address |
| DnsText.HostnameIsProperIff | backend/src/dns/dns-validation.ts:118-131 | what is accepted is a host name if and only if no label but the first is a wildcard |
| DnsText.WildcardIsAcceptedAnywhere | backend/src/dns/dns-validation.ts:118-131 | a wildcard that is not the leftmost label of a host name is accepted |
| DnsText.LabelsIgnoreCase | backend/src/dns/dns-validation.ts:43-52 | whether a label is accepted does not depend on capitals |
| DnsText.MailDomainIff | backend/src/dns/dns-validation.ts:118-131 | the domains mail accepts are the host names of two labels and more without wildcards and a final dot |
| DnsText.RecordNames | backend/src/dns/dns-validation.ts:133-140 | names of records are host names without wildcards and a final dot, but a label may begin with an underscore, a wildcard may stand in front, and `@` is the domain |
| DnsText.ServiceNameIff | backend/src/dns/dns-validation.ts:227-234 | an SRV name is an underscore and a service, one of three protocols, and nothing or a dot and the rest |
| DnsText.CaaReadsBack | backend/src/dns/dns-validation.ts:255-272 | a CAA value put together from its parts reads back into exactly those parts, and is valid if and only if the flags are 0 or 128 and there is an authority |
| DnsZone.ValidateRecord | backend/src/dns/dns-validation.ts:142-277 | no issue exactly for a record well named, well spelt and complete for its type; each kind of issue is reported exactly when it occurs |
| DnsZone.AcceptableIff | backend/src/dns/dns-validation.ts:142-277 | what is acceptable, in numbers and in what the values of each type are |
| DnsZone.ValidateAgainstZone | backend/src/dns/dns-validation.ts:285-360 | every conflict between the record and one already there is reported, and no other; none if and only if the record may stand beside every other |
| DnsZone.CompatibleMeans | backend/src/dns/dns-validation.ts:285-360 | two records may stand together if and only if their names differ in every spelling, or neither is a CNAME and they are not both SPF, both DMARC or the same |
| DnsZone.IntegrityMeans | backend/src/dns/dns-validation.ts:292-357 | a CNAME is alone at its name in any spelling (section 3.6.2 of RFC 1034), a name has at most one SPF record, the domain one DMARC record, and no record is there twice |
| DnsZone.StoredIs | backend/src/dns/dns.service.ts:57-69 | a customer's value is stored without the blanks around it, a member of staff's as entered, and nothing else changes |
| DnsZone.StoredIsCompatible | backend/src/dns/dns.service.ts:57-69 | trimming the value when it is stored makes no difference to any conflict |
| DnsZone.EditsKeepIntegrity | backend/src/dns/admin-dns.service.ts:58-156 | every sequential run of accepted customer and staff edits keeps the zone's integrity |
| DnsZone.ZoneEditor.CreateRecord | backend/src/dns/dns.service.ts:50-80 | adds exactly the stored record when nothing conflicts with any row, and nothing otherwise |
| DnsZone.ZoneEditor.UpdateRecord | backend/src/dns/dns.service.ts:82-116 | replaces exactly that row under the same rules, not compared with itself |
| DnsZone.ZoneEditor.RemoveRecord | backend/src/dns/dns.service.ts:118-130 | removes exactly that row |
| DnsZone.GroupForPublishing | backend/src/hosting/provider-hosting.service.ts:431-450 | one entry for each name and type, with all its values in order and the least TTL, and no value lost or added |
| DnsZone.ValuesOfTwo | backend/src/hosting/provider-hosting.service.ts:431-450 | the values of a name and type are those of its records, one after another |
| DnsZone.PublishedCnameIsAlone | backend/src/hosting/provider-hosting.service.ts:431-450 | a zone with integrity is published with every CNAME as the only entry at its name, with one value |
| PathConfinement.BoundaryIs | backend/src/files/path-confinement.ts:112-116 | the comparison of strings holds if and only if the root's names begin the path's, except below `/` |
| PathConfinement.OneStepFurther | backend/src/files/path-confinement.ts:108-110 | one more name on an absolute path: `..` goes up and stops at the top, `.` and nothing stay, anything else goes down |
| PathConfinement.OneStepFurtherFrom | backend/src/files/path-confinement.ts:130-132 | the same of a relative path, where `..` goes on beyond the start |
| PathConfinement.InsideIff | backend/src/files/path-confinement.ts:129-133 | a real path is inside if and only if it is absolute or relative like the root and its names begin with the root's, nothing but the root being inside one without names; for every root and path |
| PathConfinement.JoinedIs | backend/src/files/path-confinement.ts:108-110 | the joined and normalised path consists of the root's names and the names asked for |
| PathConfinement.AcceptedIsConfined | backend/src/files/path-confinement.ts:53-120 | an accepted path is the root's names followed by names asked for, none `..`, denied or too long; it passes the check on real paths, and is the root followed by the relative path |
| PathConfinement.AcceptedIff | backend/src/files/path-confinement.ts:53-120 | exactly which paths are accepted, in terms of names: plain text, names that may be asked for, and a root other than `/` or nothing asked for |
| PathConfinement.LastTestIs | backend/src/files/path-confinement.ts:112-116 | the final test rejects nothing that passed the others unless the root is `/`, and there everything but the root |
| PathConfinement.OutsideIff | backend/src/files/path-confinement.ts:112-116 | the final test rejects exactly those paths that are in order in themselves, are not the root and are asked for under the root `/` |
| PathConfinement.NothingIsBelowSlash | backend/src/files/path-confinement.ts:112-116 | under the root `/` the file `a` is rejected |

## Left out

- The database, HTTP, SFTP, DNS lookups, password hashing, the activity trail and notifications: input and output. Transactions, unique keys and compare-and-swap updates are single steps, except that the transaction of subscribing need not see what others commit meanwhile; what a query returns is a parameter, any list it could return; clocks are parameters.
- Dates beyond the range of `Date` (8.64e15 milliseconds), and the theorems on renewals for starts before the year 100, where `Date.UTC` moves a year into the twentieth century. `AddMonthsLands` says what happens there.
- RenewalProtocol.ExactlyOnceBilling: is about a fixed anchor and cycle; plan changes and edits of a plan's billing cycle move them by an unconditional update, and what survives that is `BooksSurvivePlanChanges`. Proration is left out.
- No invoice after a cancellation while workers are running: the advance compares only the date, so a worker that read the row before may still invoice it. It is proved for whole sweeps (`SweepExpires`).
- Payments: an invoice becomes paid by an event from outside.
- The amounts of invoices are not stored in the tables of `Billing`; `GstDiscount` states what a credit note computes from the lines of its original. An invoice without lines is refused before any of this.
- A missing reason for a void or a cancellation, an unknown customer or a withdrawn plan is refused before the modelled steps.
- MailRuns.NeverALoopWithoutCatchAll: promises nothing of tables with a catch-all beyond where their cycles lead, because there the source's promise is false; `NeverALoopIff` has the condition.
- MailServices.MailService.CreateAlias: tables are kept as the routing map itself instead of rows from which the map is filled; the unique key on domain and name makes the two the same.
- An alias switched off, which the routing does not look at either; ownership of a domain, and plan limits, which come in as one boolean; suspended domains, which only count as not active.
- Sorting of the resolver's answers, which are sets here; Postfix's treatment of plus-tags.
- Trimming and lower-casing beyond ASCII, in names, addresses and paths.
- The wording of messages, and a number that is not whole in a DNS record.
- A zone edited by two requests at once: neither editor locks the zone, so the runs are sequential.
- RateLimiting.IntervalBound: `penalize` and `reset` are left out, because they rewrite a bucket at will.
- Floating point: tokens are rational numbers, amounts and quotients are exact, and -0 is 0.
- PathConfinement.AcceptedIsConfined: percent-decoding is any function that may fail, and joining is modelled on an absolute root, which the source demands. Cleaning the name of an uploaded file is left out.
- GSTIN formats, lists and views for staff, plan limits, authentication and the frontend: easy members or user interface.
