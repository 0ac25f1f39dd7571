/**
 The token bucket that paces calls to a provider (backend/src/providers/rate-limiter.service.ts).

 Tokens are rational numbers; the clock is read as an argument and may even go backwards. Between two
 awaits nothing else runs, so one turn of the waiting loop is one event on its bucket.
 */
module RateLimiting {
  const WINDOW_MS := 60_000

  datatype Bucket = Bucket(tokens: real, lastRefill: int)

  datatype Priority = Customer | Background

  datatype Event =
    | Try(now: int, priority: Priority)  // one turn of the loop of `acquire`
    | Look(now: int)                     // `remaining`

  function Time(e: Event): int { e.now }

  /** What `ms` milliseconds put into a bucket of `limit` a minute. */
  function Gain(limit: nat, ms: int): real {
    (ms as real / WINDOW_MS as real) * limit as real
  }

  function Capped(limit: nat, tokens: real): real {
    if tokens <= limit as real then tokens else limit as real
  }

  function Refill(b: Bucket, limit: nat, now: int): Bucket {
    if now - b.lastRefill <= 0 then b
    else Bucket(Capped(limit, b.tokens + Gain(limit, now - b.lastRefill)), now)
  }

  /** What background work leaves for customers. */
  function Floor(limit: nat, priority: Priority): real {
    if priority == Background then limit as real * 0.25 else 0.0
  }

  /** The bucket after an event, and how many tokens it took. */
  function Apply(b: Bucket, limit: nat, e: Event): (Bucket, nat) {
    var r := Refill(b, limit, e.now);
    if e.Try? && r.tokens > Floor(limit, e.priority) then (r.(tokens := r.tokens - 1.0), 1) else (r, 0)
  }

  function Run(b: Bucket, limit: nat, events: seq<Event>): (Bucket, nat) {
    if events == [] then (b, 0)
    else
      var (before, n) := Run(b, limit, events[..|events| - 1]);
      var (after, k) := Apply(before, limit, events[|events| - 1]);
      (after, n + k)
  }

  // ---------- Refilling ----------

  lemma GainIsAdditive(limit: nat, a: int, b: int)
    ensures Gain(limit, a + b) == Gain(limit, a) + Gain(limit, b)
    ensures b >= 0 ==> Gain(limit, b) >= 0.0
  {
    var x, y := a as real / WINDOW_MS as real, b as real / WINDOW_MS as real;
    assert (x + y) * limit as real == x * limit as real + y * limit as real;
  }

  /** Refilling at several times is refilling once, at the last of them. */
  lemma RefillInSteps(b: Bucket, limit: nat, t1: int, t2: int)
    requires t1 <= t2
    ensures Refill(Refill(b, limit, t1), limit, t2) == Refill(b, limit, t2)
  {
    hide Gain;
    GainIsAdditive(limit, t1 - b.lastRefill, t2 - t1);
  }

  /** A minute fills an empty bucket, and no sooner: what comes in is in proportion to the time. */
  lemma AMinuteFills(limit: nat, now: int, ms: nat)
    requires ms <= 60_000
    ensures 60_000.0 * Refill(Bucket(0.0, now), limit, now + ms).tokens == (ms * limit) as real
  {
    var share := ms as real / 60_000.0;
    assert share * limit as real <= limit as real by { Proportion(share, limit as real); }
    assert 60_000.0 * (share * limit as real) == (60_000.0 * share) * limit as real;
    assert (ms as real) * (limit as real) == (ms * limit) as real;
  }

  lemma Proportion(share: real, whole: real)
    requires share <= 1.0 && whole >= 0.0
    ensures share * whole <= whole
  {
    assert (1.0 - share) * whole >= 0.0;
  }

  // ---------- Who is let through ----------

  /** A customer is let through while there is any token left, background work while there is more than a quarter of
      the limit; and whoever is takes exactly one. */
  lemma LetThroughIff(b: Bucket, limit: nat, e: Event)
    requires e.Try?
    ensures var found, (after, taken) := Refill(b, limit, e.now), Apply(b, limit, e);
            (taken == 1 <==> if e.priority == Customer then found.tokens > 0.0 else 4.0 * found.tokens > limit as real)
            && taken <= 1 && after.tokens == found.tokens - taken as real && after.lastRefill == found.lastRefill
  {
    hide Gain;
  }

  // ---------- Tokens ----------

  predicate InRange(b: Bucket, limit: nat) {
    -1.0 < b.tokens <= limit as real
  }

  lemma ApplyKeepsRange(b: Bucket, limit: nat, e: Event)
    requires InRange(b, limit)
    ensures InRange(Apply(b, limit, e).0, limit)
  {
    hide Gain;
    if e.now > b.lastRefill {
      GainIsAdditive(limit, 0, e.now - b.lastRefill);
    }
  }

  /** Tokens never go above the limit nor as low as -1, whoever comes when. */
  lemma {:induction false} RunKeepsRange(b: Bucket, limit: nat, events: seq<Event>)
    requires InRange(b, limit)
    ensures InRange(Run(b, limit, events).0, limit)
  {
    hide Apply;
    if events != [] {
      RunKeepsRange(b, limit, events[..|events| - 1]);
      ApplyKeepsRange(Run(b, limit, events[..|events| - 1]).0, limit, events[|events| - 1]);
    }
  }

  /** What is taken and what is left never exceed what there was and what the time that passed put in. */
  lemma ApplyBalance(b: Bucket, limit: nat, e: Event)
    ensures var (after, k) := Apply(b, limit, e);
            b.lastRefill <= after.lastRefill
            && k as real + after.tokens <= b.tokens + Gain(limit, after.lastRefill - b.lastRefill)
  {
    hide Gain;
    GainIsAdditive(limit, 0, 0);
  }

  lemma {:induction false} RunBalance(b: Bucket, limit: nat, events: seq<Event>, end: int)
    requires forall e :: e in events ==> Time(e) <= end
    ensures var (after, n) := Run(b, limit, events);
            b.lastRefill <= after.lastRefill
            && (after.lastRefill == b.lastRefill || after.lastRefill <= end)
            && n as real + after.tokens <= b.tokens + Gain(limit, after.lastRefill - b.lastRefill)
  {
    hide Gain, Apply;
    if events == [] {
      GainIsAdditive(limit, 0, 0);
    } else {
      var last := events[|events| - 1];
      assert last in events;
      RunBalance(b, limit, events[..|events| - 1], end);
      var before := Run(b, limit, events[..|events| - 1]).0;
      ApplyBalance(before, limit, last);
      ApplyTime(before, limit, last);
      var after := Apply(before, limit, last).0;
      GainIsAdditive(limit, before.lastRefill - b.lastRefill, after.lastRefill - before.lastRefill);
    }
  }

  lemma ApplyTime(b: Bucket, limit: nat, e: Event)
    ensures Apply(b, limit, e).0.lastRefill == if e.now > b.lastRefill then e.now else b.lastRefill
  {
    hide Gain;
  }

  /** Refilling first, at the time of the first event, makes no difference. */
  lemma {:induction false} RefillFirst(b: Bucket, limit: nat, events: seq<Event>)
    requires events != []
    ensures Run(Refill(b, limit, Time(events[0])), limit, events) == Run(b, limit, events)
  {
    hide Apply, Refill;
    var n := |events| - 1;
    if n == 0 {
      assert events[..0] == [];
      ApplyRefilled(b, limit, events[0]);
    } else {
      RefillFirst(b, limit, events[..n]);
    }
  }

  lemma ApplyRefilled(b: Bucket, limit: nat, e: Event)
    ensures Apply(Refill(b, limit, e.now), limit, e) == Apply(b, limit, e)
  {
    hide Gain;
    RefillInSteps(b, limit, e.now, e.now);
  }

  /** The rate bound: however customers and background work interleave, in any interval of `length`
      milliseconds fewer than limit + 1 + limit * length / 60000 acquisitions succeed. */
  lemma IntervalBound(b: Bucket, limit: nat, events: seq<Event>, start: int, length: nat)
    requires InRange(b, limit)
    requires forall e :: e in events ==> start <= Time(e) <= start + length
    ensures Run(b, limit, events).1 as real < limit as real + 1.0 + Gain(limit, length)
  {
    hide Gain, Run, Refill;
    GainIsAdditive(limit, 0, length);
    if events == [] {
      NoEvents(b, limit);
    } else {
      var first := Refill(b, limit, Time(events[0]));
      RefillFirst(b, limit, events);
      FirstRefill(b, limit, events[0].now);
      RunBalance(first, limit, events, start + length);
      RunKeepsRange(first, limit, events);
      var after := Run(first, limit, events).0;
      assert after.lastRefill - first.lastRefill <= length;
      GainIsAdditive(limit, after.lastRefill - first.lastRefill, length - (after.lastRefill - first.lastRefill));
    }
  }

  lemma NoEvents(b: Bucket, limit: nat)
    ensures Run(b, limit, []) == (b, 0)
  {
  }

  lemma FirstRefill(b: Bucket, limit: nat, now: int)
    requires InRange(b, limit)
    ensures InRange(Refill(b, limit, now), limit) && Refill(b, limit, now).lastRefill >= now
  {
    hide Gain;
    if now > b.lastRefill {
      GainIsAdditive(limit, 0, now - b.lastRefill);
    }
  }

  /** Background work alone never takes the reserve: it leaves more than limit / 4 - 1 tokens. */
  lemma {:induction false} ReserveIsKept(b: Bucket, limit: nat, events: seq<Event>)
    requires b.tokens > limit as real * 0.25 - 1.0
    requires forall e :: e in events ==> e.Look? || e.priority == Background
    ensures Run(b, limit, events).0.tokens > limit as real * 0.25 - 1.0
  {
    hide Apply;
    if events != [] {
      var n := |events| - 1;
      ReserveIsKept(b, limit, events[..n]);
      assert events[n] in events;
      ApplyKeepsReserve(Run(b, limit, events[..n]).0, limit, events[n]);
    }
  }

  lemma ApplyKeepsReserve(b: Bucket, limit: nat, e: Event)
    requires b.tokens > limit as real * 0.25 - 1.0 && (e.Look? || e.priority == Background)
    ensures Apply(b, limit, e).0.tokens > limit as real * 0.25 - 1.0
  {
    hide Gain;
    if e.now > b.lastRefill {
      GainIsAdditive(limit, 0, e.now - b.lastRefill);
    }
  }

  // ---------- What `remaining` promises ----------

  /** `m` customers calling in the same millisecond. */
  function AtOnce(now: int, m: nat): (events: seq<Event>)
    ensures |events| == m && forall i :: 0 <= i < m ==> events[i] == Try(now, Customer)
  {
    seq(m, i => Try(now, Customer))
  }

  /** Of `m` calls in one millisecond as many succeed as there are tokens, rounded up. */
  lemma {:induction false} TakenAtOnce(b: Bucket, limit: nat, now: int, m: nat)
    requires b.lastRefill >= now && b.tokens > -1.0
    ensures var (after, n), most := Run(b, limit, AtOnce(now, m)), -((-b.tokens).Floor);
            n == (if m <= most then m else most) && after == b.(tokens := b.tokens - n as real)
  {
    hide Gain;
    if m > 0 {
      TakenAtOnce(b, limit, now, m - 1);
      assert AtOnce(now, m)[..m - 1] == AtOnce(now, m - 1);
    }
  }

  /** If `remaining` says r then r calls can succeed at that moment, and at most r + 1. */
  lemma RemainingIsAvailable(b: Bucket, limit: nat, now: int, m: nat)
    requires InRange(b, limit)
    ensures var r, n := Refill(b, limit, now).tokens.Floor, Run(b, limit, AtOnce(now, m)).1;
            -1 <= r <= limit && (m <= r ==> n == m) && n <= r + 1
  {
    hide Gain, Run;
    FirstRefill(b, limit, now);
    if m > 0 {
      RefillFirst(b, limit, AtOnce(now, m));
      TakenAtOnce(Refill(b, limit, now), limit, now, m);
    } else {
      NoEvents(b, limit);
      assert AtOnce(now, m) == [];
    }
  }

  /** It says -1 after a call that succeeded exactly until the tokens before the call and what has come in since
      make a whole one; straight after the call, when that took the last fraction of a token. */
  lemma RemainingIsMinusOneIff(b: Bucket, limit: nat, e: Event, later: int)
    requires InRange(b, limit) && e.Try? && Apply(b, limit, e).1 == 1
    requires later >= Refill(b, limit, e.now).lastRefill
    ensures var found := Refill(b, limit, e.now);
            Refill(Apply(b, limit, e).0, limit, later).tokens.Floor == -1
            <==> found.tokens + Gain(limit, later - found.lastRefill) < 1.0
  {
    hide Gain;
    var found := Refill(b, limit, e.now);
    FirstRefill(b, limit, e.now);
    assert found.tokens > 0.0 && limit > 0;
    GainIsAdditive(limit, 0, 0);
    GainIsAdditive(limit, 0, later - found.lastRefill);
  }

  /** And it does say so: when all the tokens of a full bucket are taken at once, and half a second later
      somebody calls again. */
  lemma RemainingCanBeMinusOne(limit: nat, now: int)
    requires 0 < limit < 120
    ensures var full := Bucket(limit as real, now);
            var (after, n) := Run(full, limit, AtOnce(now, limit) + [Try(now + 500, Customer)]);
            n == limit + 1 && Refill(after, limit, now + 500).tokens.Floor == -1
  {
    hide Run, Refill, Apply;
    var full := Bucket(limit as real, now);
    var empty := Bucket(0.0, now);
    TakenAtOnce(full, limit, now, limit);
    assert Run(full, limit, AtOnce(now, limit)) == (empty, limit);
    var events := AtOnce(now, limit) + [Try(now + 500, Customer)];
    assert events[..limit] == AtOnce(now, limit);
    OneMoreEvent(full, limit, events);
    HalfASecond(limit, now);
    GainIsAdditive(limit, 0, 0);
    RemainingIsMinusOneIff(empty, limit, Try(now + 500, Customer), now + 500);
  }

  lemma OneMoreEvent(b: Bucket, limit: nat, events: seq<Event>)
    requires events != []
    ensures var (before, n) := Run(b, limit, events[..|events| - 1]);
            var (after, k) := Apply(before, limit, events[|events| - 1]);
            Run(b, limit, events) == (after, n + k)
  {
    hide Apply;
  }

  lemma HalfASecond(limit: nat, now: int)
    requires 0 < limit < 120
    ensures 0.0 < Refill(Bucket(0.0, now), limit, now + 500).tokens < 1.0
    ensures Refill(Bucket(0.0, now), limit, now + 500).lastRefill == now + 500 && Gain(limit, 0) == 0.0
    ensures Apply(Bucket(0.0, now), limit, Try(now + 500, Customer)).1 == 1
  {
    var x := limit as real;
    assert 500 as real / WINDOW_MS as real == 1.0 / 120.0;
    assert (1.0 / 120.0) * x == x / 120.0;
    assert Gain(limit, 500) == x / 120.0;
  }

  // ---------- The service ----------

  datatype Family = Default | DomainsAvailability | Hosting | AgencyHosting | Dns | Mail | Billing

  function LimitOf(family: Family): nat {
    match family
    case DomainsAvailability => 70
    case Billing => 30
    case _ => 60
  }

  /** Of a hundred calls at once a full bucket lets through as many as its family is allowed a minute. */
  lemma BurstOf(family: Family, now: int)
    ensures Run(Bucket(LimitOf(family) as real, now), LimitOf(family), AtOnce(now, 100)).1
            == match family case DomainsAvailability => 70 case Billing => 30 case _ => 60
  {
    hide Run;
    TakenAtOnce(Bucket(LimitOf(family) as real, now), LimitOf(family), now, 100);
  }

  const ATTEMPTS := 120

  datatype Key = Key(account: string, family: Family)

  class ProviderRateLimiter {
    var buckets: map<Key, Bucket>

    ghost predicate Valid()
      reads this
    {
      forall k :: k in buckets ==> InRange(buckets[k], LimitOf(k.family))
    }

    constructor ()
      ensures Valid() && buckets == map[]
    {
      buckets := map[];
    }

    /** The bucket of a key as an event at `now` finds it: a new one is full. */
    function BucketAt(key: Key, now: int): Bucket
      reads this
    {
      if key in buckets then buckets[key] else Bucket(LimitOf(key.family) as real, now)
    }

    /** The first call on a bucket is let through, whoever makes it. */
    lemma FirstCallSucceeds(key: Key, priority: Priority, now: int)
      requires key !in buckets
      ensures Apply(BucketAt(key, now), LimitOf(key.family), Try(now, priority)).1 == 1
    {
      LetThroughIff(BucketAt(key, now), LimitOf(key.family), Try(now, priority));
    }

    /** The whole tokens left, for the health view. */
    method Remaining(account: string, family: Family, now: int) returns (r: int)
      requires Valid()
      modifies this
      ensures Valid()
      ensures var key := Key(account, family);
              var refilled := Refill(old(BucketAt(key, now)), LimitOf(family), now);
              buckets == old(buckets)[key := refilled] && r as real <= refilled.tokens < r as real + 1.0
    {
      hide Gain;
      var key := Key(account, family);
      var bucket := BucketAt(key, now);
      FirstRefill(bucket, LimitOf(family), now);
      bucket := Refill(bucket, LimitOf(family), now);
      buckets := buckets[key := bucket];
      r := bucket.tokens.Floor;
    }

    /** One turn of the waiting loop: refill, and take a token if there is one above the reserve. */
    method TryOnce(key: Key, priority: Priority, now: int) returns (acquired: bool)
      requires Valid()
      modifies this
      ensures Valid()
      ensures buckets == old(buckets)[key := Apply(old(BucketAt(key, now)), LimitOf(key.family), Try(now, priority)).0]
      ensures acquired <==> Apply(old(BucketAt(key, now)), LimitOf(key.family), Try(now, priority)).1 == 1
    {
      hide Gain;
      var limit := LimitOf(key.family);
      var bucket := BucketAt(key, now);
      ApplyKeepsRange(bucket, limit, Try(now, priority));
      var elapsed := now - bucket.lastRefill;
      if elapsed > 0 {
        bucket := Bucket(Capped(limit, bucket.tokens + Gain(limit, elapsed)), now);
      }
      acquired := bucket.tokens > Floor(limit, priority);
      if acquired {
        bucket := bucket.(tokens := bucket.tokens - 1.0);
      }
      buckets := buckets[key := bucket];
    }

    /** Waits for a token with nobody else about, `clock(i)` being the time of the i-th turn: it takes exactly
        one token, or none after 120 turns. */
    method Acquire(account: string, family: Family, priority: Priority, clock: nat -> int)
        returns (acquired: bool, turns: nat)
      requires Valid()
      modifies this
      ensures Valid() && 1 <= turns <= ATTEMPTS
      ensures !acquired ==> turns == ATTEMPTS
      ensures var key := Key(account, family);
              key in buckets
              && Run(old(BucketAt(key, clock(0))), LimitOf(family), Turns(priority, clock, turns))
                  == (buckets[key], if acquired then 1 else 0)
              && buckets == old(buckets)[key := buckets[key]]
    {
      hide Apply, Valid, Gain, Run, Refill, Turns;
      var key := Key(account, family);
      ghost var start := BucketAt(key, clock(0));
      ghost var before := buckets;
      turns := 0;
      acquired := false;
      while turns < ATTEMPTS
        invariant Valid() && turns <= ATTEMPTS && !acquired
        invariant if turns == 0 then buckets == before && BucketAt(key, clock(0)) == start
                  else key in buckets && buckets == before[key := buckets[key]]
                       && Run(start, LimitOf(family), Turns(priority, clock, turns)) == (buckets[key], 0)
      {
        TurnsExtend(start, LimitOf(family), priority, clock, turns);
        acquired := TryOnce(key, priority, clock(turns));
        turns := turns + 1;
        if acquired {
          return;
        }
      }
    }
  }

  function Turns(priority: Priority, clock: nat -> int, n: nat): (events: seq<Event>)
    ensures |events| == n && forall i :: 0 <= i < n ==> events[i] == Try(clock(i), priority)
  {
    seq(n, i requires 0 <= i < n => Try(clock(i), priority))
  }

  lemma TurnsExtend(b: Bucket, limit: nat, priority: Priority, clock: nat -> int, n: nat)
    ensures var (before, k), (after, m) := Run(b, limit, Turns(priority, clock, n)),
            Run(b, limit, Turns(priority, clock, n + 1));
            var step := Apply(before, limit, Try(clock(n), priority));
            after == step.0 && m == k + step.1
    ensures Turns(priority, clock, 0) == [] && Run(b, limit, []) == (b, 0)
    ensures forall bb :: Apply(bb, limit, Try(clock(n), priority)).1 <= 1
  {
    hide Gain;
    assert Turns(priority, clock, n + 1)[..n] == Turns(priority, clock, n);
  }
}
