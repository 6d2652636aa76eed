/** Sliding-window rate limiting, per API key and per tenant: over Redis sorted sets, and the
    dictionary double. Times are whole milliseconds. */
module RateLimit {
  import opened Wrappers
  import opened Identifiers

  datatype RuleFields = RuleFields(limit: int, windowSeconds: int)

  /** Constructing any other rule raises ValueError. */
  type Rule = r: RuleFields | r.limit >= 1 && r.windowSeconds >= 1 witness RuleFields(1, 1)

  function WindowMs(rule: Rule): int {
    rule.windowSeconds * 1000
  }

  datatype Bucket = ApiKeyBucket | TenantBucket

  datatype Slot = Slot(bucket: Bucket, id: Uuid)

  /** The Redis key of a bucket. */
  function SlotText(prefix: string, slot: Slot): string {
    prefix + (if slot.bucket == ApiKeyBucket then ":key:" else ":tenant:") + Text(slot.id)
  }

  /** No two buckets share a key. */
  lemma SlotTextInjective(prefix: string, a: Slot, b: Slot)
    requires SlotText(prefix, a) == SlotText(prefix, b)
    ensures a == b
  {
    hide Text;
    var s, t := SlotText(prefix, a), SlotText(prefix, b);
    assert s[|s| - 36..] == Text(a.id) && t[|t| - 36..] == Text(b.id);
    TextInjective(a.id, b.id);
  }

  datatype Principal = Principal(tenantId: Uuid, apiKeyId: Uuid)

  datatype Rules = Rules(apiKey: Rule, tenant: Rule)

  function RuleOf(rules: Rules, bucket: Bucket): Rule {
    if bucket == ApiKeyBucket then rules.apiKey else rules.tenant
  }

  function SlotOf(p: Principal, bucket: Bucket): Slot {
    Slot(bucket, if bucket == ApiKeyBucket then p.apiKeyId else p.tenantId)
  }

  datatype Reason = WithinLimit | LimitExceeded | BackendUnavailable

  datatype Decision = Decision(
    allowed: bool, bucket: Bucket, limit: int, remaining: int, retryAfterSeconds: int, reason: Reason)

  const BACKEND_ERROR_RETRY_AFTER_SECONDS := 5

  function BackendFailure(failOpen: bool): Decision {
    Decision(failOpen, TenantBucket, 0, 0, BACKEND_ERROR_RETRY_AFTER_SECONDS, BackendUnavailable)
  }

  // ---------------------------------------------------------------------------
  // Windows and decisions
  // ---------------------------------------------------------------------------

  /** The times later than `bound`. */
  function After(times: seq<nat>, bound: int): (r: seq<nat>)
    ensures |r| <= |times|
    ensures forall x :: x in r ==> x in times && x > bound
  {
    if times == [] then []
    else
      var n := |times| - 1;
      After(times[..n], bound) + if times[n] > bound then [times[n]] else []
  }

  /** Seconds until the oldest time leaves the window, at least one; rounded up. */
  function RetryAfter(oldest: Option<nat>, now: nat, rule: Rule): int {
    if oldest.None? then rule.windowSeconds
    else
      var seconds := (oldest.value + WindowMs(rule) - now + 999) / 1000;
      if seconds > 1 then seconds else 1
  }

  function Denial(bucket: Bucket, rule: Rule, oldest: Option<nat>, now: nat): Decision {
    Decision(false, bucket, rule.limit, 0, RetryAfter(oldest, now, rule), LimitExceeded)
  }

  /** Admission, reported for the bucket with the least room left; the API key's on a tie. */
  function Admission(rules: Rules, apiKeyCount: nat, tenantCount: nat): Decision {
    var tighter := rules.apiKey.limit - apiKeyCount <= rules.tenant.limit - tenantCount;
    var bucket := if tighter then ApiKeyBucket else TenantBucket;
    var left := RuleOf(rules, bucket).limit - (if tighter then apiKeyCount else tenantCount) - 1;
    Decision(true, bucket, RuleOf(rules, bucket).limit, if left > 0 then left else 0, 0, WithinLimit)
  }

  function First(times: seq<nat>): Option<nat> {
    if times == [] then None else Some(times[0])
  }

  /** What the two windows, oldest time first, decide. */
  function Decide(rules: Rules, apiKey: seq<nat>, tenant: seq<nat>, now: nat): Decision {
    if |apiKey| >= rules.apiKey.limit then Denial(ApiKeyBucket, rules.apiKey, First(apiKey), now)
    else if |tenant| >= rules.tenant.limit then Denial(TenantBucket, rules.tenant, First(tenant), now)
    else Admission(rules, |apiKey|, |tenant|)
  }

  // ---------------------------------------------------------------------------
  // Redis
  // ---------------------------------------------------------------------------

  /** A sorted set, lowest score first. Members are unique random names, so scores describe it. */
  datatype ZSet = ZSet(scores: seq<nat>, expires: int)

  type Keys = map<Slot, ZSet>

  function Seen(keys: Keys, slot: Slot, now: nat): seq<nat> {
    if slot in keys && keys[slot].expires > now then keys[slot].scores else []
  }

  /** ZREMRANGEBYSCORE key 0 bound; a set left empty is removed. */
  function ZRemRangeByScore(keys: Keys, slot: Slot, now: nat, bound: int): Keys {
    var kept := After(Seen(keys, slot, now), bound);
    if kept == [] then keys - {slot} else keys[slot := ZSet(kept, keys[slot].expires)]
  }

  function Insert(scores: seq<nat>, x: nat): seq<nat> {
    if scores == [] || scores[|scores| - 1] <= x then scores + [x]
    else Insert(scores[..|scores| - 1], x) + [scores[|scores| - 1]]
  }

  /** ZADD of a new member, then PEXPIRE. */
  function ZAddExpire(keys: Keys, slot: Slot, now: nat, ttlMs: int): Keys {
    keys[slot := ZSet(Insert(Seen(keys, slot, now), now), now + ttlMs)]
  }

  datatype Event = Event(now: nat, principal: Principal, up: bool)

  function Trimmed(keys: Keys, rules: Rules, e: Event): Keys {
    var a, t := SlotOf(e.principal, ApiKeyBucket), SlotOf(e.principal, TenantBucket);
    ZRemRangeByScore(ZRemRangeByScore(keys, a, e.now, e.now - WindowMs(rules.apiKey)),
                     t, e.now, e.now - WindowMs(rules.tenant))
  }

  function Added(keys: Keys, rules: Rules, e: Event): Keys {
    var a, t := SlotOf(e.principal, ApiKeyBucket), SlotOf(e.principal, TenantBucket);
    ZAddExpire(ZAddExpire(keys, a, e.now, WindowMs(rules.apiKey)), t, e.now, WindowMs(rules.tenant))
  }

  /** The times a bucket's window shows at `now`. */
  function Window(keys: Keys, rules: Rules, slot: Slot, now: nat): seq<nat> {
    After(Seen(keys, slot, now), now - WindowMs(RuleOf(rules, slot.bucket)))
  }

  function Acquired(keys: Keys, rules: Rules, failOpen: bool, e: Event): (Keys, Decision) {
    if !e.up then (keys, BackendFailure(failOpen))
    else
      var d := Decide(rules, Window(keys, rules, SlotOf(e.principal, ApiKeyBucket), e.now),
                      Window(keys, rules, SlotOf(e.principal, TenantBucket), e.now), e.now);
      (if d.allowed then Added(Trimmed(keys, rules, e), rules, e) else Trimmed(keys, rules, e), d)
  }

  lemma {:induction false} AfterIdempotent(times: seq<nat>, b: int, c: int)
    requires b <= c
    ensures After(After(times, b), c) == After(times, c)
  {
    if times != [] {
      var n := |times| - 1;
      AfterIdempotent(times[..n], b, c);
      var front := After(times[..n], b);
      if times[n] > b {
        assert (front + [times[n]])[..|front|] == front;
      } else {
        assert front + [] == front;
      }
    }
  }

  lemma TrimShows(keys: Keys, slot: Slot, now: nat, bound: int)
    ensures Seen(ZRemRangeByScore(keys, slot, now, bound), slot, now) == After(Seen(keys, slot, now), bound)
    ensures forall other :: other != slot ==>
              Seen(ZRemRangeByScore(keys, slot, now, bound), other, now) == Seen(keys, other, now)
  {
    hide After;
  }

  class RedisRateLimiter {
    var keys: Keys
    const rules: Rules
    const failOpen: bool

    constructor (rules: Rules, failOpen: bool)
      ensures keys == map[] && this.rules == rules && this.failOpen == failOpen
    {
      keys := map[];
      this.rules := rules;
      this.failOpen := failOpen;
    }

    /** Read every bucket, then admit into all of them or deny without adding to any: one committed
        transaction. */
    method Evaluate(p: Principal, now: nat) returns (d: Decision)
      modifies this
      ensures (keys, d) == Acquired(old(keys), rules, failOpen, Event(now, p, true))
    {
      hide After, Insert, Denial, Admission;
      var buckets := [ApiKeyBucket, TenantBucket];
      var counts: seq<nat> := [];
      var denied: Option<Decision> := None;
      ghost var was := keys;
      ghost var a, t := SlotOf(p, ApiKeyBucket), SlotOf(p, TenantBucket);
      for i := 0 to 2
        invariant keys == if i == 0 then was
                          else if i == 1 then ZRemRangeByScore(was, a, now, now - WindowMs(rules.apiKey))
                          else Trimmed(was, rules, Event(now, p, true))
        invariant |counts| == i
        invariant i >= 1 ==> counts[0] == |Window(was, rules, a, now)|
        invariant i == 2 ==> counts[1] == |Window(was, rules, t, now)|
        invariant denied.None? <==>
          (i >= 1 ==> counts[0] < rules.apiKey.limit) && (i == 2 ==> counts[1] < rules.tenant.limit)
        invariant denied.None? || denied ==
                    (if counts[0] >= rules.apiKey.limit
                     then Some(Denial(ApiKeyBucket, rules.apiKey, First(Window(was, rules, a, now)), now))
                     else Some(Denial(TenantBucket, rules.tenant, First(Window(was, rules, t, now)), now)))
      {
        var slot, rule := SlotOf(p, buckets[i]), RuleOf(rules, buckets[i]);
        TrimShows(keys, slot, now, now - WindowMs(rule));
        TrimShows(was, a, now, now - WindowMs(rules.apiKey));
        keys := ZRemRangeByScore(keys, slot, now, now - WindowMs(rule));
        var count := |Seen(keys, slot, now)|;
        counts := counts + [count];
        if denied.None? && count >= rule.limit {
          denied := Some(Denial(buckets[i], rule, First(Seen(keys, slot, now)), now));
        }
      }
      DenialDenies(rules, Window(was, rules, a, now), Window(was, rules, t, now), now);
      if denied.Some? {
        return denied.value;
      }
      for i := 0 to 2
        invariant var trimmed := Trimmed(was, rules, Event(now, p, true));
                  keys == if i == 0 then trimmed
                          else if i == 1 then ZAddExpire(trimmed, a, now, WindowMs(rules.apiKey))
                          else Added(trimmed, rules, Event(now, p, true))
      {
        keys := ZAddExpire(keys, SlotOf(p, buckets[i]), now, WindowMs(RuleOf(rules, buckets[i])));
      }
      d := Admission(rules, counts[0], counts[1]);
    }

    method Acquire(p: Principal, now: nat, up: bool) returns (d: Decision)
      modifies this
      ensures (keys, d) == Acquired(old(keys), rules, failOpen, Event(now, p, up))
    {
      if !up {
        return BackendFailure(failOpen);
      }
      d := Evaluate(p, now);
    }
  }

  lemma DenialDenies(rules: Rules, apiKey: seq<nat>, tenant: seq<nat>, now: nat)
    ensures Decide(rules, apiKey, tenant, now).allowed <==>
            |apiKey| < rules.apiKey.limit && |tenant| < rules.tenant.limit
  {
  }

  // ---------------------------------------------------------------------------
  // The dictionary double
  // ---------------------------------------------------------------------------

  type Hits = map<Slot, seq<nat>>

  function HitsOf(hits: Hits, slot: Slot): seq<nat> {
    if slot in hits then hits[slot] else []
  }

  function Least(times: seq<nat>): (m: Option<nat>)
    ensures m.None? <==> times == []
  {
    if times == [] then None
    else
      var rest := Least(times[1..]);
      if rest.Some? && rest.value < times[0] then rest else Some(times[0])
  }

  function MemoryAcquired(hits: Hits, rules: Rules, failOpen: bool, e: Event): (Hits, Decision) {
    if !e.up then (hits, BackendFailure(failOpen))
    else
      var a, t := SlotOf(e.principal, ApiKeyBucket), SlotOf(e.principal, TenantBucket);
      var apiKey := After(HitsOf(hits, a), e.now - WindowMs(rules.apiKey));
      var first := hits[a := apiKey];
      if |apiKey| >= rules.apiKey.limit then (first, Denial(ApiKeyBucket, rules.apiKey, Least(apiKey), e.now))
      else
        var tenant := After(HitsOf(hits, t), e.now - WindowMs(rules.tenant));
        var both := first[t := tenant];
        if |tenant| >= rules.tenant.limit then (both, Denial(TenantBucket, rules.tenant, Least(tenant), e.now))
        else (both[a := apiKey + [e.now]][t := tenant + [e.now]], Admission(rules, |apiKey|, |tenant|))
  }

  class InMemoryRateLimiter {
    var hits: Hits
    var failing: bool
    const rules: Rules
    const failOpen: bool

    constructor (rules: Rules, failOpen: bool)
      ensures hits == map[] && !failing && this.rules == rules && this.failOpen == failOpen
    {
      hits := map[];
      failing := false;
      this.rules := rules;
      this.failOpen := failOpen;
    }

    method SimulateFailure(failing: bool)
      modifies this`failing
      ensures this.failing == failing
    {
      this.failing := failing;
    }

    method Acquire(p: Principal, now: nat) returns (d: Decision)
      modifies this`hits
      ensures (hits, d) == MemoryAcquired(old(hits), rules, failOpen, Event(now, p, !failing))
    {
      hide After;
      if failing {
        return BackendFailure(failOpen);
      }
      var buckets := [ApiKeyBucket, TenantBucket];
      var live: seq<seq<nat>> := [];
      ghost var was := hits;
      ghost var a, t := SlotOf(p, ApiKeyBucket), SlotOf(p, TenantBucket);
      ghost var apiKey := After(HitsOf(was, a), now - WindowMs(rules.apiKey));
      ghost var tenant := After(HitsOf(was, t), now - WindowMs(rules.tenant));
      for i := 0 to 2
        invariant live == if i == 0 then [] else if i == 1 then [apiKey] else [apiKey, tenant]
        invariant hits == if i == 0 then was else if i == 1 then was[a := apiKey] else was[a := apiKey][t := tenant]
        invariant i >= 1 ==> |apiKey| < rules.apiKey.limit
        invariant i == 2 ==> |tenant| < rules.tenant.limit
      {
        var slot, rule := SlotOf(p, buckets[i]), RuleOf(rules, buckets[i]);
        var kept := After(HitsOf(hits, slot), now - WindowMs(rule));
        hits := hits[slot := kept];
        if |kept| >= rule.limit {
          return Denial(buckets[i], rule, Least(kept), now);
        }
        live := live + [kept];
      }
      for i := 0 to 2
        invariant hits == if i == 0 then was[a := apiKey][t := tenant]
                          else if i == 1 then was[a := apiKey][t := tenant][a := apiKey + [now]]
                          else was[a := apiKey][t := tenant][a := apiKey + [now]][t := tenant + [now]]
      {
        hits := hits[SlotOf(p, buckets[i]) := live[i] + [now]];
      }
      d := Admission(rules, |live[0]|, |live[1]|);
    }
  }
}
