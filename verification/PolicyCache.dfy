/** The active policy per tenant, briefly cached, with lookups that overlap while they await the
    repository. */
module PolicyCache {
  import opened Wrappers
  import opened Identifiers

  datatype StoredPolicy = StoredPolicy(policyId: Uuid, version: nat, document: string)

  datatype PolicyDocument = PolicyDocument(content: string)

  datatype PolicySnapshot = PolicySnapshot(tenantId: Uuid, policyId: Uuid, version: nat, document: PolicyDocument)

  datatype CacheEntry = CacheEntry(key: (Uuid, nat), snapshot: PolicySnapshot, expiresAt: int)

  type Entries = map<Uuid, CacheEntry>

  datatype PolicyError = NoActivePolicy | StoredDocumentInvalid

  /** The TTL, and validation of a stored document, which is left uninterpreted. */
  datatype Config = Config(ttl: int, validate: string -> Option<PolicyDocument>)

  function SnapshotOf(c: Config, tenant: Uuid, stored: StoredPolicy): Option<PolicySnapshot> {
    var document := c.validate(stored.document);
    if document.None? then None else Some(PolicySnapshot(tenant, stored.policyId, stored.version, document.value))
  }

  /** What a lookup finds in the cache before it awaits anything. */
  function Cached(entries: Entries, tenant: Uuid, now: int): Option<PolicySnapshot> {
    if tenant in entries && entries[tenant].expiresAt > now then Some(entries[tenant].snapshot) else None
  }

  /** What a miss does when the repository has answered. The entry's life is counted from the moment
      the lookup began. A document that no longer validates leaves the cache alone. */
  function Completed(c: Config, entries: Entries, tenant: Uuid, started: int, stored: Option<StoredPolicy>)
    : (Entries, Result<PolicySnapshot, PolicyError>)
  {
    if stored.None? then (entries - {tenant}, Err(NoActivePolicy))
    else
      var snapshot := SnapshotOf(c, tenant, stored.value);
      if snapshot.None? then (entries, Err(StoredDocumentInvalid))
      else
        (entries[tenant := CacheEntry((tenant, stored.value.version), snapshot.value, started + c.ttl)],
         Ok(snapshot.value))
  }

  class PolicyService {
    var entries: Entries
    const config: Config

    constructor (config: Config)
      ensures entries == map[] && this.config == config
    {
      entries := map[];
      this.config := config;
    }

    /** The part of a lookup before its await: a hit, or nothing. */
    method BeginLookup(tenant: Uuid, now: int) returns (hit: Option<PolicySnapshot>)
      ensures hit == Cached(entries, tenant, now)
    {
      if tenant in entries {
        var cached := entries[tenant];
        if cached.expiresAt > now {
          return Some(cached.snapshot);
        }
      }
      return None;
    }

    /** The part after it. */
    method CompleteLookup(tenant: Uuid, started: int, stored: Option<StoredPolicy>)
      returns (r: Result<PolicySnapshot, PolicyError>)
      modifies this
      ensures (entries, r) == Completed(config, old(entries), tenant, started, stored)
    {
      if stored.None? {
        entries := entries - {tenant};
        return Err(NoActivePolicy);
      }
      var document := config.validate(stored.value.document);
      if document.None? {
        return Err(StoredDocumentInvalid);
      }
      var snapshot := PolicySnapshot(tenant, stored.value.policyId, stored.value.version, document.value);
      entries := entries[tenant := CacheEntry((tenant, stored.value.version), snapshot, started + config.ttl)];
      return Ok(snapshot);
    }

    method Invalidate(tenant: Uuid)
      modifies this
      ensures entries == old(entries) - {tenant}
    {
      entries := entries - {tenant};
    }

    method Clear()
      modifies this
      ensures entries == map[]
    {
      entries := map[];
    }
  }

  // ---------------------------------------------------------------------------
  // Overlapping lookups over a changing repository
  // ---------------------------------------------------------------------------

  /** A lookup in flight; `answer` is what the repository has answered, once it has. */
  datatype Call = Call(tenant: Uuid, started: int, answer: Option<Option<StoredPolicy>>)

  datatype State = State(now: int, active: map<Uuid, StoredPolicy>, entries: Entries, calls: map<nat, Call>)

  datatype Step =
    | Tick(until: int)
    | Change(tenant: Uuid, row: Option<StoredPolicy>)
    | Start(id: nat, tenant: Uuid)
    | Read(id: nat)
    | Finish(id: nat)
    | Abandon(id: nat)
    | Invalidate(tenant: Uuid)
    | Clear

  predicate Enabled(s: State, step: Step) {
    match step
    case Tick(until) => s.now <= until
    case Start(id, _) => id !in s.calls
    case Read(id) => id in s.calls && s.calls[id].answer.None?
    case Finish(id) => id in s.calls && s.calls[id].answer.Some?
    case Abandon(id) => id in s.calls
    case _ => true
  }

  function ActiveRow(s: State, tenant: Uuid): Option<StoredPolicy> {
    if tenant in s.active then Some(s.active[tenant]) else None
  }

  function Next(c: Config, s: State, step: Step): State
    requires Enabled(s, step)
  {
    match step
    case Tick(until) => s.(now := until)
    case Change(tenant, row) =>
      if row.Some? then s.(active := s.active[tenant := row.value]) else s.(active := s.active - {tenant})
    case Start(id, tenant) =>
      if Cached(s.entries, tenant, s.now).Some? then s
      else s.(calls := s.calls[id := Call(tenant, s.now, None)])
    case Read(id) => s.(calls := s.calls[id := s.calls[id].(answer := Some(ActiveRow(s, s.calls[id].tenant)))])
    case Finish(id) =>
      var call := s.calls[id];
      s.(entries := Completed(c, s.entries, call.tenant, call.started, call.answer.value).0, calls := s.calls - {id})
    case Abandon(id) => s.(calls := s.calls - {id})
    case Invalidate(tenant) => s.(entries := s.entries - {tenant})
    case Clear => s.(entries := map[])
  }

  /** The snapshot a step hands to a caller, with the tenant it was asked for. */
  function Returns(c: Config, s: State, step: Step): Option<(Uuid, PolicySnapshot)>
    requires Enabled(s, step)
  {
    match step
    case Start(_, tenant) =>
      var hit := Cached(s.entries, tenant, s.now);
      if hit.Some? then Some((tenant, hit.value)) else None
    case Finish(id) =>
      var call := s.calls[id];
      var r := Completed(c, s.entries, call.tenant, call.started, call.answer.value).1;
      if r.Ok? then Some((call.tenant, r.value)) else None
    case _ => None
  }

  ghost predicate Behavior(c: Config, trace: seq<State>, steps: seq<Step>) {
    && |trace| == |steps| + 1
    && trace[0].entries == map[] && trace[0].calls == map[]
    && forall k :: 0 <= k < |steps| ==> Enabled(trace[k], steps[k]) && trace[k + 1] == Next(c, trace[k], steps[k])
  }

  /** The snapshot of the row active for the tenant at that moment. */
  predicate ActiveAs(c: Config, s: State, tenant: Uuid, snapshot: PolicySnapshot) {
    tenant in s.active
    && var row, document := s.active[tenant], c.validate(s.active[tenant].document);
       document.Some? && snapshot == PolicySnapshot(tenant, row.policyId, row.version, document.value)
  }

  /** The step at `i` ends a lookup that has been in flight since before moment `j`. */
  ghost predicate DuringCall(trace: seq<State>, steps: seq<Step>, i: nat, j: nat)
    requires |trace| == |steps| + 1 && i < |steps|
  {
    steps[i].Finish? && exists st: nat ::
      st < j <= i && steps[st].Start? && steps[st].id == steps[i].id && InFlight(trace, steps[i].id, st, i)
  }

  ghost predicate InFlight(trace: seq<State>, id: nat, st: nat, i: nat)
    requires i < |trace|
  {
    forall k :: st < k <= i ==> id in trace[k].calls
  }

  // ---------------------------------------------------------------------------
  // Where cached snapshots and answers come from
  // ---------------------------------------------------------------------------

  ghost predicate EntryFrom(c: Config, trace: seq<State>, tenant: Uuid, e: CacheEntry, j: nat, i: nat)
    requires i < |trace|
  {
    j <= i && ActiveAs(c, trace[j], tenant, e.snapshot) && e.expiresAt <= trace[j].now + c.ttl
  }

  ghost predicate StartedAt(trace: seq<State>, steps: seq<Step>, id: nat, call: Call, st: nat, i: nat)
    requires |trace| == |steps| + 1 && i < |trace|
  {
    st < i && steps[st] == Start(id, call.tenant) && trace[st].now == call.started && InFlight(trace, id, st, i)
  }

  /** The snapshot a call will return, once it is answered with a row that validates. */
  function Bringing(c: Config, call: Call): Option<PolicySnapshot> {
    if call.answer.Some? && call.answer.value.Some? then SnapshotOf(c, call.tenant, call.answer.value.value) else None
  }

  predicate AnsweredAt(c: Config, trace: seq<State>, call: Call, st: nat, j: nat, i: nat)
    requires i < |trace|
  {
    Bringing(c, call).Some? ==> st < j <= i && ActiveAs(c, trace[j], call.tenant, Bringing(c, call).value)
  }

  /** At moment `i` everything held for `tenant` was read at moment `from` or later. */
  ghost predicate ReadSince(c: Config, trace: seq<State>, steps: seq<Step>, tenant: Uuid, from: nat, i: nat)
    requires |trace| == |steps| + 1 && i < |trace|
  {
    && (tenant in trace[i].entries ==> EntrySince(c, trace, tenant, from, i))
    && (forall id :: id in trace[i].calls && trace[i].calls[id].tenant == tenant ==>
          CallSince(c, trace, steps, id, from, i))
  }

  ghost predicate EntrySince(c: Config, trace: seq<State>, tenant: Uuid, from: nat, i: nat)
    requires i < |trace| && tenant in trace[i].entries
  {
    exists j :: from <= j <= i && EntryFrom(c, trace, tenant, trace[i].entries[tenant], j, i)
  }

  ghost predicate CallSince(c: Config, trace: seq<State>, steps: seq<Step>, id: nat, from: nat, i: nat)
    requires |trace| == |steps| + 1 && i < |trace|
  {
    exists st, j :: from <= j && CallFrom(c, trace, steps, id, st, j, i)
  }

  ghost predicate CallFrom(c: Config, trace: seq<State>, steps: seq<Step>, id: nat, st: nat, j: nat, i: nat)
    requires |trace| == |steps| + 1 && i < |trace|
  {
    && id in trace[i].calls
    && StartedAt(trace, steps, id, trace[i].calls[id], st, i) && AnsweredAt(c, trace, trace[i].calls[id], st, j, i)
  }

  lemma {:induction false} ClockOnlyAdvances(c: Config, trace: seq<State>, steps: seq<Step>, j: nat, i: nat)
    requires Behavior(c, trace, steps) && j <= i < |trace|
    ensures trace[j].now <= trace[i].now
    decreases i - j
  {
    if j < i {
      ClockOnlyAdvances(c, trace, steps, j, i - 1);
      assert trace[i] == Next(c, trace[i - 1], steps[i - 1]);
    }
  }

  lemma StepKeepsEntry(c: Config, trace: seq<State>, steps: seq<Step>, tenant: Uuid, from: nat, i: nat)
    requires Behavior(c, trace, steps) && i + 1 < |trace| && from <= i + 1
    requires ReadSince(c, trace, steps, tenant, from, i)
    ensures tenant in trace[i + 1].entries ==> EntrySince(c, trace, tenant, from, i + 1)
  {
    hide InFlight;
    var s, step := trace[i], steps[i];
    assert trace[i + 1] == Next(c, s, step);
    if tenant in trace[i + 1].entries {
      var e := trace[i + 1].entries[tenant];
      if tenant in s.entries && e == s.entries[tenant] {
        var j :| from <= j <= i && EntryFrom(c, trace, tenant, e, j, i);
        assert EntryFrom(c, trace, tenant, e, j, i + 1);
      } else {
        var id := step.id;
        var st, j :| from <= j && CallFrom(c, trace, steps, id, st, j, i);
        ClockOnlyAdvances(c, trace, steps, st, j);
        assert EntryFrom(c, trace, tenant, e, j, i + 1);
      }
    }
  }

  lemma StepKeepsCall(c: Config, trace: seq<State>, steps: seq<Step>, tenant: Uuid, from: nat, i: nat, id: nat)
    requires Behavior(c, trace, steps) && i + 1 < |trace| && from <= i
    requires ReadSince(c, trace, steps, tenant, from, i)
    requires id in trace[i + 1].calls && trace[i + 1].calls[id].tenant == tenant
    ensures CallSince(c, trace, steps, id, from, i + 1)
  {
    var s, step := trace[i], steps[i];
    assert trace[i + 1] == Next(c, s, step);
    if id in s.calls {
      var st, j :| from <= j && CallFrom(c, trace, steps, id, st, j, i);
      var moment := if step == Read(id) then i else j;
      assert CallFrom(c, trace, steps, id, st, moment, i + 1);
    } else {
      assert CallFrom(c, trace, steps, id, i, i, i + 1);
    }
  }

  lemma {:induction false} ReadSinceKept(c: Config, trace: seq<State>, steps: seq<Step>, tenant: Uuid,
                                         from: nat, start: nat, i: nat)
    requires Behavior(c, trace, steps) && from <= start <= i < |trace|
    requires ReadSince(c, trace, steps, tenant, from, start)
    ensures ReadSince(c, trace, steps, tenant, from, i)
    decreases i - start
  {
    hide EntrySince, CallSince;
    assert |trace| == |steps| + 1;
    if start < i {
      ReadSinceKept(c, trace, steps, tenant, from, start, i - 1);
      StepKeepsEntry(c, trace, steps, tenant, from, i - 1);
      forall id | id in trace[i].calls && trace[i].calls[id].tenant == tenant
        ensures CallSince(c, trace, steps, id, from, i)
      {
        StepKeepsCall(c, trace, steps, tenant, from, i - 1, id);
      }
    }
  }

  /** What a step returns was active at a moment no earlier than `from`, and less than one TTL ago or
      during the very call that returns it. */
  lemma ReturnedWasRead(c: Config, trace: seq<State>, steps: seq<Step>, tenant: Uuid, from: nat, i: nat)
    returns (j: nat)
    requires Behavior(c, trace, steps) && from <= i < |steps| && ReadSince(c, trace, steps, tenant, from, i)
    requires Returns(c, trace[i], steps[i]).Some? && Returns(c, trace[i], steps[i]).value.0 == tenant
    ensures from <= j <= i && ActiveAs(c, trace[j], tenant, Returns(c, trace[i], steps[i]).value.1)
    ensures trace[j].now > trace[i].now - c.ttl || DuringCall(trace, steps, i, j)
  {
    hide InFlight;
    var s, step := trace[i], steps[i];
    if step.Start? {
      j :| from <= j <= i && EntryFrom(c, trace, tenant, s.entries[tenant], j, i);
    } else {
      var st: nat;
      st, j :| from <= j && CallFrom(c, trace, steps, step.id, st, j, i);
    }
  }

  /** The staleness bound. However lookups, misses in flight, repository changes, invalidations and
      clears interleave, every snapshot returned was the tenant's active stored policy at some moment
      less than one TTL earlier, or during that same call. */
  lemma StalenessBound(c: Config, trace: seq<State>, steps: seq<Step>, i: nat) returns (j: nat)
    requires Behavior(c, trace, steps) && i < |steps| && Returns(c, trace[i], steps[i]).Some?
    ensures var (tenant, snapshot) := Returns(c, trace[i], steps[i]).value;
            j <= i && ActiveAs(c, trace[j], tenant, snapshot)
            && (trace[j].now > trace[i].now - c.ttl || DuringCall(trace, steps, i, j))
  {
    hide EntryFrom, CallFrom, DuringCall, ActiveAs;
    var tenant := Returns(c, trace[i], steps[i]).value.0;
    ReadSinceKept(c, trace, steps, tenant, 0, 0, i);
    j := ReturnedWasRead(c, trace, steps, tenant, 0, i);
  }

  // ---------------------------------------------------------------------------
  // What the cache is for
  // ---------------------------------------------------------------------------

  /** From after step `k` up to step `i` nothing rewrites or drops the tenant's entry. */
  ghost predicate LeftAlone(trace: seq<State>, steps: seq<Step>, tenant: Uuid, k: nat, i: nat)
    requires |trace| == |steps| + 1 && i <= |steps|
  {
    forall m :: k < m < i ==>
      !Invalidates(steps[m], tenant)
      && (steps[m].Finish? && steps[m].id in trace[m].calls ==> trace[m].calls[steps[m].id].tenant != tenant)
  }

  lemma {:induction false} EntryStays(c: Config, trace: seq<State>, steps: seq<Step>, tenant: Uuid, k: nat, i: nat)
    requires Behavior(c, trace, steps) && k < i <= |steps| && LeftAlone(trace, steps, tenant, k, i)
    ensures tenant in trace[i].entries <==> tenant in trace[k + 1].entries
    ensures tenant in trace[i].entries ==> trace[i].entries[tenant] == trace[k + 1].entries[tenant]
    decreases i
  {
    if i > k + 1 {
      EntryStays(c, trace, steps, tenant, k, i - 1);
      assert trace[i] == Next(c, trace[i - 1], steps[i - 1]);
    }
  }

  /** A lookup that ends with a row returns its snapshot, when the document validates; and until a TTL after
      that lookup began, unless the entry is rewritten or dropped, every later lookup returns the same
      snapshot at once and asks the repository nothing. One that ends without a row, or with a document
      that does not validate, returns nothing; without a row the entry is gone too, so the next lookup
      asks again. */
  lemma CachedUntilExpiry(c: Config, trace: seq<State>, steps: seq<Step>, k: nat, i: nat, next: nat)
    requires Behavior(c, trace, steps) && k < i < |steps| && steps[k].Finish?
    ensures steps[k].id in trace[k].calls && trace[k].calls[steps[k].id].answer.Some?
    ensures var call := trace[k].calls[steps[k].id];
            var row := call.answer.value;
            var document := if row.Some? then c.validate(row.value.document) else None;
            if document.None? then
              Returns(c, trace[k], steps[k]).None?
              && (row.None? && LeftAlone(trace, steps, call.tenant, k, i) && steps[i] == Start(next, call.tenant) ==>
                    Returns(c, trace[i], steps[i]).None?
                    && trace[i + 1].calls == trace[i].calls[next := Call(call.tenant, trace[i].now, None)])
            else
              var snapshot := PolicySnapshot(call.tenant, row.value.policyId, row.value.version, document.value);
              Returns(c, trace[k], steps[k]) == Some((call.tenant, snapshot))
              && (LeftAlone(trace, steps, call.tenant, k, i) && steps[i] == Start(next, call.tenant)
                  && trace[i].now < call.started + c.ttl ==>
                    Returns(c, trace[i], steps[i]) == Some((call.tenant, snapshot)) && trace[i + 1] == trace[i])
  {
    assert Enabled(trace[k], steps[k]) && trace[k + 1] == Next(c, trace[k], steps[k]);
    var call := trace[k].calls[steps[k].id];
    if LeftAlone(trace, steps, call.tenant, k, i) && steps[i] == Start(next, call.tenant) {
      EntryStays(c, trace, steps, call.tenant, k, i);
      assert trace[i + 1] == Next(c, trace[i], steps[i]);
    }
  }

  // ---------------------------------------------------------------------------
  // Invalidation
  // ---------------------------------------------------------------------------

  predicate Invalidates(step: Step, tenant: Uuid) {
    step == Invalidate(tenant) || step == Clear
  }

  /** No lookup of the tenant in flight has been answered with a policy other than the active one. */
  predicate Harmless(c: Config, s: State, tenant: Uuid) {
    forall id :: id in s.calls && s.calls[id].tenant == tenant && Bringing(c, s.calls[id]).Some? ==>
      ActiveAs(c, s, tenant, Bringing(c, s.calls[id]).value)
  }

  /** What is returned to the tenant after moment `k` was active at some moment after it. */
  ghost predicate Prompt(c: Config, trace: seq<State>, steps: seq<Step>, tenant: Uuid, k: nat)
    requires Behavior(c, trace, steps)
  {
    forall i :: k < i < |steps| && Returns(c, trace[i], steps[i]).Some?
                && Returns(c, trace[i], steps[i]).value.0 == tenant ==>
      ActiveSince(c, trace, tenant, Returns(c, trace[i], steps[i]).value.1, k, i)
  }

  ghost predicate ActiveSince(c: Config, trace: seq<State>, tenant: Uuid, snapshot: PolicySnapshot, k: nat, i: nat)
    requires i < |trace|
  {
    exists j :: k < j <= i && ActiveAs(c, trace[j], tenant, snapshot)
  }

  ghost predicate Continues(trace: seq<State>, steps: seq<Step>, past: seq<State>, taken: seq<Step>) {
    past <= trace && taken <= steps
  }

  /** Right after an invalidation, with nothing stale in flight, nothing held for the tenant is older. */
  lemma HarmlessReadSince(c: Config, trace: seq<State>, steps: seq<Step>, tenant: Uuid, k: nat)
    requires Behavior(c, trace, steps) && k < |steps| && Invalidates(steps[k], tenant)
    requires Harmless(c, trace[k + 1], tenant)
    ensures ReadSince(c, trace, steps, tenant, k + 1, k + 1)
  {
    hide ActiveAs, SnapshotOf, EntryFrom, InFlight;
    assert trace[k + 1] == Next(c, trace[k], steps[k]);
    var from := k + 1;
    ReadSinceKept(c, trace, steps, tenant, 0, 0, from);
    forall id | id in trace[from].calls && trace[from].calls[id].tenant == tenant
      ensures CallSince(c, trace, steps, id, from, from)
    {
      var st, j :| 0 <= j && CallFrom(c, trace, steps, id, st, j, from);
      assert CallFrom(c, trace, steps, id, st, from, from);
    }
  }

  lemma HarmlessIsPrompt(c: Config, trace: seq<State>, steps: seq<Step>, tenant: Uuid, k: nat)
    requires Behavior(c, trace, steps) && k < |steps| && Invalidates(steps[k], tenant)
    requires Harmless(c, trace[k + 1], tenant)
    ensures Prompt(c, trace, steps, tenant, k)
  {
    hide EntryFrom, CallFrom, DuringCall, ActiveAs, Returns, Harmless;
    HarmlessReadSince(c, trace, steps, tenant, k);
    forall i | k < i < |steps| && Returns(c, trace[i], steps[i]).Some?
               && Returns(c, trace[i], steps[i]).value.0 == tenant
      ensures ActiveSince(c, trace, tenant, Returns(c, trace[i], steps[i]).value.1, k, i)
    {
      ReadSinceKept(c, trace, steps, tenant, k + 1, k + 1, i);
      var j := ReturnedWasRead(c, trace, steps, tenant, k + 1, i);
    }
  }

  /** Otherwise the stale lookup need only finish. */
  lemma StaleLookupReturns(c: Config, past: seq<State>, taken: seq<Step>, tenant: Uuid, k: nat)
    returns (trace: seq<State>, steps: seq<Step>)
    requires Behavior(c, past, taken) && |taken| == k + 1 && !Harmless(c, past[k + 1], tenant)
    ensures Behavior(c, trace, steps) && Continues(trace, steps, past, taken) && !Prompt(c, trace, steps, tenant, k)
  {
    hide SnapshotOf;
    var id :| id in past[k + 1].calls && past[k + 1].calls[id].tenant == tenant
           && Bringing(c, past[k + 1].calls[id]).Some?
           && !ActiveAs(c, past[k + 1], tenant, Bringing(c, past[k + 1].calls[id]).value);
    trace := past + [Next(c, past[k + 1], Finish(id))];
    steps := taken + [Finish(id)];
    forall n | 0 <= n < |steps|
      ensures Enabled(trace[n], steps[n]) && trace[n + 1] == Next(c, trace[n], steps[n])
    {
      if n < |taken| {
        assert trace[n] == past[n] && trace[n + 1] == past[n + 1];
      }
    }
    assert Returns(c, trace[k + 1], steps[k + 1]) == Some((tenant, Bringing(c, past[k + 1].calls[id]).value));
    assert !ActiveSince(c, trace, tenant, Bringing(c, past[k + 1].calls[id]).value, k, k + 1);
  }

  /** An invalidation takes effect at once, however the run goes on, exactly when no lookup of that
      tenant in flight has already been answered with a policy other than the active one. */
  lemma InvalidationPromptIff(c: Config, past: seq<State>, taken: seq<Step>, tenant: Uuid, k: nat)
    requires Behavior(c, past, taken) && |taken| == k + 1 && Invalidates(taken[k], tenant)
    ensures Harmless(c, past[k + 1], tenant) <==>
            forall trace, steps | Behavior(c, trace, steps) && Continues(trace, steps, past, taken) ::
              Prompt(c, trace, steps, tenant, k)
  {
    hide Prompt, Harmless;
    if Harmless(c, past[k + 1], tenant) {
      forall trace, steps | Behavior(c, trace, steps) && Continues(trace, steps, past, taken)
        ensures Prompt(c, trace, steps, tenant, k)
      {
        HarmlessIsPrompt(c, trace, steps, tenant, k);
      }
    } else {
      var trace, steps := StaleLookupReturns(c, past, taken, tenant, k);
    }
  }

  /** The moments of such a run: asked, answered, changed, and cached again. */
  function Moment(c: Config, tenant: Uuid, revoked: StoredPolicy, current: StoredPolicy, now: int, k: nat): State {
    var before, after := map[tenant := revoked], map[tenant := current];
    var call := Call(tenant, now, None);
    if k == 0 then State(now, before, map[], map[])
    else if k == 1 then State(now, before, map[], map[0 := call])
    else if k == 2 then State(now, before, map[], map[0 := call.(answer := Some(Some(revoked)))])
    else if k <= 4 then State(now, after, map[], map[0 := call.(answer := Some(Some(revoked)))])
    else State(now, after, Completed(c, map[], tenant, now, Some(revoked)).0, map[])
  }

  function MissSteps(tenant: Uuid, current: StoredPolicy): seq<Step> {
    [Start(0, tenant), Read(0), Change(tenant, Some(current)), Invalidate(tenant), Finish(0), Start(1, tenant)]
  }

  lemma MomentSteps(c: Config, tenant: Uuid, revoked: StoredPolicy, current: StoredPolicy, now: int, k: nat)
    requires c.ttl > 0 && SnapshotOf(c, tenant, revoked).Some? && k < 6
    ensures Enabled(Moment(c, tenant, revoked, current, now, k), MissSteps(tenant, current)[k])
    ensures Next(c, Moment(c, tenant, revoked, current, now, k), MissSteps(tenant, current)[k])
         == Moment(c, tenant, revoked, current, now, k + 1)
  {
    var s := Moment(c, tenant, revoked, current, now, k);
    if k == 2 {
      assert map[tenant := revoked][tenant := current] == map[tenant := current];
    } else if k == 3 {
      assert s.entries - {tenant} == map[];
    } else if k == 4 {
      assert s.calls - {0} == map[];
    }
  }

  /** A run that reaches such a state: a miss answered before the change puts the old policy back after
      the invalidation, and later lookups hit it. */
  lemma MissOutlivesInvalidation(c: Config, tenant: Uuid, revoked: StoredPolicy, current: StoredPolicy, now: int)
    returns (trace: seq<State>, steps: seq<Step>, k: nat, i: nat)
    requires c.ttl > 0 && SnapshotOf(c, tenant, revoked).Some?
    requires SnapshotOf(c, tenant, current) != SnapshotOf(c, tenant, revoked)
    ensures Behavior(c, trace, steps) && k < i < |steps| && steps[k] == Invalidate(tenant) && steps[i].Start?
    ensures var stale := SnapshotOf(c, tenant, revoked).value;
            Returns(c, trace[i], steps[i]) == Some((tenant, stale))
            && forall j :: k < j <= i ==> !ActiveAs(c, trace[j], tenant, stale)
  {
    hide Next;
    steps := MissSteps(tenant, current);
    k, i := 3, 5;
    trace := seq(7, n requires 0 <= n < 7 => Moment(c, tenant, revoked, current, now, n));
    forall n | 0 <= n < 6
      ensures Enabled(trace[n], steps[n]) && trace[n + 1] == Next(c, trace[n], steps[n])
    {
      MomentSteps(c, tenant, revoked, current, now, n);
    }
  }
}
