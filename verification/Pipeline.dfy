/** One request of many messages: guards over the whole request, then protection message by message. */
module Pipeline {
  import opened Wrappers
  import opened Domain
  import opened VaultKeys
  import opened RedisStore
  import opened VaultLaws
  import opened RedisVault
  import opened VaultBookkeeping
  import opened Tokenizer
  import opened Protection
  import opened Resolving
  import opened Splicing
  import opened Lossless
  import opened Framing
  import Selection

  /** A message with its detections, the moment it is protected, and the random ids that may draw. */
  datatype Part = Part(message: ChatMessage, entities: seq<Entity>, now: int, ids: seq<TokenId>)

  /** What one request's messages have in common. */
  datatype Setting = Setting(
    scope: Scope, digest: Digester, fp: Fingerprinter, surrogate: Surrogate, policy: Policy, deploymentMax: int)

  function CallOf(st: Store, s: Setting, p: Part): Call {
    Call(st, s.scope, s.digest, s.fp, s.surrogate, p.now, p.message.content, p.entities, s.policy, p.ids)
  }

  ghost predicate EnoughIds(parts: seq<Part>) {
    forall i :: 0 <= i < |parts| ==> |parts[i].entities| <= |parts[i].ids|
  }

  // ---------------------------------------------------------------------------
  // The guards
  // ---------------------------------------------------------------------------

  /** A policy may tighten the deployment's ceiling, never raise it. */
  function EntityBudget(policy: Policy, deploymentMax: int): int {
    if policy.maxEntities <= deploymentMax then policy.maxEntities else deploymentMax
  }

  function Count(selections: seq<seq<Entity>>): nat {
    if selections == [] then 0 else Count(selections[..|selections| - 1]) + |selections[|selections| - 1]|
  }

  predicate AnyBlocked(policy: Policy, selections: seq<seq<Entity>>) {
    exists i, j :: 0 <= i < |selections| && 0 <= j < |selections[i]|
                   && policy.actionFor(selections[i][j].entityType) == Block
  }

  predicate AllInBounds(parts: seq<Part>) {
    forall i :: 0 <= i < |parts| ==> Selection.InBounds(parts[i].message.content, parts[i].entities)
  }

  function SelectionsOf(parts: seq<Part>, policy: Policy): (s: seq<seq<Entity>>)
    ensures |s| == |parts|
    ensures forall i :: 0 <= i < |s| ==>
              var one := Selection.Selected(parts[i].message.content, parts[i].entities, policy);
              s[i] == if one.Ok? then one.value else []
  {
    seq(|parts|, i requires 0 <= i < |parts| =>
      var one := Selection.Selected(parts[i].message.content, parts[i].entities, policy);
      if one.Ok? then one.value else [])
  }

  /** The error the guards raise, if any: bounds first, then the budget, then blocked types. */
  function Verdict(parts: seq<Part>, policy: Policy, deploymentMax: int): Option<GatewayError> {
    if !AllInBounds(parts) then Some(InvalidRequest)
    else if Count(SelectionsOf(parts, policy)) > EntityBudget(policy, deploymentMax) then Some(EntityLimitExceeded)
    else if AnyBlocked(policy, SelectionsOf(parts, policy)) then Some(PolicyViolation)
    else None
  }

  method SelectRequestEntities(parts: seq<Part>, policy: Policy) returns (r: Result<seq<seq<Entity>>, GatewayError>)
    ensures r == if AllInBounds(parts) then Ok(SelectionsOf(parts, policy)) else Err(InvalidRequest)
  {
    hide Selection.Sweep, Selection.Confident, Selection.InBounds;
    var selections: seq<seq<Entity>> := [];
    for i := 0 to |parts|
      invariant AllInBounds(parts[..i])
      invariant |selections| == i && forall k :: 0 <= k < i ==> selections[k] == SelectionsOf(parts, policy)[k]
    {
      var selected := Selection.SelectEntities(parts[i].message.content, parts[i].entities, policy);
      if selected.Err? {
        return Err(selected.error);
      }
      selections := selections + [selected.value];
    }
    assert selections == SelectionsOf(parts, policy);
    r := Ok(selections);
  }

  method EnforceEntityBudget(selections: seq<seq<Entity>>, budget: int) returns (r: Result<nat, GatewayError>)
    ensures r == if Count(selections) > budget then Err(EntityLimitExceeded) else Ok(Count(selections))
  {
    var total: nat := 0;
    for i := 0 to |selections|
      invariant total == Count(selections[..i])
    {
      assert selections[..i + 1][..i] == selections[..i];
      total := total + |selections[i]|;
    }
    assert selections[..|selections|] == selections;
    if total > budget {
      return Err(EntityLimitExceeded);
    }
    r := Ok(total);
  }

  method RejectBlockedEntities(selections: seq<seq<Entity>>, policy: Policy) returns (blocked: bool)
    ensures blocked <==> AnyBlocked(policy, selections)
  {
    for i := 0 to |selections|
      invariant !AnyBlocked(policy, selections[..i])
    {
      for j := 0 to |selections[i]|
        invariant forall k :: 0 <= k < j ==> policy.actionFor(selections[i][k].entityType) != Block
      {
        if policy.actionFor(selections[i][j].entityType) == Block {
          return true;
        }
      }
    }
    return false;
  }

  method GuardRequest(parts: seq<Part>, policy: Policy, deploymentMax: int) returns (refusal: Option<GatewayError>)
    ensures refusal == Verdict(parts, policy, deploymentMax)
  {
    hide AllInBounds, AnyBlocked, Count;
    var selections := SelectRequestEntities(parts, policy);
    if selections.Err? {
      return Some(selections.error);
    }
    var total := EnforceEntityBudget(selections.value, EntityBudget(policy, deploymentMax));
    if total.Err? {
      return Some(total.error);
    }
    var blocked := RejectBlockedEntities(selections.value, policy);
    return if blocked then Some(PolicyViolation) else None;
  }

  // ---------------------------------------------------------------------------
  // Protecting every message
  // ---------------------------------------------------------------------------

  function CountFor(counts: map<string, nat>, t: string): nat {
    if t in counts then counts[t] else 0
  }

  function MergedTypes(a: map<string, nat>, b: map<string, nat>): map<string, nat> {
    map t | t in a.Keys + b.Keys :: CountFor(a, t) + CountFor(b, t)
  }

  function MergedWith(a: PrivacySummary, b: PrivacySummary): PrivacySummary {
    PrivacySummary(a.detected + b.detected, a.tokenized + b.tokenized, a.redacted + b.redacted,
                   a.pseudonymized + b.pseudonymized, a.allowed + b.allowed, MergedTypes(a.entityTypes, b.entityTypes))
  }

  const NOTHING_FOUND := PrivacySummary(0, 0, 0, 0, 0, map[])

  datatype ProtectedRequest = ProtectedRequest(messages: seq<ChatMessage>, summary: PrivacySummary)

  /** Protecting the remaining parts, after `done`. */
  function ProtectedFrom(st: Store, s: Setting, done: ProtectedRequest, parts: seq<Part>)
    : (Store, Result<ProtectedRequest, GatewayError>)
    requires EnoughIds(parts)
    decreases |parts|
  {
    if parts == [] then (st, Ok(done))
    else
      var (after, one) := Outcome(CallOf(st, s, parts[0]));
      if one.Err? then (after, Err(one.error))
      else
        ProtectedFrom(after, s,
                      ProtectedRequest(done.messages + [ChatMessage(parts[0].message.role, one.value.text)],
                                       MergedWith(done.summary, one.value.summary)),
                      parts[1..])
  }

  /** The request path up to the provider: guards, then protection. */
  function Protected(st: Store, s: Setting, parts: seq<Part>): (Store, Result<ProtectedRequest, GatewayError>)
    requires EnoughIds(parts)
  {
    var refusal := Verdict(parts, s.policy, s.deploymentMax);
    if refusal.Some? then (st, Err(refusal.value))
    else ProtectedFrom(st, s, ProtectedRequest([], NOTHING_FOUND), parts)
  }

  class SecurePipeline {
    const tokenizer: Tokenizer
    const deploymentMax: int

    constructor (tokenizer: Tokenizer, deploymentMax: int)
      ensures this.tokenizer == tokenizer && this.deploymentMax == deploymentMax
    {
      this.tokenizer := tokenizer;
      this.deploymentMax := deploymentMax;
    }

    function SettingOf(scope: Scope, policy: Policy): Setting {
      Setting(scope, tokenizer.vault.digest, tokenizer.fingerprinter, tokenizer.surrogate, policy, deploymentMax)
    }

    method TokenizeRequest(scope: Scope, policy: Policy, parts: seq<Part>)
      returns (r: Result<ProtectedRequest, GatewayError>)
      requires tokenizer.vault.Valid() && EnoughIds(parts)
      modifies tokenizer.vault.redis
      ensures tokenizer.vault.Valid()
      ensures (tokenizer.vault.redis.store, r)
           == ProtectedFrom(old(tokenizer.vault.redis.store), SettingOf(scope, policy),
                            ProtectedRequest([], NOTHING_FOUND), parts)
    {
      hide Transformed, MergedWith;
      var messages: seq<ChatMessage> := [];
      var summary := NOTHING_FOUND;
      assert parts[0..] == parts;
      for i := 0 to |parts|
        invariant tokenizer.vault.Valid()
        invariant EnoughIds(parts[i..])
        invariant ProtectedFrom(old(tokenizer.vault.redis.store), SettingOf(scope, policy),
                                ProtectedRequest([], NOTHING_FOUND), parts)
               == ProtectedFrom(tokenizer.vault.redis.store, SettingOf(scope, policy),
                                ProtectedRequest(messages, summary), parts[i..])
      {
        var part := parts[i];
        assert parts[i..][1..] == parts[i + 1..];
        var transformed := tokenizer.Transform(scope, part.message.content, part.entities, policy, part.now, part.ids);
        if transformed.Err? {
          return Err(transformed.error);
        }
        messages := messages + [ChatMessage(part.message.role, transformed.value.text)];
        summary := MergedWith(summary, transformed.value.summary);
      }
      r := Ok(ProtectedRequest(messages, summary));
    }

    method Protect(scope: Scope, policy: Policy, parts: seq<Part>) returns (r: Result<ProtectedRequest, GatewayError>)
      requires tokenizer.vault.Valid() && EnoughIds(parts)
      modifies tokenizer.vault.redis
      ensures tokenizer.vault.Valid()
      ensures (tokenizer.vault.redis.store, r)
           == Protected(old(tokenizer.vault.redis.store), SettingOf(scope, policy), parts)
    {
      hide Verdict, ProtectedFrom;
      var refusal := GuardRequest(parts, policy, deploymentMax);
      if refusal.Some? {
        return Err(refusal.value);
      }
      r := TokenizeRequest(scope, policy, parts);
    }
  }

  // ---------------------------------------------------------------------------
  // A refused request leaves nothing behind
  // ---------------------------------------------------------------------------

  predicate IsRefusal(e: GatewayError) {
    e == InvalidRequest || e == EntityLimitExceeded || e == PolicyViolation
  }

  /** What the guard checked of one message. */
  predicate Cleared(s: Setting, p: Part) {
    && Selection.InBounds(p.message.content, p.entities)
    && |Selection.Selected(p.message.content, p.entities, s.policy).value| <= s.policy.maxEntities
    && forall j :: 0 <= j < |Selection.Selected(p.message.content, p.entities, s.policy).value| ==>
         s.policy.actionFor(Selection.Selected(p.message.content, p.entities, s.policy).value[j].entityType) != Block
  }

  lemma {:induction false} CountAtLeast(selections: seq<seq<Entity>>, i: nat)
    requires i < |selections|
    ensures |selections[i]| <= Count(selections)
  {
    var n := |selections| - 1;
    if i < n {
      CountAtLeast(selections[..n], i);
    }
  }

  lemma GuardClears(s: Setting, parts: seq<Part>, i: nat)
    requires Verdict(parts, s.policy, s.deploymentMax).None? && i < |parts|
    ensures Cleared(s, parts[i])
  {
    hide Selection.Sweep, Selection.Confident, Selection.InBounds, Count;
    var selections := SelectionsOf(parts, s.policy);
    CountAtLeast(selections, i);
    assert Selection.InBounds(parts[i].message.content, parts[i].entities);
    assert selections[i] == Selection.Selected(parts[i].message.content, parts[i].entities, s.policy).value;
  }

  lemma ClearedIsNotRefused(st: Store, s: Setting, p: Part)
    requires Cleared(s, p) && |p.entities| <= |p.ids|
    ensures Outcome(CallOf(st, s, p)).1.Err? ==> !IsRefusal(Outcome(CallOf(st, s, p)).1.error)
  {
    hide Selection.Sweep, Selection.Confident, Selection.InBounds, Requests, Script, CutsFrom, Splice, SummaryOf,
         MappingsFrom, Accepts, Mappings, AllCoerce;
    PlanOfSelectedFits(p.message.content, p.entities, s.policy);
  }

  lemma {:induction false} RestIsNotRefused(st: Store, s: Setting, done: ProtectedRequest, parts: seq<Part>)
    requires EnoughIds(parts) && forall i :: 0 <= i < |parts| ==> Cleared(s, parts[i])
    ensures var r := ProtectedFrom(st, s, done, parts).1; r.Err? ==> !IsRefusal(r.error)
    decreases |parts|
  {
    hide Cleared, Outcome, MergedWith;
    if parts != [] {
      ClearedIsNotRefused(st, s, parts[0]);
      var (after, one) := Outcome(CallOf(st, s, parts[0]));
      if one.Ok? {
        RestIsNotRefused(after, s,
                         ProtectedRequest(done.messages + [ChatMessage(parts[0].message.role, one.value.text)],
                                          MergedWith(done.summary, one.value.summary)),
                         parts[1..]);
      }
    }
  }

  /** A request is refused by policy exactly when the guards refuse it, with their error; and then the
      vault is as it was. Once they let it pass, no message can be refused any more. */
  lemma RefusedIffGuarded(st: Store, s: Setting, parts: seq<Part>, e: GatewayError)
    requires EnoughIds(parts) && IsRefusal(e)
    ensures Protected(st, s, parts).1 == Err(e) <==> Verdict(parts, s.policy, s.deploymentMax) == Some(e)
    ensures Protected(st, s, parts).1 == Err(e) ==> Protected(st, s, parts).0 == st
  {
    hide Cleared, Verdict, ProtectedFrom;
    if Verdict(parts, s.policy, s.deploymentMax).None? {
      forall i | 0 <= i < |parts|
        ensures Cleared(s, parts[i])
      {
        GuardClears(s, parts, i);
      }
      RestIsNotRefused(st, s, ProtectedRequest([], NOTHING_FOUND), parts);
    }
  }

  // ---------------------------------------------------------------------------
  // Which requests succeed
  // ---------------------------------------------------------------------------

  /** Fresh ids for every part, none shared. */
  ghost predicate AllFresh(st: Store, scope: Scope, parts: seq<Part>) {
    && (forall i :: 0 <= i < |parts| ==> Fresh(st, scope, parts[i].ids))
    && (forall i, j :: 0 <= i < j < |parts| ==> Apart(parts[i].ids, parts[j].ids))
  }

  ghost predicate Apart(a: seq<TokenId>, b: seq<TokenId>) {
    forall i, j :: 0 <= i < |a| && 0 <= j < |b| ==> a[i] != b[j]
  }

  lemma WriteKeepsFresh(st: Store, scope: Scope, digest: Digester, now: int, entries: seq<VaultWriteRequest>,
                        ttl: int, ids: seq<TokenId>, others: seq<TokenId>)
    requires |entries| <= |ids| && entries != [] && Consistent(st) && IsDigester(digest) && Fresh(st, scope, ids)
    requires Fresh(st, scope, others) && Apart(ids, others)
    ensures var after := Written(st, scope, digest, now, entries, ttl, ids).0;
            Consistent(after) && Fresh(after, scope, others)
  {
    hide Consistent, IsDigester, Written, Fold, Accepts, LegalBatch, Unused, Unique, Candidate;
    AcceptedIsAnswered(st, scope, digest, now, entries, ttl, ids);
    if Accepts(entries, ttl) {
      WrittenIsFold(st, scope, digest, now, entries, ttl, ids);
      var offered := Candidates(scope, digest, Unique(entries), ids);
      var folded := Fold(st, scope, now, ttl, offered).0;
      var after := Written(st, scope, digest, now, entries, ttl, ids).0;
      FoldConsistent(st, scope, now, ttl, offered);
      OfferedIdsAre(scope, digest, Unique(entries), ids);
      forall i | 0 <= i < |others|
        ensures Unused(after, scope, others[i])
      {
        FoldKeepsUnused(st, scope, now, ttl, offered, scope, others[i]);
        SameCells(folded, after, scope, others[i]);
      }
      SameCells(folded, after, scope, "");
    } else {
      RefusedWritesNothing(st, scope, digest, now, entries, ttl, ids);
    }
  }

  lemma OfferedIdsAre(scope: Scope, digest: Digester, unique: seq<VaultWriteRequest>, ids: seq<TokenId>)
    requires |unique| <= |ids|
    ensures forall i :: 0 <= i < |unique| ==> Candidates(scope, digest, unique, ids)[i].candidateId == ids[i]
  {
  }

  lemma SameCells(a: Store, b: Store, scope: Scope, id: string)
    requires a.records == b.records && a.index == b.index
    ensures Unused(a, scope, id) <==> Unused(b, scope, id)
    ensures Consistent(a) ==> Consistent(b)
  {
    if Consistent(a) {
      forall k | k in b.index
        ensures LeadsToItsType(b, k)
      {
        assert LeadsToItsType(a, k);
      }
    }
  }

  lemma OutcomeKeepsFresh(c: Call, others: seq<TokenId>)
    requires |c.entities| <= |c.ids| && Consistent(c.store) && IsDigester(c.digest) && Fresh(c.store, c.scope, c.ids)
    requires Fresh(c.store, c.scope, others) && Apart(c.ids, others)
    ensures Consistent(Outcome(c).0) && Fresh(Outcome(c).0, c.scope, others)
  {
    hide Consistent, IsDigester, Fresh, Requests, Written, AllCoerce, Mappings, Spliced, HasBlock, PlanFits,
         Selection.Selected, Apart;
    if Outcome(c).0 != c.store {
      PlanOfSelectedFits(c.text, c.entities, c.policy);
      WriteKeepsFresh(c.store, c.scope, c.digest, c.now, Asked(c), c.policy.sessionTtlSeconds, c.ids, others);
    }
  }

  lemma {:induction false} RestSucceedsIff(st: Store, s: Setting, done: ProtectedRequest, parts: seq<Part>)
    requires EnoughIds(parts) && Consistent(st) && IsDigester(s.digest) && AllFresh(st, s.scope, parts)
    ensures ProtectedFrom(st, s, done, parts).1.Ok? <==>
            forall i :: 0 <= i < |parts| ==> Passes(CallOf(st, s, parts[i]))
    decreases |parts|
  {
    hide Consistent, IsDigester, Fresh, Passes, Outcome, MergedWith, Apart;
    if parts != [] {
      var (after, one) := Outcome(CallOf(st, s, parts[0]));
      SucceedsIff(CallOf(st, s, parts[0]));
      if one.Ok? {
        NoneIsFresh(st, s.scope, parts[0].ids);
        OutcomeKeepsFresh(CallOf(st, s, parts[0]), []);
        forall j | 0 <= j < |parts| - 1
          ensures Fresh(after, s.scope, parts[1..][j].ids)
        {
          OutcomeKeepsFresh(CallOf(st, s, parts[0]), parts[j + 1].ids);
        }
        RestSucceedsIff(after, s,
                        ProtectedRequest(done.messages + [ChatMessage(parts[0].message.role, one.value.text)],
                                         MergedWith(done.summary, one.value.summary)),
                        parts[1..]);
        forall i | 0 <= i < |parts|
          ensures Passes(CallOf(st, s, parts[i])) <==> Passes(CallOf(after, s, parts[i]))
        {
          PassesIgnoresStore(st, after, s, parts[i]);
        }
        assert forall i :: 0 <= i < |parts| - 1 ==> parts[1..][i] == parts[i + 1];
        assert forall i :: 1 <= i < |parts| ==> parts[i] == parts[1..][i - 1];
      }
    }
  }

  lemma NoneIsFresh(st: Store, scope: Scope, ids: seq<TokenId>)
    ensures Fresh(st, scope, []) && Apart(ids, [])
  {
  }

  lemma PassesIgnoresStore(a: Store, b: Store, s: Setting, p: Part)
    ensures Passes(CallOf(a, s, p)) <==> Passes(CallOf(b, s, p))
  {
    hide Selection.Selected, Requests, Accepts, Selection.InBounds;
  }

  /** A request is protected exactly when the guards let it pass and the vault's checks accept every
      message's entries; which messages came before it never matters. */
  lemma RequestSucceedsIff(st: Store, s: Setting, parts: seq<Part>)
    requires EnoughIds(parts) && Consistent(st) && IsDigester(s.digest) && AllFresh(st, s.scope, parts)
    ensures Protected(st, s, parts).1.Ok? <==>
            Verdict(parts, s.policy, s.deploymentMax).None?
            && forall i :: 0 <= i < |parts| ==> Passes(CallOf(st, s, parts[i]))
  {
    hide Consistent, IsDigester, AllFresh, Passes, Verdict, ProtectedFrom;
    RestSucceedsIff(st, s, ProtectedRequest([], NOTHING_FOUND), parts);
  }

  // ---------------------------------------------------------------------------
  // Counting over the whole request
  // ---------------------------------------------------------------------------

  /** Every span acted on is counted once by action and once by type. */
  ghost predicate Balanced(s: PrivacySummary) {
    s.detected == s.tokenized + s.redacted + s.pseudonymized + s.allowed && s.detected == Total(s.entityTypes)
  }

  lemma TotalOfNone()
    ensures Total(map[]) == 0
  {
  }

  lemma MergedWithout(a: map<string, nat>, b: map<string, nat>, t: string)
    ensures MergedTypes(a, b) - {t} == MergedTypes(a - {t}, b - {t})
    ensures t in b ==> t in MergedTypes(a, b) && MergedTypes(a, b)[t] == CountFor(a, t) + b[t]
    ensures MergedTypes(a, map[]) == a
  {
  }

  lemma TotalAround(a: map<string, nat>, t: string)
    ensures Total(a) == CountFor(a, t) + Total(a - {t})
  {
    if t in a {
      TotalWithout(a, t);
    } else {
      assert a - {t} == a;
    }
  }

  lemma {:induction false} MergedTotal(a: map<string, nat>, b: map<string, nat>)
    ensures Total(MergedTypes(a, b)) == Total(a) + Total(b)
    decreases |b|
  {
    hide Total, MergedTypes;
    if b == map[] {
      TotalOfNone();
      MergedWithout(a, b, "");
    } else {
      var t :| t in b;
      MergedWithout(a, b, t);
      TotalAround(MergedTypes(a, b), t);
      TotalAround(a, t);
      TotalAround(b, t);
      MergedTotal(a - {t}, b - {t});
    }
  }

  lemma MergedBalanced(a: PrivacySummary, b: PrivacySummary)
    requires Balanced(a) && Balanced(b)
    ensures Balanced(MergedWith(a, b))
  {
    MergedTotal(a.entityTypes, b.entityTypes);
  }

  lemma {:induction false} CountCons(first: seq<Entity>, rest: seq<seq<Entity>>)
    ensures Count([first] + rest) == |first| + Count(rest)
  {
    var all := [first] + rest;
    if rest == [] {
      assert all[..0] == [];
    } else {
      var n := |rest| - 1;
      assert all[..|all| - 1] == [first] + rest[..n];
      CountCons(first, rest[..n]);
    }
  }

  lemma OutcomeCounts(c: Call, after: Store, out: TransformedText)
    requires Succeeds(c, after, out)
    ensures Balanced(out.summary) && out.summary.detected == |Plan(c)|
  {
    hide Selection.Selected, Requests, Written, AllCoerce, Mappings, CutsFrom, Splice, MappingsFrom, Plan, SummaryOf;
    var mappings := Decompose(c, after, out);
    SummaryConserves(Plan(c));
    SummaryDetects(Plan(c));
  }

  lemma SummaryDetects(plan: seq<Planned>)
    ensures SummaryOf(plan).detected == |plan|
  {
  }

  lemma SelectionsCons(parts: seq<Part>, policy: Policy)
    requires parts != []
    ensures Count(SelectionsOf(parts, policy))
         == |SelectionsOf(parts, policy)[0]| + Count(SelectionsOf(parts[1..], policy))
  {
    hide Count, Selection.Selected;
    assert SelectionsOf(parts, policy) == [SelectionsOf(parts, policy)[0]] + SelectionsOf(parts[1..], policy);
    CountCons(SelectionsOf(parts, policy)[0], SelectionsOf(parts[1..], policy));
  }

  lemma {:induction false} RestCounts(st: Store, s: Setting, done: ProtectedRequest, parts: seq<Part>)
    requires EnoughIds(parts) && ProtectedFrom(st, s, done, parts).1.Ok? && Balanced(done.summary)
    ensures var r := ProtectedFrom(st, s, done, parts).1.value;
            Balanced(r.summary)
            && r.summary.detected == done.summary.detected + Count(SelectionsOf(parts, s.policy))
            && |r.messages| == |done.messages| + |parts| && done.messages <= r.messages
    ensures var r := ProtectedFrom(st, s, done, parts).1.value;
            forall i :: 0 <= i < |parts| ==> r.messages[|done.messages| + i].role == parts[i].message.role
    decreases |parts|
  {
    hide Outcome, Balanced, Count, Selection.Selected, Plan, MergedTypes;
    if parts == [] {
      assert SelectionsOf(parts, s.policy) == [];
      NoneCounted();
    } else {
      var c := CallOf(st, s, parts[0]);
      var (after, one) := Outcome(c);
      OutcomeCounts(c, after, one.value);
      OutcomeSelected(c, after, one.value);
      MergedBalanced(done.summary, one.value.summary);
      var next := ProtectedRequest(done.messages + [ChatMessage(parts[0].message.role, one.value.text)],
                                   MergedWith(done.summary, one.value.summary));
      RestCounts(after, s, next, parts[1..]);
      SelectionsCons(parts, s.policy);
      var r := ProtectedFrom(st, s, done, parts).1.value;
      assert r.messages[|done.messages|] == next.messages[|done.messages|];
      assert forall i :: 1 <= i < |parts| ==> parts[i] == parts[1..][i - 1];
    }
  }

  lemma NoneCounted()
    ensures Count([]) == 0
  {
  }

  lemma OutcomeSelected(c: Call, after: Store, out: TransformedText)
    requires Succeeds(c, after, out)
    ensures Selection.Selected(c.text, c.entities, c.policy).Ok?
    ensures |Plan(c)| == |Selection.Selected(c.text, c.entities, c.policy).value|
  {
    hide Selection.Selected, Requests, Written, AllCoerce, Mappings, Spliced;
  }

  lemma NothingBalances()
    ensures Balanced(NOTHING_FOUND)
  {
    TotalOfNone();
  }

  /** A protected request has one message per message, in the same roles; its counts balance; and the
      spans acted on over all its messages stay within both ceilings, however they are spread. */
  lemma RequestCounts(st: Store, s: Setting, parts: seq<Part>, r: ProtectedRequest)
    requires EnoughIds(parts) && Protected(st, s, parts).1 == Ok(r)
    ensures Balanced(r.summary)
    ensures r.summary.detected == Count(SelectionsOf(parts, s.policy))
    ensures r.summary.detected <= s.policy.maxEntities && r.summary.detected <= s.deploymentMax
    ensures |r.messages| == |parts| && forall i :: 0 <= i < |parts| ==> r.messages[i].role == parts[i].message.role
  {
    hide ProtectedFrom, Count, AllInBounds, AnyBlocked, Balanced, SelectionsOf;
    NothingBalances();
    RestCounts(st, s, ProtectedRequest([], NOTHING_FOUND), parts);
  }
}
