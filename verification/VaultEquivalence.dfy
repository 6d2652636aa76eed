/** Redis and the in-memory vault side by side, over whole runs of every operation and every session. */
module VaultEquivalence {
  import opened Wrappers
  import opened Domain
  import opened VaultKeys
  import opened RedisStore
  import opened VaultLaws
  import opened RedisVault
  import opened VaultBookkeeping
  import opened VaultRefinement
  import FakeVault
  import Grammar = TokenGrammar

  datatype AnyCall =
    | Write(scope: Scope, entries: seq<VaultWriteRequest>, ttl: int, ids: seq<TokenId>)
    | Resolve(scope: Scope, tokens: set<string>)
    | Delete(scope: Scope)
    | Elapse(until: int)

  /** A write comes with a random id for every entry. */
  type Call = c: AnyCall | c.Write? ==> |c.entries| <= |c.ids| witness Elapse(0)

  datatype Answer =
    | Tokens(tokens: Result<seq<string>, GatewayError>)
    | Values(values: Result<map<string, string>, GatewayError>)
    | Count(count: nat)
    | Silent

  datatype Vaults = Vaults(store: Store, sessions: map<Scope, FakeVault.Session>, now: int)

  function OnRedis(v: Vaults, digest: Digester, call: Call): (Store, Answer) {
    match call
    case Write(scope, entries, ttl, ids) =>
      var (after, r) := Written(v.store, scope, digest, v.now, entries, ttl, ids); (after, Tokens(r))
    case Resolve(scope, tokens) => (v.store, Values(Resolution(v.store, scope, v.now, tokens)))
    case Delete(scope) => var (after, n) := Deleted(v.store, scope, v.now); (after, Count(n))
    case Elapse(_) => (v.store, Silent)
  }

  function OnDictionaries(v: Vaults, call: Call): (map<Scope, FakeVault.Session>, Answer) {
    match call
    case Write(scope, entries, ttl, ids) =>
      var (after, r) := FakeVault.WrittenTo(v.sessions, scope, v.now, entries, ttl, OfferedIds(entries, ids));
      (after, Tokens(r))
    case Resolve(scope, tokens) =>
      var (after, found) := FakeVault.ResolvedFrom(v.sessions, scope, v.now, tokens); (after, Values(Ok(found)))
    case Delete(scope) => var (after, n) := FakeVault.DeletedFrom(v.sessions, scope); (after, Count(n))
    case Elapse(_) => (v.sessions, Silent)
  }

  function Step(v: Vaults, digest: Digester, call: Call): Vaults {
    Vaults(OnRedis(v, digest, call).0, OnDictionaries(v, call).0, if call.Elapse? then call.until else v.now)
  }

  /** What callers and the clock may do. Fingerprints come from those in use, ids are fresh, and no
      write is one that Redis alone refuses, for its TTL, its size or an empty fingerprint. */
  ghost predicate LegalCall(v: Vaults, prints: set<string>, call: Call) {
    match call
    case Write(scope, entries, ttl, ids) =>
      && FromPrints(entries, prints)
      && FreshIds(v.store, scope, FakeVault.SessionOf(v.sessions, scope), ids)
      && (Accepts(entries, ttl) || FakeVault.Refuses(entries, ttl))
    case Elapse(until) => v.now <= until
    case _ => true
  }

  ghost predicate LegalCalls(v: Vaults, digest: Digester, prints: set<string>, calls: seq<Call>)
    decreases |calls|
  {
    calls == []
    || (LegalCall(v, prints, calls[0]) && LegalCalls(Step(v, digest, calls[0]), digest, prints, calls[1..]))
  }

  ghost predicate Sound(v: Vaults) {
    Consistent(v.store) && Bookkept(v.store, v.now)
  }

  /** Every session is the same in both. */
  ghost predicate InStep(v: Vaults, digest: Digester, prints: set<string>) {
    forall scope: Scope ::
      Simulates(v.store, scope, digest, prints, v.now, FakeVault.SessionOf(v.sessions, scope))
  }

  // ---------------------------------------------------------------------------
  // Answers
  // ---------------------------------------------------------------------------

  function LiveCount(f: FakeVault.Session, now: int): nat {
    |set id | id in f.records && f.records[id].expiresAt > now|
  }

  /** What Redis answers, told from the dictionaries alone: the same tokens; the same values, unless a
      token wanted names an id live under another type; and the records that had not expired. */
  function Expected(v: Vaults, call: Call): Answer {
    match call
    case Resolve(scope, tokens) =>
      if exists t :: t in tokens && UnderOtherType(FakeVault.Purged(FakeVault.SessionOf(v.sessions, scope), v.now), t)
      then Values(Err(VaultEncryption))
      else OnDictionaries(v, call).1
    case Delete(scope) => Count(LiveCount(FakeVault.SessionOf(v.sessions, scope), v.now))
    case _ => OnDictionaries(v, call).1
  }

  /** The dictionaries' own count is the one Redis gives exactly when nothing expired is left in them. */
  lemma CountsEqualIff(f: FakeVault.Session, now: int)
    ensures |f.records| == LiveCount(f, now) <==> AllLive(f, now)
    ensures LiveCount(f, now) <= |f.records|
  {
    var live := set id | id in f.records && f.records[id].expiresAt > now;
    assert live <= f.records.Keys;
    Cardinality(live, f.records.Keys);
    if AllLive(f, now) {
      assert live == f.records.Keys;
    }
    assert |f.records| == |f.records.Keys|;
  }

  lemma {:induction false} Cardinality<T>(a: set<T>, b: set<T>)
    requires a <= b
    ensures |a| <= |b| && (|a| == |b| ==> a == b)
  {
    if a != {} {
      var x :| x in a;
      Cardinality(a - {x}, b - {x});
    }
  }

  // ---------------------------------------------------------------------------
  // One call
  // ---------------------------------------------------------------------------

  /** Every live record of the session is a member. */
  ghost predicate RecordsListed(st: Store, scope: Scope, now: int) {
    forall id :: RecordLive(st, (scope, id), now) ==> RecordKey(scope, id) in Members(st, scope, now)
  }

  lemma SameSessionSimulates(a: Store, b: Store, scope: Scope, digest: Digester, prints: set<string>, now: int,
                             f: FakeVault.Session)
    requires SameSession(a, b, scope) && Simulates(a, scope, digest, prints, now, f)
    ensures Simulates(b, scope, digest, prints, now, f)
  {
    hide Grammar.ParseToken, Grammar.Bracket;
    forall id
      ensures RecordAgrees(b, scope, now, f, id)
    {
      assert RecordAgrees(a, scope, now, f, id);
    }
    forall k: (string, string) | k.1 in prints
      ensures IndexAgrees(b, scope, digest, now, f, k)
    {
      assert IndexAgrees(a, scope, digest, now, f, k);
    }
  }

  lemma PurgedStaysFresh(st: Store, scope: Scope, f: FakeVault.Session, now: int, ids: seq<TokenId>)
    requires FreshIds(st, scope, f, ids)
    ensures FreshIds(st, scope, FakeVault.Purged(f, now), ids)
  {
    hide Grammar.ParseToken, Grammar.IsValidTokenId, Fresh;
    forall i | 0 <= i < |ids|
      ensures FakeUnused(FakeVault.Purged(f, now), ids[i])
    {
      assert FakeUnused(f, ids[i]);
    }
  }

  lemma AcceptedIsNotRefused(entries: seq<VaultWriteRequest>, ttl: int)
    requires Accepts(entries, ttl)
    ensures !FakeVault.Refuses(entries, ttl)
  {
    hide Grammar.IsValidEntityType;
  }

  lemma WriteInStep(v: Vaults, digest: Digester, prints: set<string>, call: Call)
    requires call.Write? && LegalCall(v, prints, call) && Sound(v) && InStep(v, digest, prints)
    requires IsDigester(digest) && Separates(digest, prints)
    ensures InStep(Step(v, digest, call), digest, prints)
    ensures OnRedis(v, digest, call).1 == Expected(v, call)
  {
    hide Simulates, Consistent, Bookkept, Accepts, FakeVault.Refuses, FakeVault.Purged, FakeVault.Fold, Script,
         SameSession, AllLive, FreshIds, IsDigester, Separates, FromPrints, OfferedIds, Unique, Candidates,
         WellFormedReplies, RedisVault.Tokens;
    var Write(scope, entries, ttl, ids) := call;
    var f := FakeVault.SessionOf(v.sessions, scope);
    if Accepts(entries, ttl) {
      AcceptedIsNotRefused(entries, ttl);
      if entries != [] {
        PurgeSimulates(v.store, scope, digest, prints, v.now, f);
        PurgedStaysFresh(v.store, scope, f, v.now, ids);
        WriteSimulates(v.store, scope, digest, prints, v.now, ttl, FakeVault.Purged(f, v.now), entries, ids);
        var after := Step(v, digest, call);
        forall other: Scope
          ensures Simulates(after.store, other, digest, prints, v.now, FakeVault.SessionOf(after.sessions, other))
        {
          if other != scope {
            ScriptIsolated(v.store, scope, v.now, ttl, Candidates(scope, digest, Unique(entries), ids), other);
            SameSessionSimulates(v.store, after.store, other, digest, prints, v.now,
                                 FakeVault.SessionOf(v.sessions, other));
          }
        }
      }
    }
  }

  lemma ChecksAre(entries: seq<VaultWriteRequest>, ttl: int)
    ensures Accepts(entries, ttl) || FakeVault.Refuses(entries, ttl) <==>
            (exists i :: 0 <= i < |entries| && !Grammar.IsValidEntityType(entries[i].entityType)) || ttl < 1
            || (ttl <= 7200 && |entries| <= 10_000
                && forall i :: 0 <= i < |entries| ==> entries[i].normalizedHmac != "")
  {
    hide Grammar.IsValidEntityType;
  }

  /** The two answer a write alike exactly when it is not one that Redis alone refuses. */
  lemma WriteAnswersAgreeIff(v: Vaults, digest: Digester, prints: set<string>, call: Call)
    requires call.Write? && Sound(v) && InStep(v, digest, prints)
    requires FromPrints(call.entries, prints)
    requires FreshIds(v.store, call.scope, FakeVault.SessionOf(v.sessions, call.scope), call.ids)
    requires IsDigester(digest) && Separates(digest, prints)
    ensures OnRedis(v, digest, call).1 == OnDictionaries(v, call).1 <==>
            (exists i :: 0 <= i < |call.entries| && !Grammar.IsValidEntityType(call.entries[i].entityType))
            || call.ttl < 1
            || (call.ttl <= 7200 && |call.entries| <= 10_000
                && forall i :: 0 <= i < |call.entries| ==> call.entries[i].normalizedHmac != "")
  {
    hide Sound, InStep, Accepts, FakeVault.Refuses, FromPrints, FreshIds, IsDigester, Separates, Script,
         FakeVault.Fold, Unique, Candidates, OfferedIds, WellFormedReplies, RedisVault.Tokens, FakeVault.Purged;
    ChecksAre(call.entries, call.ttl);
    if Accepts(call.entries, call.ttl) || FakeVault.Refuses(call.entries, call.ttl) {
      WriteInStep(v, digest, prints, call);
    }
  }

  lemma ResolveInStep(v: Vaults, digest: Digester, prints: set<string>, call: Call)
    requires call.Resolve? && Sound(v) && InStep(v, digest, prints)
    ensures InStep(Step(v, digest, call), digest, prints)
    ensures OnRedis(v, digest, call).1 == Expected(v, call)
  {
    hide Simulates, Consistent, Bookkept, AllLive, UnderOtherType, FakeVault.LookUp, Resolution;
    var Resolve(scope, tokens) := call;
    var f := FakeVault.SessionOf(v.sessions, scope);
    PurgeSimulates(v.store, scope, digest, prints, v.now, f);
    var purged := FakeVault.Purged(f, v.now);
    ResolutionSimulates(v.store, scope, digest, prints, v.now, purged, tokens);
    if scope !in v.sessions {
      NothingInEmpty(v.now);
    }
    var after := Step(v, digest, call);
    forall other: Scope
      ensures Simulates(after.store, other, digest, prints, v.now, FakeVault.SessionOf(after.sessions, other))
    {
      assert FakeVault.SessionOf(after.sessions, other)
          == if other == scope then purged else FakeVault.SessionOf(v.sessions, other);
    }
  }

  lemma NothingInEmpty(now: int)
    ensures FakeVault.Purged(FakeVault.EMPTY, now) == FakeVault.EMPTY
    ensures forall t :: FakeVault.LookUp(FakeVault.EMPTY, t) == None
    ensures forall t :: !UnderOtherType(FakeVault.EMPTY, t)
  {
    hide Grammar.ParseToken;
  }

  /** A live index key leads to a live record listed with it. */
  lemma RecordsListedIsListed(st: Store, scope: Scope, now: int)
    requires Bookkept(st, now) && RecordsListed(st, scope, now)
    ensures Listed(st, scope, now)
  {
    hide OneOwner, Members;
    forall t, d | IndexLive(st, (scope, t, d), now)
      ensures IndexKey(scope, t, d) in Members(st, scope, now)
    {
      assert PairedAt(st, (scope, t, d), now);
      assert RecordLive(st, (scope, st.index[(scope, t, d)].tokenId), now);
    }
  }

  lemma EmptySimulatesNothingLive(st: Store, scope: Scope, digest: Digester, prints: set<string>, now: int)
    requires NothingLive(st, scope, now)
    ensures Simulates(st, scope, digest, prints, now, FakeVault.EMPTY)
  {
    hide Grammar.ParseToken, Grammar.Bracket;
    forall k: (string, string)
      ensures IndexAgrees(st, scope, digest, now, FakeVault.EMPTY, k)
    {
      assert !IndexLive(st, (scope, k.0, digest(k.1)), now);
    }
  }

  lemma LiveRecordsCounted(st: Store, scope: Scope, now: int, f: FakeVault.Session)
    requires forall id :: RecordAgrees(st, scope, now, f, id)
    ensures |LiveRecords(st, scope, now)| == LiveCount(f, now)
  {
    var live := set id | id in f.records && f.records[id].expiresAt > now;
    forall id
      ensures RecordKey(scope, id) in LiveRecords(st, scope, now) <==> id in live
    {
      assert RecordAgrees(st, scope, now, f, id);
      if RecordLive(st, (scope, id), now) {
        assert (scope, id) in st.records;
      }
    }
    assert LiveRecords(st, scope, now) == set id | id in live :: RecordKey(scope, id);
    KeysOf(scope, live);
  }

  lemma {:induction false} KeysOf(scope: Scope, ids: set<string>)
    ensures |set id | id in ids :: RecordKey(scope, id)| == |ids|
  {
    if ids != {} {
      var x :| x in ids;
      KeysOf(scope, ids - {x});
      assert (set id | id in ids :: RecordKey(scope, id))
          == (set id | id in ids - {x} :: RecordKey(scope, id)) + {RecordKey(scope, x)};
    }
  }

  lemma OthersStayInStep(v: Vaults, digest: Digester, prints: set<string>, scope: Scope, other: Scope)
    requires Simulates(v.store, other, digest, prints, v.now, FakeVault.SessionOf(v.sessions, other))
    requires other != scope
    ensures Simulates(Deleted(v.store, scope, v.now).0, other, digest, prints, v.now,
                      FakeVault.SessionOf(v.sessions - {scope}, other))
  {
    hide Simulates, Deleted, SameSession;
    DeletedIsolated(v.store, scope, v.now, other);
    SameSessionSimulates(v.store, Deleted(v.store, scope, v.now).0, other, digest, prints, v.now,
                         FakeVault.SessionOf(v.sessions, other));
  }

  lemma DeleteSteps(v: Vaults, digest: Digester, call: Call)
    requires call.Delete?
    ensures Step(v, digest, call) == Vaults(Deleted(v.store, call.scope, v.now).0, v.sessions - {call.scope}, v.now)
    ensures OnRedis(v, digest, call).1 == Count(Deleted(v.store, call.scope, v.now).1)
    ensures Expected(v, call) == Count(LiveCount(FakeVault.SessionOf(v.sessions, call.scope), v.now))
  {
    hide Deleted, LiveCount;
  }

  /** After a deletion the dictionaries hold nothing of the session, so the two are in step exactly when
      Redis listed every record it held. */
  lemma DeleteInStepIff(v: Vaults, digest: Digester, prints: set<string>, call: Call)
    requires call.Delete? && Bookkept(v.store, v.now) && InStep(v, digest, prints)
    ensures InStep(Step(v, digest, call), digest, prints) <==> RecordsListed(v.store, call.scope, v.now)
    ensures RecordsListed(v.store, call.scope, v.now) ==> OnRedis(v, digest, call).1 == Expected(v, call)
  {
    hide Simulates, Bookkept, Deleted, Listed, LiveRecords, NothingLive, RecordsListed, LiveCount, Step, Expected,
         OnRedis;
    var scope := call.scope;
    var f := FakeVault.SessionOf(v.sessions, scope);
    DeleteSteps(v, digest, call);
    if RecordsListed(v.store, scope, v.now) {
      RecordsListedIsListed(v.store, scope, v.now);
      ListedDeletes(v.store, scope, v.now);
      EmptySimulatesNothingLive(Deleted(v.store, scope, v.now).0, scope, digest, prints, v.now);
      SimulatesRecords(v.store, scope, digest, prints, v.now, f);
      LiveRecordsCounted(v.store, scope, v.now, f);
      forall other: Scope | other != scope
        ensures Simulates(Deleted(v.store, scope, v.now).0, other, digest, prints, v.now,
                          FakeVault.SessionOf(v.sessions - {scope}, other))
      {
        OthersStayInStep(v, digest, prints, scope, other);
      }
    } else {
      UnlistedOutOfStep(v.store, scope, digest, prints, v.now);
      assert FakeVault.SessionOf(v.sessions - {scope}, scope) == FakeVault.EMPTY;
    }
  }

  lemma SimulatesRecords(st: Store, scope: Scope, digest: Digester, prints: set<string>, now: int, f: FakeVault.Session)
    requires Simulates(st, scope, digest, prints, now, f)
    ensures forall id :: RecordAgrees(st, scope, now, f, id)
  {
  }

  lemma UnlistedOutOfStep(st: Store, scope: Scope, digest: Digester, prints: set<string>, now: int)
    requires !RecordsListed(st, scope, now)
    ensures !Simulates(Deleted(st, scope, now).0, scope, digest, prints, now, FakeVault.EMPTY)
  {
    hide IndexAgrees, Members;
    var id :| RecordLive(st, (scope, id), now) && RecordKey(scope, id) !in Members(st, scope, now);
    assert RecordLive(Deleted(st, scope, now).0, (scope, id), now);
    assert !RecordAgrees(Deleted(st, scope, now).0, scope, now, FakeVault.EMPTY, id);
  }

  lemma ElapseInStep(v: Vaults, digest: Digester, prints: set<string>, call: Call)
    requires call.Elapse? && v.now <= call.until && Sound(v) && InStep(v, digest, prints)
    ensures InStep(Step(v, digest, call), digest, prints)
  {
    hide Simulates, Consistent, Bookkept;
    forall scope: Scope
      ensures Simulates(v.store, scope, digest, prints, call.until, FakeVault.SessionOf(v.sessions, scope))
    {
      WaitSimulates(v.store, scope, digest, prints, v.now, call.until, FakeVault.SessionOf(v.sessions, scope));
    }
  }

  // ---------------------------------------------------------------------------
  // The store's own run
  // ---------------------------------------------------------------------------

  /** What a call does to Redis, if anything. */
  function AsOps(digest: Digester, call: Call): seq<VaultOp> {
    match call
    case Write(scope, entries, ttl, ids) =>
      if Accepts(entries, ttl) && entries != [] then
        [WriteBatch(scope, ttl, Candidates(scope, digest, Unique(entries), ids))]
      else []
    case Resolve(_, _) => []
    case Delete(scope) => [DeleteAll(scope)]
    case Elapse(until) => [Wait(until)]
  }

  lemma StepIsOp(v: Vaults, digest: Digester, prints: set<string>, call: Call)
    requires LegalCall(v, prints, call) && IsDigester(digest)
    ensures var ops := AsOps(digest, call);
            var after := Step(v, digest, call);
            if ops == [] then (after.store, after.now) == (v.store, v.now)
            else LegalOp(v.store, v.now, ops[0]) && Apply(v.store, v.now, ops[0]) == (after.store, after.now)
  {
    hide Script, Deleted, Unique, Candidates, IsDigester, LegalBatch, WellFormedReplies, Grammar.IsValidEntityType,
         Fresh, FakeUnused;
    if call.Write? && Accepts(call.entries, call.ttl) && call.entries != [] {
      FreshBatchIsLegal(v.store, call.scope, digest, call.entries, call.ttl, call.ids);
    }
  }

  lemma StepSound(v: Vaults, digest: Digester, prints: set<string>, call: Call)
    requires Sound(v) && LegalCall(v, prints, call) && IsDigester(digest)
    ensures Sound(Step(v, digest, call))
  {
    hide Consistent, Bookkept, Step, LegalCall, AsOps, LegalOp, Apply, IsDigester;
    StepIsOp(v, digest, prints, call);
    if AsOps(digest, call) != [] {
      OpKeepsInvariants(v.store, v.now, AsOps(digest, call)[0]);
    }
  }

  // ---------------------------------------------------------------------------
  // Whole runs
  // ---------------------------------------------------------------------------

  ghost predicate StaysInStep(v: Vaults, digest: Digester, prints: set<string>, calls: seq<Call>)
    decreases |calls|
  {
    InStep(v, digest, prints) && (calls == [] || StaysInStep(Step(v, digest, calls[0]), digest, prints, calls[1..]))
  }

  /** Redis answers every call as the dictionaries say it should. */
  ghost predicate AnswersAgree(v: Vaults, digest: Digester, calls: seq<Call>)
    decreases |calls|
  {
    calls == []
    || (OnRedis(v, digest, calls[0]).1 == Expected(v, calls[0])
        && AnswersAgree(Step(v, digest, calls[0]), digest, calls[1..]))
  }

  /** Whenever a session is deleted, its member set lists its live records. */
  ghost predicate DeletesListed(v: Vaults, digest: Digester, calls: seq<Call>)
    decreases |calls|
  {
    calls == []
    || ((calls[0].Delete? ==> RecordsListed(v.store, calls[0].scope, v.now))
        && DeletesListed(Step(v, digest, calls[0]), digest, calls[1..]))
  }

  lemma CallInStepIff(v: Vaults, digest: Digester, prints: set<string>, call: Call)
    requires Sound(v) && InStep(v, digest, prints) && LegalCall(v, prints, call)
    requires IsDigester(digest) && Separates(digest, prints)
    ensures InStep(Step(v, digest, call), digest, prints)
       <==> (call.Delete? ==> RecordsListed(v.store, call.scope, v.now))
    ensures InStep(Step(v, digest, call), digest, prints) ==> OnRedis(v, digest, call).1 == Expected(v, call)
  {
    hide Consistent, Bookkept, InStep, IsDigester, Separates, RecordsListed, Step;
    match call
    case Write(_, _, _, _) => WriteInStep(v, digest, prints, call);
    case Resolve(_, _) => ResolveInStep(v, digest, prints, call);
    case Delete(_) => DeleteInStepIff(v, digest, prints, call);
    case Elapse(_) => ElapseInStep(v, digest, prints, call);
  }

  /** Over any run of writes, resolutions, deletions and waits on any sessions, the two vaults stay in
      step exactly when every deletion finds its session's live records listed, and while they do Redis
      gives the answers the dictionaries give. */
  lemma {:induction false} RunInStepIff(v: Vaults, digest: Digester, prints: set<string>, calls: seq<Call>)
    requires Sound(v) && InStep(v, digest, prints) && LegalCalls(v, digest, prints, calls)
    requires IsDigester(digest) && Separates(digest, prints)
    ensures StaysInStep(v, digest, prints, calls) <==> DeletesListed(v, digest, calls)
    ensures StaysInStep(v, digest, prints, calls) ==> AnswersAgree(v, digest, calls)
    decreases |calls|
  {
    hide Sound, InStep, IsDigester, Separates, RecordsListed, Step, LegalCall, OnRedis, Expected;
    if calls != [] {
      var after := Step(v, digest, calls[0]);
      CallInStepIff(v, digest, prints, calls[0]);
      StepSound(v, digest, prints, calls[0]);
      if InStep(after, digest, prints) {
        RunInStepIff(after, digest, prints, calls[1..]);
      } else {
        assert !StaysInStep(after, digest, prints, calls[1..]);
      }
    }
  }

  ghost predicate AllCovered(v: Vaults) {
    forall scope :: Covered(v.store, scope, v.now)
  }

  /** At every accepted write, the live keys it does not renew expire no later than its own. */
  ghost predicate WritesKeepUp(v: Vaults, digest: Digester, calls: seq<Call>)
    decreases |calls|
  {
    calls == []
    || ((forall op :: op in AsOps(digest, calls[0]) && op.WriteBatch? ==>
           OthersExpireBy(v.store, op.scope, v.now, op.entries, v.now + op.ttl))
        && WritesKeepUp(Step(v, digest, calls[0]), digest, calls[1..]))
  }

  lemma StepCovered(v: Vaults, digest: Digester, prints: set<string>, call: Call)
    requires AllCovered(v) && LegalCall(v, prints, call) && IsDigester(digest)
    requires forall op :: op in AsOps(digest, call) && op.WriteBatch? ==>
               OthersExpireBy(v.store, op.scope, v.now, op.entries, v.now + op.ttl)
    ensures AllCovered(Step(v, digest, call))
  {
    hide Covered, Step, LegalCall, AsOps, LegalOp, Apply, OthersExpireBy, IsDigester;
    StepIsOp(v, digest, prints, call);
    var ops, after := AsOps(digest, call), Step(v, digest, call);
    if ops != [] {
      assert ops[0] in ops;
      forall scope
        ensures Covered(after.store, scope, after.now)
      {
        OpKeepsCoveredIff(v.store, v.now, ops[0], scope);
      }
    }
  }

  lemma CoveredRecordsListed(st: Store, scope: Scope, now: int)
    requires Covered(st, scope, now)
    ensures RecordsListed(st, scope, now)
  {
  }

  lemma {:induction false} CoveredDeletesListed(v: Vaults, digest: Digester, prints: set<string>, calls: seq<Call>)
    requires AllCovered(v) && LegalCalls(v, digest, prints, calls) && WritesKeepUp(v, digest, calls)
    requires IsDigester(digest)
    ensures DeletesListed(v, digest, calls)
    decreases |calls|
  {
    hide Covered, Step, LegalCall, AsOps, OthersExpireBy, IsDigester, RecordsListed;
    if calls != [] {
      StepCovered(v, digest, prints, calls[0]);
      if calls[0].Delete? {
        CoveredRecordsListed(v.store, calls[0].scope, v.now);
      }
      CoveredDeletesListed(Step(v, digest, calls[0]), digest, prints, calls[1..]);
    }
  }

  lemma EmptyVaults(digest: Digester, prints: set<string>, now: int)
    ensures var v := Vaults(Store(map[], map[], map[]), map[], now);
            Sound(v) && InStep(v, digest, prints) && AllCovered(v)
  {
    hide Simulates;
    var v := Vaults(Store(map[], map[], map[]), map[], now);
    forall scope: Scope
      ensures Simulates(v.store, scope, digest, prints, now, FakeVault.SessionOf(v.sessions, scope))
    {
      EmptySimulatesNothingLive(v.store, scope, digest, prints, now);
    }
  }

  /** From empty, the in-memory vault stands in for Redis in every run whose writes keep up. */
  lemma VaultsAgree(digest: Digester, prints: set<string>, now: int, calls: seq<Call>)
    requires IsDigester(digest) && Separates(digest, prints)
    requires LegalCalls(Vaults(Store(map[], map[], map[]), map[], now), digest, prints, calls)
    requires WritesKeepUp(Vaults(Store(map[], map[], map[]), map[], now), digest, calls)
    ensures StaysInStep(Vaults(Store(map[], map[], map[]), map[], now), digest, prints, calls)
    ensures AnswersAgree(Vaults(Store(map[], map[], map[]), map[], now), digest, calls)
  {
    hide IsDigester, Separates, LegalCalls, WritesKeepUp, StaysInStep, AnswersAgree, Sound, InStep, AllCovered;
    var v := Vaults(Store(map[], map[], map[]), map[], now);
    EmptyVaults(digest, prints, now);
    CoveredDeletesListed(v, digest, prints, calls);
    RunInStepIff(v, digest, prints, calls);
  }
}
