/** When protecting and restoring gives back exactly the message that went in. */
module Lossless {
  import opened Wrappers
  import opened Domain
  import opened VaultKeys
  import opened RedisStore
  import opened VaultLaws
  import opened RedisVault
  import opened VaultBookkeeping
  import opened VaultRefinement
  import opened Splicing
  import opened Tokenizer
  import opened Restoration
  import opened Protection
  import opened Resolving
  import opened RoundTrip
  import Selection
  import Grammar = TokenGrammar

  // ---------------------------------------------------------------------------
  // Which calls succeed
  // ---------------------------------------------------------------------------

  /** Every redacted span has a type the grammar can print. */
  predicate RedactionsPrint(plan: seq<Planned>) {
    forall i :: 0 <= i < |plan| && plan[i].action == Redact ==> Grammar.IsValidEntityType(plan[i].entity.entityType)
  }

  lemma {:induction false} CutsExistIff(surrogate: Surrogate, text: string, plan: seq<Planned>,
                                        mappings: seq<EntityMapping>, i: nat)
    requires i <= |plan| && !HasBlock(plan) && |mappings| == Rank(plan, |plan|)
    ensures CutsFrom(surrogate, text, plan, mappings, i).Some? <==>
            forall j :: i <= j < |plan| && plan[j].action == Redact ==>
              Grammar.IsValidEntityType(plan[j].entity.entityType)
    decreases |plan| - i
  {
    hide Grammar.IsValidEntityType, Rank;
    if i < |plan| {
      CutsExistIff(surrogate, text, plan, mappings, i + 1);
      RankGrows(plan, i + 1, |plan|);
      RankStep(plan, i);
    }
  }

  /** On a consistent store with fresh ids, a batch the vault's checks accept is answered with tokens
      of the types asked for. */
  lemma AcceptedIsAnswered(st: Store, scope: Scope, digest: Digester, now: int, entries: seq<VaultWriteRequest>,
                           ttl: int, ids: seq<TokenId>)
    requires |entries| <= |ids| && entries != []
    requires Consistent(st) && IsDigester(digest) && Fresh(st, scope, ids)
    ensures var tokens := Written(st, scope, digest, now, entries, ttl, ids).1;
            (tokens.Ok? <==> Accepts(entries, ttl)) && (tokens.Ok? ==> AllCoerce(entries, tokens.value))
  {
    hide Consistent, IsDigester, Fresh, Fold, Unique, LegalBatch, WellFormedReplies, Grammar.ParseToken,
         Grammar.Bracket, Grammar.IsValidTokenId, Grammar.IsValidEntityType, ExpireMeta;
    if Accepts(entries, ttl) {
      FreshBatchIsLegal(st, scope, digest, entries, ttl, ids);
      RepliesAreTokenIds(st, scope, now, ttl, Candidates(scope, digest, Unique(entries), ids));
      var tokens := Written(st, scope, digest, now, entries, ttl, ids).1.value;
      forall i | 0 <= i < |entries|
        ensures CoerceVaultToken(tokens[i], entries[i].entityType).Ok?
      {
        WrittenToken(st, scope, digest, now, entries, ttl, ids, i);
      }
    }
  }

  predicate OutsideText(c: Call) {
    exists i :: 0 <= i < |c.entities| && c.entities[i].end > |c.text|
  }

  predicate AsksBlocked(c: Call) {
    exists i :: 0 <= i < |Plan(c)| && Plan(c)[i].action == Block
  }

  /** What the vault checks of a message's entries: the TTL, their number, their types and fingerprints. */
  predicate VaultTakes(c: Call) {
    && 1 <= c.policy.sessionTtlSeconds <= 7200 && |Asked(c)| <= 10_000
    && forall i :: 0 <= i < |Asked(c)| ==>
         Grammar.IsValidEntityType(Asked(c)[i].entityType) && Asked(c)[i].normalizedHmac != ""
  }

  /** What is checked before and while a message is protected. */
  predicate Passes(c: Call) {
    && !OutsideText(c) && |Plan(c)| <= c.policy.maxEntities && !AsksBlocked(c)
    && (Asked(c) != [] ==> VaultTakes(c))
    && RedactionsPrint(Plan(c))
  }

  lemma ChecksAre(c: Call)
    ensures Selection.Selected(c.text, c.entities, c.policy).Ok? <==> !OutsideText(c)
    ensures Selection.Selected(c.text, c.entities, c.policy).Err? ==>
              Selection.Selected(c.text, c.entities, c.policy) == Err(InvalidRequest)
    ensures HasBlock(Plan(c)) <==> AsksBlocked(c)
    ensures Accepts(Asked(c), c.policy.sessionTtlSeconds) <==> VaultTakes(c)
  {
    hide Plan, Asked, Grammar.IsValidEntityType;
    Selection.RefusedIffOutside(c.text, c.entities, c.policy);
  }

  /** How protecting a message ends. A span outside the text, more spans than the policy allows, or a span of a
      blocked type is refused with the vault untouched, and so are entries the vault does not take; a
      redacted type that cannot be printed fails; and nothing else does, for the vault never answers with
      anything the tokenizer would have to reject. */
  lemma OutcomeExact(c: Call)
    requires |c.entities| <= |c.ids|
    requires Consistent(c.store) && IsDigester(c.digest) && Fresh(c.store, c.scope, c.ids)
    ensures if OutsideText(c) then Outcome(c) == (c.store, Err(InvalidRequest))
            else if |Plan(c)| > c.policy.maxEntities then Outcome(c) == (c.store, Err(EntityLimitExceeded))
            else if AsksBlocked(c) then Outcome(c) == (c.store, Err(PolicyViolation))
            else if Asked(c) != [] && !VaultTakes(c) then Outcome(c) == (c.store, Err(ValueError))
            else if !RedactionsPrint(Plan(c)) then Outcome(c).1 == Err(ValueError)
            else Outcome(c).1.Ok?
  {
    hide Consistent, IsDigester, Fresh, Requests, Written, AllCoerce, Mappings, Accepts, CutsFrom, PlanFits, HasBlock,
         Splice, RedactionsPrint, SummaryOf, MappingsFrom, Selection.Selected, OutsideText, AsksBlocked, VaultTakes;
    ChecksAre(c);
    if !OutsideText(c) {
      PlanOfSelectedFits(c.text, c.entities, c.policy);
      var plan := Plan(c);
      var ttl := c.policy.sessionTtlSeconds;
      RequestCount(c.fp, c.scope, c.text, plan);
      if |plan| <= c.policy.maxEntities && !HasBlock(plan) {
        if Asked(c) == [] {
          CutsExist(c.surrogate, c.text, plan, []);
        } else {
          AcceptedIsAnswered(c.store, c.scope, c.digest, c.now, Asked(c), ttl, c.ids);
          var tokens := Written(c.store, c.scope, c.digest, c.now, Asked(c), ttl, c.ids).1;
          if tokens.Ok? {
            CutsExist(c.surrogate, c.text, plan, Mappings(Asked(c), tokens.value));
          } else {
            RefusedWritesNothing(c.store, c.scope, c.digest, c.now, Asked(c), ttl, c.ids);
          }
        }
      }
    }
  }

  lemma SucceedsIff(c: Call)
    requires |c.entities| <= |c.ids|
    requires Consistent(c.store) && IsDigester(c.digest) && Fresh(c.store, c.scope, c.ids)
    ensures Outcome(c).1.Ok? <==> Passes(c)
  {
    hide Consistent, IsDigester, Fresh, Outcome, OutsideText, AsksBlocked, VaultTakes, RedactionsPrint, Plan, Asked;
    OutcomeExact(c);
  }

  lemma CutsExist(surrogate: Surrogate, text: string, plan: seq<Planned>, mappings: seq<EntityMapping>)
    requires !HasBlock(plan) && |mappings| == Rank(plan, |plan|)
    ensures CutsFrom(surrogate, text, plan, mappings, 0).Some? <==> RedactionsPrint(plan)
  {
    hide CutsFrom, Grammar.IsValidEntityType;
    CutsExistIff(surrogate, text, plan, mappings, 0);
  }

  // ---------------------------------------------------------------------------
  // Every value under its own fingerprint
  // ---------------------------------------------------------------------------

  function PrintOf(fp: Fingerprinter, digest: Digester, scope: Scope, entityType: string, original: string): string {
    digest(fp.hmac(scope.tenantId, scope.sessionId, entityType, fp.normalize(entityType, original)))
  }

  /** The session's live values are not empty, and are stored under the fingerprints they have. */
  ghost predicate OwnPrints(st: Store, scope: Scope, digest: Digester, fp: Fingerprinter, now: int) {
    forall t, d :: StoredValue(st, (scope, t, d), now).Some? ==>
      OwnPrint(fp, digest, scope, t, d, StoredValue(st, (scope, t, d), now).value)
  }

  predicate OwnPrint(fp: Fingerprinter, digest: Digester, scope: Scope, t: string, d: string, value: string) {
    value != "" && PrintOf(fp, digest, scope, t, value) == d
  }

  ghost predicate Printed(scope: Scope, digest: Digester, fp: Fingerprinter, entries: seq<VaultWriteRequest>) {
    forall i :: 0 <= i < |entries| ==>
      OwnPrint(fp, digest, scope, entries[i].entityType, digest(entries[i].normalizedHmac), entries[i].originalValue)
  }

  lemma {:induction false} RequestsPrinted(fp: Fingerprinter, digest: Digester, scope: Scope, text: string,
                                           plan: seq<Planned>)
    requires PlanFits(plan, |text|)
    ensures Printed(scope, digest, fp, Requests(fp, scope, text, plan))
  {
    if plan != [] {
      RequestsPrinted(fp, digest, scope, text, plan[..|plan| - 1]);
    }
  }

  lemma FirstOriginalPrinted(scope: Scope, digest: Digester, fp: Fingerprinter, entries: seq<VaultWriteRequest>,
                             k: IndexName)
    requires Printed(scope, digest, fp, entries) && FirstOriginal(scope, digest, entries, k).Some?
    ensures OwnPrint(fp, digest, scope, k.1, k.2, FirstOriginal(scope, digest, entries, k).value)
  {
    var i := FirstOriginalIsOne(scope, digest, entries, k);
  }

  /** Protecting a message, whether or not it succeeds, keeps every value under its own fingerprint. */
  lemma ProtectKeepsOwnPrints(c: Call)
    requires |c.entities| <= |c.ids| && IsDigester(c.digest) && Fresh(c.store, c.scope, c.ids)
    requires Consistent(c.store) && OwnPrints(c.store, c.scope, c.digest, c.fp, c.now)
    ensures OwnPrints(Outcome(c).0, c.scope, c.digest, c.fp, c.now)
  {
    hide Consistent, IsDigester, Fresh, OwnPrints, Requests, Written, AllCoerce, Mappings, Spliced, HasBlock, PlanFits,
         Selection.Selected;
    if Outcome(c).0 != c.store {
      PlanOfSelectedFits(c.text, c.entities, c.policy);
      RequestsPrinted(c.fp, c.digest, c.scope, c.text, Plan(c));
      WriteKeepsOwnPrints(c.store, c.scope, c.digest, c.fp, c.now, Asked(c), c.policy.sessionTtlSeconds, c.ids);
    }
  }

  lemma WriteKeepsOwnPrints(st: Store, scope: Scope, digest: Digester, fp: Fingerprinter, now: int,
                            entries: seq<VaultWriteRequest>, ttl: int, ids: seq<TokenId>)
    requires |entries| <= |ids| && entries != [] && IsDigester(digest) && Fresh(st, scope, ids) && Consistent(st)
    requires OwnPrints(st, scope, digest, fp, now) && Printed(scope, digest, fp, entries)
    ensures OwnPrints(Written(st, scope, digest, now, entries, ttl, ids).0, scope, digest, fp, now)
  {
    hide Consistent, IsDigester, Fresh, Printed, Written, StoredValue, FirstOriginal, OwnPrint, Accepts;
    AcceptedIsAnswered(st, scope, digest, now, entries, ttl, ids);
    var after := Written(st, scope, digest, now, entries, ttl, ids).0;
    if Accepts(entries, ttl) {
      WrittenIsFold(st, scope, digest, now, entries, ttl, ids);
      forall t, d | StoredValue(after, (scope, t, d), now).Some?
        ensures OwnPrint(fp, digest, scope, t, d, StoredValue(after, (scope, t, d), now).value)
      {
        WrittenStores(st, scope, digest, now, entries, ttl, ids, (scope, t, d));
        if StoredValue(st, (scope, t, d), now).None? {
          FirstOriginalPrinted(scope, digest, fp, entries, (scope, t, d));
        }
      }
    } else {
      RefusedWritesNothing(st, scope, digest, now, entries, ttl, ids);
    }
  }

  lemma RefusedWritesNothing(st: Store, scope: Scope, digest: Digester, now: int,
                             entries: seq<VaultWriteRequest>, ttl: int, ids: seq<TokenId>)
    requires |entries| <= |ids| && !Accepts(entries, ttl)
    ensures Written(st, scope, digest, now, entries, ttl, ids) == (st, Err(ValueError))
  {
  }

  /** After a write each key stands for the first value the session stored for it. */
  lemma WrittenStores(st: Store, scope: Scope, digest: Digester, now: int, entries: seq<VaultWriteRequest>,
                      ttl: int, ids: seq<TokenId>, k: IndexName)
    requires |entries| <= |ids| && entries != [] && IsDigester(digest) && Fresh(st, scope, ids)
    requires Written(st, scope, digest, now, entries, ttl, ids).1.Ok?
    ensures StoredValue(Written(st, scope, digest, now, entries, ttl, ids).0, k, now)
         == StandsFor(st, scope, digest, now, entries, k)
  {
    hide Fold, LegalBatch, Fresh, IsDigester, Unique, Written, FirstValue, FirstOriginal;
    WrittenIsFold(st, scope, digest, now, entries, ttl, ids);
    var offered := Candidates(scope, digest, Unique(entries), ids);
    FoldStores(st, scope, now, ttl, offered, k);
    FirstOfUnique(scope, digest, entries, ids, k);
    SameStored(Fold(st, scope, now, ttl, offered).0, Written(st, scope, digest, now, entries, ttl, ids).0, k, now);
  }

  lemma SameStored(a: Store, b: Store, k: IndexName, now: int)
    requires a.records == b.records && a.index == b.index
    ensures StoredValue(a, k, now) == StoredValue(b, k, now)
  {
  }

  /** Time and deletion only remove values. */
  lemma LossKeepsOwnPrints(st: Store, scope: Scope, digest: Digester, fp: Fingerprinter, now: int, later: int,
                           other: Scope)
    requires OwnPrints(st, scope, digest, fp, now) && now <= later
    ensures OwnPrints(st, scope, digest, fp, later)
    ensures OwnPrints(Deleted(st, other, now).0, scope, digest, fp, now)
  {
    hide OwnPrint;
    forall t, d | StoredValue(st, (scope, t, d), later).Some?
      ensures OwnPrint(fp, digest, scope, t, d, StoredValue(st, (scope, t, d), later).value)
    {
      assert StoredValue(st, (scope, t, d), now) == StoredValue(st, (scope, t, d), later);
    }
    var after := Deleted(st, other, now).0;
    forall t, d | StoredValue(after, (scope, t, d), now).Some?
      ensures OwnPrint(fp, digest, scope, t, d, StoredValue(after, (scope, t, d), now).value)
    {
      assert StoredValue(st, (scope, t, d), now) == StoredValue(after, (scope, t, d), now);
    }
  }

  // ---------------------------------------------------------------------------
  // One message: every span comes back as itself exactly when each key has one value
  // ---------------------------------------------------------------------------

  /** The policy can put tokens in the place of values of this type. */
  predicate Tokenised(policy: Policy, t: string) {
    Grammar.IsValidEntityType(t) && policy.actionFor(t) == Tokenize && policy.minScoreFor(t) <= 1.0
  }

  predicate SharePrint(c: Call, t: string, v: string, w: string) {
    v != "" && w != "" && PrintOf(c.fp, c.digest, c.scope, t, v) == PrintOf(c.fp, c.digest, c.scope, t, w)
  }

  /** Requests of this message that name one key have one value, and a value the session already
      stored under that key is the same one. */
  predicate OneValuePerKey(c: Call) {
    var asked := Asked(c);
    && (forall i, j | 0 <= i < |asked| && 0 <= j < |asked| ::
          KeyOf(c.scope, c.digest, asked[i]) == KeyOf(c.scope, c.digest, asked[j]) ==>
            asked[i].originalValue == asked[j].originalValue)
    && (forall i :: 0 <= i < |asked| && StoredValue(c.store, KeyOf(c.scope, c.digest, asked[i]), c.now).Some? ==>
          StoredValue(c.store, KeyOf(c.scope, c.digest, asked[i]), c.now).value == asked[i].originalValue)
  }

  /** A message that is protected by tokens alone. */
  predicate TokensOnly(c: Call) {
    Passes(c) && forall i :: 0 <= i < |Plan(c)| ==> Plan(c)[i].action == Tokenize || Plan(c)[i].action == Allow
  }

  lemma TokensOnlyFits(c: Call)
    requires TokensOnly(c)
    ensures PlanFits(Plan(c), |c.text|) && NoPseudonyms(Plan(c))
  {
    hide Selection.Confident, Selection.Sweep, VaultTakes, Requests;
    ChecksAre(c);
    PlanOfSelectedFits(c.text, c.entities, c.policy);
  }

  lemma PlannedType(c: Call, i: nat)
    requires TokensOnly(c) && i < |Plan(c)| && Plan(c)[i].action == Tokenize
    ensures Tokenised(c.policy, Plan(c)[i].entity.entityType) && Original(c.text, Plan(c)[i]) != ""
  {
    hide Selection.Selected, Requests, Rank, Grammar.IsValidEntityType, Selection.InBounds, PlanFits;
    TokensOnlyFits(c);
    OriginalNotEmpty(c.text, Plan(c), i);
    Selection.SelectedIsUsable(c.text, c.entities, c.policy);
    assert Plan(c)[i].entity in Selection.Selected(c.text, c.entities, c.policy).value;
    RequestAt(c.fp, c.scope, c.text, Plan(c), i);
    RequestType(c.fp, c.scope, c.text, Plan(c)[i]);
  }

  lemma OriginalNotEmpty(text: string, plan: seq<Planned>, i: nat)
    requires PlanFits(plan, |text|) && i < |plan|
    ensures Original(text, plan[i]) != ""
  {
  }

  /** Each request stands for its own value exactly when each key has one value. */
  lemma StandForThemselvesIff(c: Call)
    ensures OneValuePerKey(c) <==>
            forall i :: 0 <= i < |Asked(c)| ==>
              StandsFor(c.store, c.scope, c.digest, c.now, Asked(c), KeyOf(c.scope, c.digest, Asked(c)[i]))
              == Some(Asked(c)[i].originalValue)
  {
    hide Asked, StoredValue, FirstOriginal, KeyOf;
    var asked := Asked(c);
    forall i | 0 <= i < |asked|
      ensures exists j :: 0 <= j < |asked| && KeyOf(c.scope, c.digest, asked[j]) == KeyOf(c.scope, c.digest, asked[i])
                          && FirstOriginal(c.scope, c.digest, asked, KeyOf(c.scope, c.digest, asked[i]))
                             == Some(asked[j].originalValue)
    {
      FirstOriginalFound(c.scope, c.digest, asked, i);
      var j := FirstOriginalIsOne(c.scope, c.digest, asked, KeyOf(c.scope, c.digest, asked[i]));
    }
  }

  lemma SpanIsRequest(c: Call, i: nat)
    requires TokensOnly(c) && i < |Plan(c)| && Plan(c)[i].action == Tokenize
    ensures Rank(Plan(c), i) < |Asked(c)|
    ensures Asked(c)[Rank(Plan(c), i)] == RequestFor(c.fp, c.scope, c.text, Plan(c)[i])
    ensures Asked(c)[Rank(Plan(c), i)].originalValue == Original(c.text, Plan(c)[i])
    ensures KeyOf(c.scope, c.digest, Asked(c)[Rank(Plan(c), i)]) == SpanKey(c, Plan(c)[i])
  {
    hide Plan, Requests, Rank, TokensOnly;
    RequestAt(c.fp, c.scope, c.text, Plan(c), i);
  }

  /** Every span that got a token has its own text to come back to. */
  ghost predicate SpansReturn(c: Call) {
    forall i :: 0 <= i < |Plan(c)| && Plan(c)[i].action == Tokenize ==>
      FirstStored(c, Plan(c)[i]) == Some(Original(c.text, Plan(c)[i]))
  }

  /** Which requests there are: one for each span that gets a token. */
  lemma RequestIsSpan(c: Call, k: nat) returns (i: nat)
    requires TokensOnly(c) && k < |Asked(c)|
    ensures i < |Plan(c)| && Plan(c)[i].action == Tokenize && Rank(Plan(c), i) == k
  {
    hide Plan, Requests, RequestFor;
    RequestCount(c.fp, c.scope, c.text, Plan(c));
    i := RankHits(Plan(c), k, |Plan(c)|);
  }

  lemma {:induction false} RankHits(plan: seq<Planned>, k: nat, n: nat) returns (i: nat)
    requires n <= |plan| && k < Rank(plan, n)
    ensures i < n && NeedsMapping(plan[i].action) && Rank(plan, i) == k
    decreases n
  {
    hide NeedsMapping;
    if k < Rank(plan, n - 1) {
      i := RankHits(plan, k, n - 1);
    } else {
      i := n - 1;
    }
  }

  /** Every span of a message protected by tokens alone comes back as itself exactly when each of its
      keys has one value, in the message and in what the session already stored. */
  lemma SpansReturnIff(c: Call)
    requires TokensOnly(c)
    ensures SpansReturn(c) <==> OneValuePerKey(c)
  {
    hide Plan, Asked, StandsFor, KeyOf, Original, TokensOnly, OneValuePerKey, Rank, RequestFor;
    StandForThemselvesIff(c);
    if OneValuePerKey(c) {
      forall i | 0 <= i < |Plan(c)| && Plan(c)[i].action == Tokenize
        ensures FirstStored(c, Plan(c)[i]) == Some(Original(c.text, Plan(c)[i]))
      {
        SpanIsRequest(c, i);
      }
    }
    if SpansReturn(c) {
      forall k | 0 <= k < |Asked(c)|
        ensures StandsFor(c.store, c.scope, c.digest, c.now, Asked(c), KeyOf(c.scope, c.digest, Asked(c)[k]))
             == Some(Asked(c)[k].originalValue)
      {
        var i := RequestIsSpan(c, k);
        SpanIsRequest(c, i);
      }
    }
  }

  ghost predicate CutsOfItself(text: string, cuts: seq<Cut>) {
    forall i :: 0 <= i < |cuts| ==>
      cuts[i].start <= cuts[i].end <= |text| && cuts[i].replacement == text[cuts[i].start..cuts[i].end]
  }

  lemma {:induction false} SpliceOfItself(text: string, cuts: seq<Cut>, cursor: nat)
    requires Fits(cuts, cursor, |text|) && CutsOfItself(text, cuts)
    ensures Splice(text, cuts, cursor) == text[cursor..]
  {
    if cuts != [] {
      FitsWithin(cuts, cursor, |text|);
      assert forall i :: 0 <= i < |cuts| - 1 ==> cuts[1..][i] == cuts[i + 1];
      SpliceOfItself(text, cuts[1..], cuts[0].end);
    }
  }

  lemma {:induction false} ReturnsItself(c: Call, i: nat)
    requires i <= |Plan(c)| && TokensOnly(c) && PlanFits(Plan(c), |c.text|) && SpansReturn(c)
    ensures CutsOfItself(c.text, ReturnCuts(c, Plan(c), i))
    decreases |Plan(c)| - i
  {
    hide Plan, FirstStored, ReturnCuts, Passes;
    if i == |Plan(c)| {
      NothingReturns(c, Plan(c));
    } else {
      ReturnsItself(c, i + 1);
      ReturnCutsStep(c, Plan(c), i);
    }
  }

  /** When each key has one value, what should come back is the message itself. */
  lemma ReturnedIsOriginal(c: Call)
    requires TokensOnly(c) && PlanFits(Plan(c), |c.text|) && OneValuePerKey(c)
    ensures Returned(c) == c.text
  {
    hide Plan, FirstStored, OneValuePerKey, ReturnCuts, TokensOnly, PlanFits, CutsOfItself, SpansReturn;
    SpansReturnIff(c);
    ReturnsItself(c, 0);
    SpanCutsFit(Plan(c), |c.text|, 0);
    ReturnCutsSpans(c, Plan(c), 0);
    SameGaps(c.text, SpanCuts(Plan(c), 0), ReturnCuts(c, Plan(c), 0), 0);
    SpliceOfItself(c.text, ReturnCuts(c, Plan(c), 0), 0);
    assert c.text[0..] == c.text;
  }

  /** So restoring gives back the message, character for character. */
  lemma RestoresOriginal(c: Call, after: Store, out: TransformedText, ops: seq<VaultOp>,
                         limit: nat, isBlank: string -> bool, model: string, action: UnknownTokenAction)
    requires Succeeds(c, after, out) && TokensOnly(c) && PlanFits(Plan(c), |c.text|)
    requires Consistent(c.store) && IsDigester(c.digest) && Fresh(c.store, c.scope, c.ids)
    requires OneValuePerKey(c)
    requires LegalRun(after, c.now, ops) && Undisturbed(c.now, ops, c.scope, c.now + c.policy.sessionTtlSeconds)
    requires Run(after, c.now, ops).1 < c.now + c.policy.sessionTtlSeconds
    requires |out.text| <= limit && !isBlank(model)
    requires AllQuiet(Run(after, c.now, ops).0, c.scope, Run(after, c.now, ops).1, action, Untouched(c.text, Plan(c)))
    ensures var (st, later) := Run(after, c.now, ops);
            var r := Restored(st, c.scope, later, limit, isBlank, ProviderResponse(out.text, model), action);
            r.Ok? && r.value.text == c.text
  {
    hide Plan, Passes, Succeeds, PlanFits, AllQuiet, Consistent, IsDigester, Fresh, Run, LegalRun, Undisturbed,
         Restored, OneValuePerKey, Returned, Untouched;
    TokensOnlyFits(c);
    ProtectThenRestore(c, after, out, ops, limit, isBlank, model, action);
    ReturnedIsOriginal(c);
  }

  // ---------------------------------------------------------------------------
  // All messages over a set of values: two that share a fingerprint
  // ---------------------------------------------------------------------------

  function Spanning(t: string, start: nat, end: nat): Entity
    requires start < end
  {
    DetectedEntity(t, start, end, 1.0, None)
  }

  /** The same session and policy, another message. */
  function Message(base: Call, text: string, entities: seq<Entity>): Call {
    base.(text := text, entities := entities)
  }

  /** What any deployment guarantees: a valid TTL, room for two entities, and a hash that is not empty. */
  ghost predicate Configured(c: Call) {
    && MIN_TTL_SECONDS <= c.policy.sessionTtlSeconds <= MAX_TTL_SECONDS
    && c.policy.maxEntities >= 2
    && forall t, v :: Fingerprint(c.fp, c.scope, t, v) != ""
  }

  lemma PlanOfAscending(c: Call, t: string)
    requires Ascending(c.entities) && Selection.InBounds(c.text, c.entities) && Tokenised(c.policy, t)
    requires forall i :: 0 <= i < |c.entities| ==> c.entities[i].entityType == t && c.entities[i].score == 1.0
    ensures |Plan(c)| == |c.entities|
    ensures forall i :: 0 <= i < |Plan(c)| ==> Plan(c)[i] == Planned(c.entities[i], Tokenize)
  {
    hide Selection.Selected, Selection.Confident, Ascending, Grammar.IsValidEntityType;
    Selection.SelectionAgreesOnAscending(c.text, c.entities, c.policy);
    ConfidentAll(c.entities, c.policy);
  }

  lemma {:induction false} ConfidentAll(entities: seq<Entity>, policy: Policy)
    requires forall i :: 0 <= i < |entities| ==> entities[i].score >= policy.minScoreFor(entities[i].entityType)
    ensures Selection.Confident(entities, policy) == entities
  {
    if entities != [] {
      ConfidentAll(entities[1..], policy);
    }
  }

  /** A message that is one value comes back as the value its fingerprint already stands for. */
  lemma OneValue(base: Call, t: string, v: string, u: string)
    requires Configured(base) && Tokenised(base.policy, t) && v != ""
    requires StoredValue(base.store, (base.scope, t, PrintOf(base.fp, base.digest, base.scope, t, v)), base.now)
          == Some(u)
    ensures var c := Message(base, v, [Spanning(t, 0, |v|)]);
            TokensOnly(c) && PlanFits(Plan(c), |c.text|) && Returned(c) == u
  {
    hide Plan, StoredValue, Grammar.IsValidEntityType;
    var c := Message(base, v, [Spanning(t, 0, |v|)]);
    PlanOfAscending(c, t);
    var p := Plan(c)[0];
    assert Plan(c)[..0] == [] && Plan(c) == [p];
    assert Requests(c.fp, c.scope, c.text, []) == [];
    assert Asked(c) == [RequestFor(c.fp, c.scope, c.text, p)];
    assert Original(v, p) == v;
    assert TokensOnly(c);
    TokensOnlyFits(c);
    ReturnCutsStep(c, Plan(c), 0);
    assert ReturnCuts(c, Plan(c), 1) == [];
    assert ReturnCuts(c, Plan(c), 0) == [Cut(0, |v|, u)];
    SpliceHead(v, [Cut(0, |v|, u)], 0);
    SpliceNil(v, |v|);
  }

  /** A message of two values with one fingerprint comes back as the first, twice. */
  lemma TwoValues(base: Call, t: string, v: string, w: string)
    requires Configured(base) && Tokenised(base.policy, t) && SharePrint(base, t, v, w)
    requires StoredValue(base.store, (base.scope, t, PrintOf(base.fp, base.digest, base.scope, t, v)), base.now).None?
    ensures var c := Message(base, v + w, [Spanning(t, 0, |v|), Spanning(t, |v|, |v| + |w|)]);
            TokensOnly(c) && PlanFits(Plan(c), |c.text|) && Returned(c) == v + v
  {
    hide Plan, StoredValue, Grammar.IsValidEntityType, FirstStored, FirstOriginal, StandsFor;
    var text := v + w;
    var c := Message(base, text, [Spanning(t, 0, |v|), Spanning(t, |v|, |text|)]);
    PlanOfAscending(c, t);
    var p, q := Plan(c)[0], Plan(c)[1];
    TwoRequests(c, p, q);
    assert Original(text, p) == v && Original(text, q) == w;
    assert TokensOnly(c);
    TokensOnlyFits(c);
    TwoStand(c, p, q, v, w);
    ReturnCutsStep(c, Plan(c), 0);
    ReturnCutsStep(c, Plan(c), 1);
    NothingReturns(c, Plan(c));
    var first, second := Cut(0, |v|, v), Cut(|v|, |text|, v);
    assert ReturnCuts(c, Plan(c), 0) == [first] + [second];
    SpliceHere(text, first, [second]);
    SpliceHere(text, second, []);
    SpliceNil(text, |text|);
  }

  lemma TwoRequests(c: Call, p: Planned, q: Planned)
    requires Plan(c) == [p, q] && p.action == Tokenize && q.action == Tokenize
    ensures Asked(c) == [RequestFor(c.fp, c.scope, c.text, p), RequestFor(c.fp, c.scope, c.text, q)]
  {
    hide Plan, RequestFor;
    assert [p, q][..1] == [p] && [p][..0] == [];
    assert Requests(c.fp, c.scope, c.text, []) == [];
    assert Requests(c.fp, c.scope, c.text, [p]) == [RequestFor(c.fp, c.scope, c.text, p)];
  }

  lemma TwoStand(c: Call, p: Planned, q: Planned, v: string, w: string)
    requires Asked(c) == [RequestFor(c.fp, c.scope, c.text, p), RequestFor(c.fp, c.scope, c.text, q)]
    requires p.entity.entityType == q.entity.entityType && Original(c.text, p) == v && Original(c.text, q) == w
    requires SharePrint(c, p.entity.entityType, v, w) && StoredValue(c.store, SpanKey(c, p), c.now).None?
    ensures FirstStored(c, p) == Some(v) && FirstStored(c, q) == Some(v)
  {
    hide Asked, StoredValue, FirstOriginal;
    FirstOfTwo(c.scope, c.digest, RequestFor(c.fp, c.scope, c.text, p), RequestFor(c.fp, c.scope, c.text, q));
    assert SpanKey(c, p) == SpanKey(c, q);
  }

  lemma FirstOfTwo(scope: Scope, digest: Digester, a: VaultWriteRequest, b: VaultWriteRequest)
    ensures FirstOriginal(scope, digest, [a, b], KeyOf(scope, digest, a)) == Some(a.originalValue)
  {
    assert [a, b][..1] == [a] && [a][..0] == [];
    assert FirstOriginal(scope, digest, [a], KeyOf(scope, digest, a)) == Some(a.originalValue);
  }

  ghost predicate ReturnsOriginal(base: Call, text: string, entities: seq<Entity>) {
    var c := Message(base, text, entities);
    TokensOnly(c) && PlanFits(Plan(c), |c.text|) ==> Returned(c) == text
  }

  /** Every span the message has replaced by a token is one of these values, with its type. */
  ghost predicate Over(c: Call, values: set<(string, string)>) {
    forall i :: 0 <= i < |Plan(c)| && Plan(c)[i].action == Tokenize ==>
      (Plan(c)[i].entity.entityType, Original(c.text, Plan(c)[i])) in values
  }

  /** Whatever live value the session holds for a tokenised type is one of these. */
  ghost predicate HoldsStored(c: Call, values: set<(string, string)>) {
    forall t, d :: Tokenised(c.policy, t) && StoredValue(c.store, (c.scope, t, d), c.now).Some? ==>
      (t, StoredValue(c.store, (c.scope, t, d), c.now).value) in values
  }

  /** No two different values of one tokenised type share a fingerprint. */
  predicate ToldApart(c: Call, values: set<(string, string)>) {
    forall a, b | a in values && b in values && a.0 == b.0 && Tokenised(c.policy, a.0) ::
      SharePrint(c, a.0, a.1, b.1) ==> a.1 == b.1
  }

  ghost predicate AllReturn(base: Call, values: set<(string, string)>) {
    forall text, entities :: Over(Message(base, text, entities), values) ==> ReturnsOriginal(base, text, entities)
  }

  lemma ApartGivesOneValue(c: Call, values: set<(string, string)>)
    requires TokensOnly(c) && PlanFits(Plan(c), |c.text|)
    requires Over(c, values) && HoldsStored(c, values) && ToldApart(c, values)
    requires OwnPrints(c.store, c.scope, c.digest, c.fp, c.now)
    ensures OneValuePerKey(c)
  {
    hide Plan, Asked, StoredValue, Original, PlanFits, TokensOnly, Tokenised, PrintOf, Rank;
    var asked := Asked(c);
    forall k | 0 <= k < |asked|
      ensures (asked[k].entityType, asked[k].originalValue) in values && Tokenised(c.policy, asked[k].entityType)
      ensures asked[k].originalValue != ""
      ensures KeyOf(c.scope, c.digest, asked[k])
           == (c.scope, asked[k].entityType,
               PrintOf(c.fp, c.digest, c.scope, asked[k].entityType, asked[k].originalValue))
    {
      var i := RequestIsSpan(c, k);
      SpanIsRequest(c, i);
      PlannedType(c, i);
      RequestKey(c, Plan(c)[i]);
    }
    forall k | 0 <= k < |asked| && StoredValue(c.store, KeyOf(c.scope, c.digest, asked[k]), c.now).Some?
      ensures StoredValue(c.store, KeyOf(c.scope, c.digest, asked[k]), c.now).value == asked[k].originalValue
    {
      var v := StoredValue(c.store, KeyOf(c.scope, c.digest, asked[k]), c.now).value;
      assert (asked[k].entityType, v) in values;
      assert SharePrint(c, asked[k].entityType, v, asked[k].originalValue);
    }
    forall j, k | 0 <= j < |asked| && 0 <= k < |asked|
                  && KeyOf(c.scope, c.digest, asked[j]) == KeyOf(c.scope, c.digest, asked[k])
      ensures asked[j].originalValue == asked[k].originalValue
    {
      assert SharePrint(c, asked[j].entityType, asked[j].originalValue, asked[k].originalValue);
    }
  }

  lemma RequestKey(c: Call, p: Planned)
    ensures var r := RequestFor(c.fp, c.scope, c.text, p);
            r.entityType == p.entity.entityType
            && KeyOf(c.scope, c.digest, r)
            == (c.scope, r.entityType, PrintOf(c.fp, c.digest, c.scope, r.entityType, r.originalValue))
  {
  }

  /** Take any values that include what the session holds. Every message over them that is protected by
      tokens alone comes back as it was, exactly when no two of them share a type and a fingerprint. */
  lemma LosslessIff(base: Call, values: set<(string, string)>)
    requires Configured(base) && HoldsStored(base, values)
    requires OwnPrints(base.store, base.scope, base.digest, base.fp, base.now)
    ensures ToldApart(base, values) <==> AllReturn(base, values)
  {
    hide TokensOnly, PlanFits, Returned, Plan, OwnPrints, StoredValue, Configured, Tokenised, PrintOf, OneValuePerKey,
         Over;
    if ToldApart(base, values) {
      forall text, entities | Over(Message(base, text, entities), values)
        ensures ReturnsOriginal(base, text, entities)
      {
        var c := Message(base, text, entities);
        if TokensOnly(c) && PlanFits(Plan(c), |c.text|) {
          SameVault(base, text, entities, values);
          ApartGivesOneValue(c, values);
          ReturnedIsOriginal(c);
        }
      }
    }
    if AllReturn(base, values) {
      forall a, b | a in values && b in values && a.0 == b.0 && Tokenised(base.policy, a.0)
                    && SharePrint(base, a.0, a.1, b.1)
        ensures a.1 == b.1
      {
        if a.1 != b.1 {
          SharedPrintIsLost(base, a.0, a.1, b.1);
          LostIsNotReturned(base, values, a, b);
        }
      }
    }
  }

  lemma SameVault(base: Call, text: string, entities: seq<Entity>, values: set<(string, string)>)
    requires ToldApart(base, values) && HoldsStored(base, values)
    ensures ToldApart(Message(base, text, entities), values) && HoldsStored(Message(base, text, entities), values)
  {
    hide Tokenised, PrintOf, StoredValue;
    var c := Message(base, text, entities);
    forall a, b | a in values && b in values && a.0 == b.0 && Tokenised(c.policy, a.0)
                  && SharePrint(c, a.0, a.1, b.1)
      ensures a.1 == b.1
    {
      assert SharePrint(base, a.0, a.1, b.1);
    }
  }

  /** A message protected by tokens alone, over these values, that does not come back. */
  ghost predicate Lost(base: Call, values: set<(string, string)>, text: string, entities: seq<Entity>) {
    var c := Message(base, text, entities);
    TokensOnly(c) && PlanFits(Plan(c), |c.text|) && Over(c, values) && Returned(c) != text
  }

  /** Two different values with one fingerprint: one of them alone, or the two side by side, is a message
      that does not come back. */
  lemma SharedPrintIsLost(base: Call, t: string, v: string, w: string)
    requires Configured(base) && Tokenised(base.policy, t) && SharePrint(base, t, v, w) && v != w
    ensures Lost(base, {(t, v), (t, w)}, v, [Spanning(t, 0, |v|)])
            || Lost(base, {(t, v), (t, w)}, w, [Spanning(t, 0, |w|)])
            || Lost(base, {(t, v), (t, w)}, v + w, [Spanning(t, 0, |v|), Spanning(t, |v|, |v| + |w|)])
  {
    hide TokensOnly, PlanFits, Returned, Plan, StoredValue, Configured, Tokenised, Over;
    var k := (base.scope, t, PrintOf(base.fp, base.digest, base.scope, t, v));
    var stored := StoredValue(base.store, k, base.now);
    if stored.Some? {
      OneValue(base, t, v, stored.value);
      OneValue(base, t, w, stored.value);
      OverOne(base, t, v, {(t, v), (t, w)});
      OverOne(base, t, w, {(t, v), (t, w)});
    } else {
      TwoValues(base, t, v, w);
      OverTwo(base, t, v, w, {(t, v), (t, w)});
      assert (v + v)[|v|..] == v && (v + w)[|v|..] == w;
    }
  }

  lemma OverOne(base: Call, t: string, v: string, values: set<(string, string)>)
    requires Tokenised(base.policy, t) && v != "" && (t, v) in values
    ensures Over(Message(base, v, [Spanning(t, 0, |v|)]), values)
  {
    hide Plan, Tokenised;
    PlanOfAscending(Message(base, v, [Spanning(t, 0, |v|)]), t);
    assert v[0..|v|] == v;
  }

  lemma OverTwo(base: Call, t: string, v: string, w: string, values: set<(string, string)>)
    requires Tokenised(base.policy, t) && v != "" && w != "" && (t, v) in values && (t, w) in values
    ensures Over(Message(base, v + w, [Spanning(t, 0, |v|), Spanning(t, |v|, |v| + |w|)]), values)
  {
    hide Plan, Tokenised;
    var text := v + w;
    PlanOfAscending(Message(base, text, [Spanning(t, 0, |v|), Spanning(t, |v|, |text|)]), t);
    assert text[0..|v|] == v && text[|v|..|text|] == w;
  }

  lemma LostIsNotReturned(base: Call, values: set<(string, string)>, a: (string, string), b: (string, string))
    requires a in values && b in values && a.0 == b.0 && a.1 != "" && b.1 != ""
    requires Lost(base, {a, b}, a.1, [Spanning(a.0, 0, |a.1|)])
             || Lost(base, {a, b}, b.1, [Spanning(a.0, 0, |b.1|)])
             || Lost(base, {a, b}, a.1 + b.1, [Spanning(a.0, 0, |a.1|), Spanning(a.0, |a.1|, |a.1| + |b.1|)])
    ensures !AllReturn(base, values)
  {
    hide TokensOnly, PlanFits, Returned, Plan;
    forall text, entities | Lost(base, {a, b}, text, entities)
      ensures Over(Message(base, text, entities), values) && !ReturnsOriginal(base, text, entities)
    {
    }
  }
}
