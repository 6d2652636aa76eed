/** What protecting does to each single span, and which spans share a token. */
module SpanLaws {
  import opened Wrappers
  import opened Domain
  import opened VaultKeys
  import opened RedisStore
  import opened VaultLaws
  import opened RedisVault
  import opened VaultBookkeeping
  import opened Splicing
  import opened Tokenizer
  import opened Protection
  import opened Resolving
  import Grammar = TokenGrammar

  // ---------------------------------------------------------------------------
  // Span by span
  // ---------------------------------------------------------------------------

  /** The fingerprint of a span's text: the keyed hash, for this tenant, session and type, of its
      normalised form. */
  function PrintAt(c: Call, i: nat): string
    requires i < |Plan(c)| && Plan(c)[i].entity.end <= |c.text|
  {
    var e := Plan(c)[i].entity;
    c.fp.hmac(c.scope.tenantId, c.scope.sessionId, e.entityType,
              c.fp.normalize(e.entityType, c.text[e.start..e.end]))
  }

  /** How many spans before `i` have a mapping. */
  function Earlier(plan: seq<Planned>, i: nat): nat {
    |set j: nat | j < i && j < |plan| && (plan[j].action == Tokenize || plan[j].action == Pseudonymize)|
  }

  /** The mapping of span `i` names the span's own type, text and fingerprint, and a token of that type. */
  predicate Describes(c: Call, i: nat, m: EntityMapping)
    requires i < |Plan(c)| && Plan(c)[i].entity.end <= |c.text|
  {
    var e := Plan(c)[i].entity;
    && m.entityType == e.entityType && m.originalValue == c.text[e.start..e.end] && m.normalizedHmac == PrintAt(c, i)
    && Grammar.ParseToken(m.token) == Some(Grammar.Token(e.entityType, m.tokenId))
  }

  /** What comes to stand in the place of the spans from `i` on, allowed ones left out. */
  function Fillings(c: Call, mappings: seq<EntityMapping>, i: nat): seq<string>
    requires i <= |Plan(c)| && PlanFits(Plan(c), |c.text|) && |mappings| == Earlier(Plan(c), |Plan(c)|)
    decreases |Plan(c)| - i
  {
    if i == |Plan(c)| then []
    else
      var e := Plan(c)[i].entity;
      var k := Earlier(Plan(c), i);
      var rest := Fillings(c, mappings, i + 1);
      match Plan(c)[i].action
      case Redact => [Grammar.Bracket("REDACTED", e.entityType)] + rest
      case Tokenize => [if k < |mappings| then mappings[k].token else ""] + rest
      case Pseudonymize => [c.surrogate(e.entityType, c.text[e.start..e.end], PrintAt(c, i))] + rest
      case _ => rest
  }

  lemma {:induction false} RankIsEarlier(plan: seq<Planned>, i: nat)
    requires i <= |plan|
    ensures Rank(plan, i) == Earlier(plan, i)
  {
    if i > 0 {
      RankIsEarlier(plan, i - 1);
      EarlierStep(plan, i - 1);
    }
  }

  lemma EarlierStep(plan: seq<Planned>, i: nat)
    requires i < |plan|
    ensures Earlier(plan, i + 1) == Earlier(plan, i) + if NeedsMapping(plan[i].action) then 1 else 0
  {
    var before := set j: nat | j < i && j < |plan| && (plan[j].action == Tokenize || plan[j].action == Pseudonymize);
    var after := set j: nat | j < i + 1 && j < |plan| && (plan[j].action == Tokenize || plan[j].action == Pseudonymize);
    var more := NeedsMapping(plan[i].action);
    assert Earlier(plan, i) == |before| && Earlier(plan, i + 1) == |after|;
    assert i !in before && forall j :: j in after <==> j in before || (j == i && more);
    hide *;
    OneMore(before, after, i, more);
  }

  lemma MintedDescribes(c: Call, after: Store, mappings: seq<EntityMapping>, i: nat)
    requires |c.entities| <= |c.ids| && Minted(c, after, mappings) && PlanFits(Plan(c), |c.text|)
    requires i < |Plan(c)| && NeedsMapping(Plan(c)[i].action)
    ensures |mappings| == Earlier(Plan(c), |Plan(c)|) && Earlier(Plan(c), i) < |mappings|
    ensures MintedAt(Plan(c), mappings, i) == Some(mappings[Earlier(Plan(c), i)])
    ensures Describes(c, i, mappings[Earlier(Plan(c), i)])
  {
    hide Grammar.ParseToken, Grammar.Bracket, Grammar.IsValidTokenId, Plan, Written, Rank, Requests, NeedsMapping,
         Earlier;
    var plan := Plan(c);
    RankIsEarlier(plan, i);
    RankIsEarlier(plan, |plan|);
    RequestCount(c.fp, c.scope, c.text, plan);
    RequestAt(c.fp, c.scope, c.text, plan, i);
    MintedAreTyped(c, after, mappings);
    assert TypedAt(plan, mappings, i);
    MappingIs(c, after, mappings, Rank(plan, i));
  }

  lemma MappingIs(c: Call, after: Store, mappings: seq<EntityMapping>, k: nat)
    requires |c.entities| <= |c.ids| && Minted(c, after, mappings) && k < |Asked(c)|
    ensures |mappings| == |Asked(c)|
    ensures mappings[k].entityType == Asked(c)[k].entityType
    ensures mappings[k].originalValue == Asked(c)[k].originalValue
    ensures mappings[k].normalizedHmac == Asked(c)[k].normalizedHmac
  {
    hide Written, Asked, CoerceVaultToken;
  }

  lemma {:induction false} CutsAreFillings(c: Call, after: Store, mappings: seq<EntityMapping>, i: nat)
    requires |c.entities| <= |c.ids| && Minted(c, after, mappings) && PlanFits(Plan(c), |c.text|)
    requires i <= |Plan(c)| && !HasBlock(Plan(c)) && |mappings| == Earlier(Plan(c), |Plan(c)|)
    requires CutsFrom(c.surrogate, c.text, Plan(c), mappings, i).Some?
    ensures var cuts := CutsFrom(c.surrogate, c.text, Plan(c), mappings, i).value;
            SameSpans(cuts, SpanCuts(Plan(c), i)) && Replacements(cuts) == Fillings(c, mappings, i)
    decreases |Plan(c)| - i
  {
    hide Plan, CutsFrom, Fillings, SpanCuts, SameSpans, Minted, MintedAt, Earlier, PrintAt, Grammar.IsValidEntityType,
         Grammar.ParseToken, PlanFits;
    var plan := Plan(c);
    FillingsStep(c, mappings, i);
    if i == |plan| {
      NothingCut(c.surrogate, c.text, plan, mappings);
      NothingReplaced(plan);
    } else {
      CutsStepDown(c.surrogate, c.text, plan, mappings, i);
      CutsAreFillings(c, after, mappings, i + 1);
      CutsStep(c.surrogate, c.text, plan, mappings, i);
      SpanCutsStep(plan, i);
      var p := plan[i];
      if NeedsMapping(p.action) {
        MintedDescribes(c, after, mappings, i);
        OriginalIs(c, i);
      }
      if p.action != Allow {
        ConsReplaced(CutsFrom(c.surrogate, c.text, plan, mappings, i).value[0],
                     CutsFrom(c.surrogate, c.text, plan, mappings, i + 1).value,
                     Cut(p.entity.start, p.entity.end, ""), SpanCuts(plan, i + 1));
      }
    }
  }

  lemma OriginalIs(c: Call, i: nat)
    requires PlanFits(Plan(c), |c.text|) && i < |Plan(c)|
    ensures Plan(c)[i].entity.end <= |c.text|
    ensures Original(c.text, Plan(c)[i]) == c.text[Plan(c)[i].entity.start..Plan(c)[i].entity.end]
  {
    hide Plan;
  }

  lemma FillingsStep(c: Call, mappings: seq<EntityMapping>, i: nat)
    requires i <= |Plan(c)| && PlanFits(Plan(c), |c.text|) && |mappings| == Earlier(Plan(c), |Plan(c)|)
    ensures i == |Plan(c)| ==> Fillings(c, mappings, i) == []
    ensures i < |Plan(c)| ==>
              Plan(c)[i].entity.end <= |c.text|
              && var e := Plan(c)[i].entity;
                 var k := Earlier(Plan(c), i);
                 var rest := Fillings(c, mappings, i + 1);
                 Fillings(c, mappings, i) ==
                 match Plan(c)[i].action
                   case Redact => [Grammar.Bracket("REDACTED", e.entityType)] + rest
                   case Tokenize => [if k < |mappings| then mappings[k].token else ""] + rest
                   case Pseudonymize => [c.surrogate(e.entityType, c.text[e.start..e.end], PrintAt(c, i))] + rest
                   case _ => rest
  {
    hide Plan, PrintAt, Earlier, Grammar.Bracket;
  }

  /** A protected message, span by span. Each tokenised or pseudonymised span has one mapping, in order,
      which names its type, text and fingerprint. The text is what lies between the spans, with in the
      place of each the token, the surrogate of its type, text and fingerprint, or the placeholder of
      its type; allowed spans stay. */
  lemma SpanBySpan(c: Call, after: Store, out: TransformedText)
    requires Succeeds(c, after, out)
    ensures PlanFits(Plan(c), |c.text|) && |out.mappings| == Earlier(Plan(c), |Plan(c)|)
    ensures forall i :: 0 <= i < |Plan(c)| && (Plan(c)[i].action == Tokenize || Plan(c)[i].action == Pseudonymize) ==>
              Earlier(Plan(c), i) < |out.mappings| && Describes(c, i, out.mappings[Earlier(Plan(c), i)])
    ensures var gaps, fillings := Untouched(c.text, Plan(c)), Fillings(c, out.mappings, 0);
            |gaps| == |fillings| + 1 && out.text == Interleave(gaps, fillings)
  {
    hide Plan, Minted, Typed, CutsFrom, HasBlock, PlanFits, Splice, SpanCuts, SameSpans, Fillings, Describes, Earlier;
    var mappings := Decompose(c, after, out);
    var plan := Plan(c);
    MintedAreTyped(c, after, mappings);
    TypedCount(plan, mappings);
    AllMappingsListed(plan, mappings, 0);
    assert mappings[0..] == mappings;
    forall i | 0 <= i < |plan| && NeedsMapping(plan[i].action)
      ensures Earlier(plan, i) < |mappings| && plan[i].entity.end <= |c.text|
      ensures Describes(c, i, mappings[Earlier(plan, i)])
    {
      MintedDescribes(c, after, mappings, i);
      OriginalIs(c, i);
    }
    var cuts := CutsFrom(c.surrogate, c.text, plan, mappings, 0).value;
    CutsFit(c.surrogate, c.text, plan, mappings, 0);
    CutsAreFillings(c, after, mappings, 0);
    SpliceIsInterleave(c.text, cuts, 0);
    SameGaps(c.text, cuts, SpanCuts(plan, 0), 0);
  }

  lemma TypedCount(plan: seq<Planned>, mappings: seq<EntityMapping>)
    requires Typed(plan, mappings)
    ensures |mappings| == Earlier(plan, |plan|) && Rank(plan, 0) == 0
  {
    hide Earlier, TypedAt;
    RankIsEarlier(plan, |plan|);
  }

  // ---------------------------------------------------------------------------
  // Which spans share a token
  // ---------------------------------------------------------------------------

  /** The identity a span is stored under. */
  function KeyAt(c: Call, i: nat): IndexName
    requires i < |Plan(c)| && Plan(c)[i].entity.end <= |c.text|
  {
    (c.scope, Plan(c)[i].entity.entityType, c.digest(PrintAt(c, i)))
  }

  /** After protecting, a span's identity leads to the id its token has, and both live a full TTL. */
  lemma TokenIsIndexed(c: Call, after: Store, out: TransformedText, i: nat)
    requires Succeeds(c, after, out) && i < |Plan(c)| && NeedsMapping(Plan(c)[i].action)
    requires IsDigester(c.digest) && Fresh(c.store, c.scope, c.ids)
    ensures Plan(c)[i].entity.end <= |c.text| && Earlier(Plan(c), i) < |out.mappings|
    ensures Holds(after, KeyAt(c, i), out.mappings[Earlier(Plan(c), i)].tokenId,
                  c.now + c.policy.sessionTtlSeconds)
    ensures Reusable(c.store, KeyAt(c, i), c.now) ==>
              c.store.index[KeyAt(c, i)].tokenId == out.mappings[Earlier(Plan(c), i)].tokenId
  {
    hide Plan, Minted, Typed, CutsFrom, HasBlock, PlanFits, Splice, SpanCuts, Earlier, Holds, Reusable, Requests,
         Written, Rank, NeedsMapping, RequestFor, IsDigester, Fresh, Grammar.ParseToken, Grammar.Bracket;
    var mappings := Decompose(c, after, out);
    var plan := Plan(c);
    MintedAreTyped(c, after, mappings);
    AllMappingsListed(plan, mappings, 0);
    TypedCount(plan, mappings);
    assert mappings[0..] == mappings;
    MintedDescribes(c, after, mappings, i);
    RankIsEarlier(plan, i);
    OriginalIs(c, i);
    RequestAt(c.fp, c.scope, c.text, plan, i);
    RequestCount(c.fp, c.scope, c.text, plan);
    RequestKeyAt(c, i);
    AskedIsHeld(c, after, mappings, Rank(plan, i));
  }

  lemma RequestKeyAt(c: Call, i: nat)
    requires i < |Plan(c)| && Plan(c)[i].entity.end <= |c.text|
    ensures KeyOf(c.scope, c.digest, RequestFor(c.fp, c.scope, c.text, Plan(c)[i])) == KeyAt(c, i)
  {
    hide Plan;
  }

  lemma AskedIsHeld(c: Call, after: Store, mappings: seq<EntityMapping>, k: nat)
    requires |c.entities| <= |c.ids| && Minted(c, after, mappings) && k < |Asked(c)|
    requires IsDigester(c.digest) && Fresh(c.store, c.scope, c.ids)
    ensures |mappings| == |Asked(c)|
    ensures Holds(after, KeyOf(c.scope, c.digest, Asked(c)[k]), mappings[k].tokenId,
                  c.now + c.policy.sessionTtlSeconds)
    ensures Reusable(c.store, KeyOf(c.scope, c.digest, Asked(c)[k]), c.now) ==>
              c.store.index[KeyOf(c.scope, c.digest, Asked(c)[k])].tokenId == mappings[k].tokenId
  {
    hide Holds, Reusable, Written, IsDigester, Fresh, Grammar.ParseToken, Grammar.Bracket, Asked, KeyOf,
         Grammar.IsValidTokenId;
    MappingIs(c, after, mappings, k);
    var ttl := c.policy.sessionTtlSeconds;
    EntryIsHeld(c.store, c.scope, c.digest, c.now, Asked(c), ttl, c.ids, k);
    WrittenToken(c.store, c.scope, c.digest, c.now, Asked(c), ttl, c.ids, k);
  }

  /** The token of an entry, and the index entry its identity has after the write. */
  lemma EntryIsHeld(st: Store, scope: Scope, digest: Digester, now: int, entries: seq<VaultWriteRequest>, ttl: int,
                    ids: seq<TokenId>, k: nat)
    requires |entries| <= |ids| && k < |entries| && Written(st, scope, digest, now, entries, ttl, ids).1.Ok?
    requires IsDigester(digest) && Fresh(st, scope, ids)
    ensures var (after, tokens) := Written(st, scope, digest, now, entries, ttl, ids);
            var name := KeyOf(scope, digest, entries[k]);
            |tokens.value| == |entries| && Grammar.ParseToken(tokens.value[k]).Some?
            && Holds(after, name, Grammar.ParseToken(tokens.value[k]).value.tokenId, now + ttl)
            && (Reusable(st, name, now) ==>
                  st.index[name].tokenId == Grammar.ParseToken(tokens.value[k]).value.tokenId)
  {
    hide Fold, LegalBatch, Fresh, IsDigester, Unique, Find, Grammar.IsValidEntityType, Grammar.IsValidTokenId,
         Grammar.Bracket, Grammar.ParseToken, ExpireMeta, Written, Holds, Reusable;
    WrittenIsFold(st, scope, digest, now, entries, ttl, ids);
    var unique := Unique(entries);
    var offered := Candidates(scope, digest, unique, ids);
    var (folded, replies) := Fold(st, scope, now, ttl, offered);
    UniqueFinds(entries, k);
    var j := Find(unique, Identity(entries[k]));
    OfferedKey(scope, digest, unique[j], ids[j], entries[k]);
    FoldHolds(st, scope, now, ttl, offered, j);
    HeldInBoth(folded, Written(st, scope, digest, now, entries, ttl, ids).0, KeyOf(scope, digest, entries[k]),
               replies[j].0, now + ttl);
    FoldTouches(st, scope, now, ttl, offered);
    ReusedKeepsId(st, folded, scope, now, ttl, offered, j);
    WrittenIds(st, scope, digest, now, entries, ttl, ids, k);
  }

  lemma HeldInBoth(a: Store, b: Store, k: IndexName, id: string, until: int)
    requires a.records == b.records && a.index == b.index && Holds(a, k, id, until)
    ensures Holds(b, k, id, until) && k in a.index && a.index[k].tokenId == id
  {
  }

  lemma ReusedKeepsId(st: Store, after: Store, scope: Scope, now: int, ttl: int, entries: seq<BatchEntry>, j: nat)
    requires IndexTouched(st, after, scope, now, ttl, entries) && j < |entries|
    ensures var k := IndexOf(scope, entries[j]);
            k in after.index && (Reusable(st, k, now) ==> after.index[k].tokenId == st.index[k].tokenId)
  {
    hide Reusable;
    var k := (scope, entries[j].entityType, entries[j].digest);
    assert Names(scope, entries, k);
  }

  lemma WrittenIds(st: Store, scope: Scope, digest: Digester, now: int, entries: seq<VaultWriteRequest>, ttl: int,
                   ids: seq<TokenId>, k: nat)
    requires |entries| <= |ids| && k < |entries| && Written(st, scope, digest, now, entries, ttl, ids).1.Ok?
    ensures var replies := Fold(st, scope, now, ttl, Candidates(scope, digest, Unique(entries), ids)).1;
            var j := Find(Unique(entries), Identity(entries[k]));
            j < |replies|
            && Grammar.ParseToken(Written(st, scope, digest, now, entries, ttl, ids).1.value[k])
            == Some(Grammar.Token(entries[k].entityType, replies[j].0))
  {
    hide Grammar.ParseToken, Grammar.Bracket, Grammar.IsValidEntityType, Grammar.IsValidTokenId, Unique, Find,
         Identity, Candidates, Fold;
    var unique := Unique(entries);
    UniqueFinds(entries, k);
    var replies := Fold(st, scope, now, ttl, Candidates(scope, digest, unique, ids)).1;
    var j := Find(unique, Identity(entries[k]));
    Grammar.FormattedParses(entries[k].entityType, replies[j].0);
  }

  lemma OutcomeBookkept(c: Call, after: Store, out: TransformedText)
    requires Succeeds(c, after, out) && Bookkept(c.store, c.now)
    requires IsDigester(c.digest) && Fresh(c.store, c.scope, c.ids)
    ensures Bookkept(after, c.now)
  {
    hide Bookkept, Plan, Spliced, HasBlock, PlanFits, Written, IsDigester, Fresh, Requests, LegalBatch, Fold, Unique,
         ExpireMeta, WellFormedReplies, RedisVault.Tokens, AllCoerce, Mappings, Candidates;
    var mappings := Decompose(c, after, out);
    if Asked(c) != [] {
      var ttl := c.policy.sessionTtlSeconds;
      WrittenIsFold(c.store, c.scope, c.digest, c.now, Asked(c), ttl, c.ids);
      var offered := Candidates(c.scope, c.digest, Unique(Asked(c)), c.ids);
      FoldBookkept(c.store, c.scope, c.now, ttl, offered);
      ExpireMetaBookkept(Fold(c.store, c.scope, c.now, ttl, offered).0, c.scope, c.now, ttl);
      WrittenStoreIs(c.store, c.scope, c.digest, c.now, Asked(c), ttl, c.ids);
    }
  }

  lemma WrittenStoreIs(st: Store, scope: Scope, digest: Digester, now: int, entries: seq<VaultWriteRequest>, ttl: int,
                       ids: seq<TokenId>)
    requires |entries| <= |ids| && entries != [] && Written(st, scope, digest, now, entries, ttl, ids).1.Ok?
    ensures Written(st, scope, digest, now, entries, ttl, ids).0
         == ExpireMeta(Fold(st, scope, now, ttl, Candidates(scope, digest, Unique(entries), ids)).0, scope, now, ttl)
  {
    hide Fold, ExpireMeta, Candidates, Unique;
  }

  /** Two spans of a message share a token exactly when they have one type and fingerprints with one
      digest. */
  lemma SameTokenIff(c: Call, after: Store, out: TransformedText, i: nat, j: nat)
    requires Succeeds(c, after, out) && Bookkept(c.store, c.now)
    requires IsDigester(c.digest) && Fresh(c.store, c.scope, c.ids)
    requires i < |Plan(c)| && NeedsMapping(Plan(c)[i].action) && j < |Plan(c)| && NeedsMapping(Plan(c)[j].action)
    ensures Plan(c)[i].entity.end <= |c.text| && Plan(c)[j].entity.end <= |c.text|
    ensures Earlier(Plan(c), i) < |out.mappings| && Earlier(Plan(c), j) < |out.mappings|
    ensures out.mappings[Earlier(Plan(c), i)].token == out.mappings[Earlier(Plan(c), j)].token <==>
            Plan(c)[i].entity.entityType == Plan(c)[j].entity.entityType
            && c.digest(PrintAt(c, i)) == c.digest(PrintAt(c, j))
  {
    hide Plan, Earlier, PrintAt, Bookkept, Grammar.ParseToken, IsDigester, Fresh, Succeeds, NeedsMapping;
    SpanBySpan(c, after, out);
    TokenIsIndexed(c, after, out, i);
    TokenIsIndexed(c, after, out, j);
    OutcomeBookkept(c, after, out);
    TtlPositive(c, after, out, i);
    var m, n := out.mappings[Earlier(Plan(c), i)], out.mappings[Earlier(Plan(c), j)];
    assert NeedsMapping(Plan(c)[i].action) ==>
        Plan(c)[i].action == Tokenize || Plan(c)[i].action == Pseudonymize by { MappedActions(Plan(c)[i].action); }
    MappedActions(Plan(c)[j].action);
    assert Describes(c, i, m) && Describes(c, j, n);
    Grammar.ParsedWasFormatted(m.token);
    Grammar.ParsedWasFormatted(n.token);
    OneKeyPerId(after, c.now, KeyAt(c, i), KeyAt(c, j));
  }

  lemma MappedActions(action: EntityAction)
    ensures NeedsMapping(action) <==> action == Tokenize || action == Pseudonymize
  {
  }

  lemma TtlPositive(c: Call, after: Store, out: TransformedText, i: nat)
    requires Succeeds(c, after, out) && i < |Plan(c)| && NeedsMapping(Plan(c)[i].action)
    ensures c.policy.sessionTtlSeconds > 0
  {
    hide Plan, Spliced, HasBlock, PlanFits, Requests, RequestFor, Script, Rank, AllCoerce, Mappings,
         Grammar.IsValidEntityType;
    var mappings := Decompose(c, after, out);
    RequestAt(c.fp, c.scope, c.text, Plan(c), i);
  }

  lemma OneKeyPerId(st: Store, now: int, k: IndexName, l: IndexName)
    requires Bookkept(st, now) && k.0 == l.0
    ensures IndexLive(st, k, now) && IndexLive(st, l, now) && st.index[k].tokenId == st.index[l].tokenId ==> k == l
  {
    hide Paired;
  }

  // ---------------------------------------------------------------------------
  // One token per value, for as long as it lives
  // ---------------------------------------------------------------------------

  /** The identity leads to this id, and both keys live until `until` at least. */
  predicate Keeps(st: Store, k: IndexName, id: string, until: int) {
    && k in st.index && st.index[k].tokenId == id && st.index[k].expires >= until
    && (k.0, id) in st.records && st.records[(k.0, id)].expires >= until
  }

  lemma StepKeeps(st: Store, scope: Scope, now: int, ttl: int, e: BatchEntry, k: IndexName, id: string, until: int)
    requires Keeps(st, k, id, until) && Unused(st, scope, e.candidateId)
    requires now < until && (scope == k.0 ==> now + ttl >= until)
    ensures Keeps(GetOrCreate(st, scope, now, ttl, e).0, k, id, until)
  {
  }

  lemma {:induction false} FoldKeeps(st: Store, scope: Scope, now: int, ttl: int, entries: seq<BatchEntry>,
                                     k: IndexName, id: string, until: int)
    requires Keeps(st, k, id, until) && LegalBatch(st, scope, entries)
    requires now < until && (scope == k.0 ==> now + ttl >= until)
    ensures Keeps(Fold(st, scope, now, ttl, entries).0, k, id, until)
  {
    hide Keeps, Unused, EntrySealed, GetOrCreate;
    if entries != [] {
      var n := |entries| - 1;
      FoldKeeps(st, scope, now, ttl, entries[..n], k, id, until);
      FoldKeepsUnused(st, scope, now, ttl, entries[..n], scope, entries[n].candidateId);
      StepKeeps(Fold(st, scope, now, ttl, entries[..n]).0, scope, now, ttl, entries[n], k, id, until);
    }
  }

  lemma OpKeeps(st: Store, now: int, op: VaultOp, k: IndexName, id: string, until: int)
    requires Keeps(st, k, id, until) && LegalOp(st, now, op) && now < until
    requires Undisturbed(now, [op], k.0, until)
    ensures Keeps(Apply(st, now, op).0, k, id, until)
  {
    hide Fold, LegalBatch;
    if op.WriteBatch? {
      FoldKeeps(st, op.scope, now, op.ttl, op.entries, k, id, until);
      ExpireMetaFrame(Fold(st, op.scope, now, op.ttl, op.entries).0, op.scope, now, op.ttl);
    }
  }

  lemma {:induction false} RunKeepsToken(st: Store, now: int, ops: seq<VaultOp>, k: IndexName, id: string, until: int)
    requires LegalRun(st, now, ops) && Undisturbed(now, ops, k.0, until)
    requires Keeps(st, k, id, until) && Run(st, now, ops).1 < until
    ensures Keeps(Run(st, now, ops).0, k, id, until)
    decreases |ops|
  {
    hide Keeps, LegalOp;
    if ops != [] {
      ClockAdvances(st, now, ops);
      assert Undisturbed(now, [ops[0]], k.0, until);
      OpKeeps(st, now, ops[0], k, id, until);
      var (st', now') := Apply(st, now, ops[0]);
      RunKeepsToken(st', now', ops[1..], k, id, until);
    }
  }

  lemma {:induction false} ClockAdvances(st: Store, now: int, ops: seq<VaultOp>)
    requires LegalRun(st, now, ops)
    ensures now <= Run(st, now, ops).1
    decreases |ops|
  {
    hide Script, Deleted, LegalBatch;
    if ops != [] {
      var (st', now') := Apply(st, now, ops[0]);
      ClockAdvances(st', now', ops[1..]);
    }
  }

  /** One value, one token: a span protected again within its TTL, in this message or a later one of its
      session, with a text of the same type and normal form, gets the token it had, whatever other
      callers do meanwhile short of deleting the session or renewing its keys for less. */
  lemma SameValueSameToken(c: Call, after: Store, out: TransformedText, i: nat, ops: seq<VaultOp>,
                           d: Call, last: Store, again: TransformedText, j: nat)
    requires Succeeds(c, after, out) && i < |Plan(c)| && NeedsMapping(Plan(c)[i].action)
    requires IsDigester(c.digest) && Fresh(c.store, c.scope, c.ids)
    requires LegalRun(after, c.now, ops) && Undisturbed(c.now, ops, c.scope, c.now + c.policy.sessionTtlSeconds)
    requires Run(after, c.now, ops) == (d.store, d.now) && d.now < c.now + c.policy.sessionTtlSeconds
    requires Succeeds(d, last, again) && j < |Plan(d)| && NeedsMapping(Plan(d)[j].action)
    requires d.scope == c.scope && d.digest == c.digest && d.fp == c.fp && Fresh(d.store, d.scope, d.ids)
    ensures PlanFits(Plan(c), |c.text|) && PlanFits(Plan(d), |d.text|)
    ensures var a, b := Plan(c)[i].entity, Plan(d)[j].entity;
            Earlier(Plan(c), i) < |out.mappings| && Earlier(Plan(d), j) < |again.mappings|
            && (a.entityType == b.entityType
                && c.fp.normalize(a.entityType, c.text[a.start..a.end])
                == c.fp.normalize(b.entityType, d.text[b.start..b.end]) ==>
                  out.mappings[Earlier(Plan(c), i)].token == again.mappings[Earlier(Plan(d), j)].token)
  {
    hide Plan, Earlier, Grammar.ParseToken, IsDigester, Fresh, Succeeds, NeedsMapping, Run, LegalRun, Undisturbed;
    SpanBySpan(c, after, out);
    SpanBySpan(d, last, again);
    MappedActions(Plan(c)[i].action);
    MappedActions(Plan(d)[j].action);
    TokenIsIndexed(c, after, out, i);
    TokenIsIndexed(d, last, again, j);
    var m, n := out.mappings[Earlier(Plan(c), i)], again.mappings[Earlier(Plan(d), j)];
    assert Describes(c, i, m) && Describes(d, j, n);
    Grammar.ParsedWasFormatted(m.token);
    Grammar.ParsedWasFormatted(n.token);
    RunKeepsToken(after, c.now, ops, KeyAt(c, i), m.tokenId, c.now + c.policy.sessionTtlSeconds);
  }
}
