/** How long a token the vault hands out keeps its value. */
module Resolving {
  import opened Wrappers
  import opened Domain
  import opened VaultKeys
  import opened RedisStore
  import opened VaultLaws
  import opened RedisVault
  import opened VaultBookkeeping
  import opened VaultRefinement
  import VaultEnvelope
  import Grammar = TokenGrammar

  /** `token` leads to `value` for any caller that asks before `until`. */
  predicate Resolvable(st: Store, scope: Scope, token: string, value: string, until: int) {
    Grammar.ParseToken(token).Some? &&
    var n := (scope, Grammar.ParseToken(token).value.tokenId);
    n in st.records && st.records[n].expires >= until
    && WellSealed(n, st.records[n].content)
    && st.records[n].content.record.token == token && st.records[n].content.record.originalValue == value
  }

  lemma ResolvableFound(st: Store, scope: Scope, token: string, value: string, until: int, later: int)
    requires Resolvable(st, scope, token, value, until) && later < until
    ensures LookUp(st, scope, later, token) == Found(value)
  {
    hide Grammar.ParseToken, Grammar.IsValidEntityType, Grammar.IsValidTokenId;
    var parsed := Grammar.ParseToken(token).value;
    var record := st.records[(scope, parsed.tokenId)].content.record;
    Grammar.ParseIffFormat(token, Grammar.Token(record.entityType, parsed.tokenId));
  }

  /** Until `until` is reached, nobody deletes the session or renews its keys for less. */
  ghost predicate Undisturbed(now: int, ops: seq<VaultOp>, scope: Scope, until: int)
    decreases |ops|
  {
    ops == [] ||
    match ops[0]
    case WriteBatch(s, ttl, _) => (s == scope ==> now + ttl >= until) && Undisturbed(now, ops[1..], scope, until)
    case DeleteAll(s) => s != scope && Undisturbed(now, ops[1..], scope, until)
    case Wait(moment) => Undisturbed(moment, ops[1..], scope, until)
  }

  lemma StepKeepsExpiry(st: Store, scope: Scope, now: int, ttl: int, e: BatchEntry, n: RecordName, until: int)
    requires Unused(st, scope, e.candidateId) && n in st.records && st.records[n].expires >= until
    requires n.0 == scope ==> now + ttl >= until
    ensures n in GetOrCreate(st, scope, now, ttl, e).0.records
    ensures GetOrCreate(st, scope, now, ttl, e).0.records[n].expires >= until
  {
  }

  lemma {:induction false} FoldKeepsExpiry(
    st: Store, scope: Scope, now: int, ttl: int, entries: seq<BatchEntry>, n: RecordName, until: int)
    requires LegalBatch(st, scope, entries) && n in st.records && st.records[n].expires >= until
    requires n.0 == scope ==> now + ttl >= until
    ensures n in Fold(st, scope, now, ttl, entries).0.records
    ensures Fold(st, scope, now, ttl, entries).0.records[n].expires >= until
  {
    hide Unused, EntrySealed, GetOrCreate;
    if entries != [] {
      var last := |entries| - 1;
      var front, e := entries[..last], entries[last];
      FoldKeepsExpiry(st, scope, now, ttl, front, n, until);
      FoldKeepsUnused(st, scope, now, ttl, front, scope, e.candidateId);
      StepKeepsExpiry(Fold(st, scope, now, ttl, front).0, scope, now, ttl, e, n, until);
    }
  }

  lemma OpKeepsResolvable(st: Store, now: int, op: VaultOp, scope: Scope, token: string, value: string, until: int)
    requires LegalOp(st, now, op) && Undisturbed(now, [op], scope, until)
    requires Resolvable(st, scope, token, value, until)
    ensures Resolvable(Apply(st, now, op).0, scope, token, value, until)
  {
    hide Grammar.ParseToken, Fold, LegalBatch, WellSealed;
    var n := (scope, Grammar.ParseToken(token).value.tokenId);
    OpKeepsContent(st, now, op, n);
    if op.WriteBatch? {
      FoldKeepsExpiry(st, op.scope, now, op.ttl, op.entries, n, until);
      ExpireMetaFrame(Fold(st, op.scope, now, op.ttl, op.entries).0, op.scope, now, op.ttl);
    }
  }

  /** Whatever other callers do meanwhile, in this session or others. */
  lemma {:induction false} RunKeepsResolvable(
    st: Store, now: int, ops: seq<VaultOp>, scope: Scope, token: string, value: string, until: int)
    requires LegalRun(st, now, ops) && Undisturbed(now, ops, scope, until)
    requires Resolvable(st, scope, token, value, until)
    ensures Resolvable(Run(st, now, ops).0, scope, token, value, until)
    decreases |ops|
  {
    hide Resolvable, LegalOp;
    if ops != [] {
      assert Undisturbed(now, [ops[0]], scope, until);
      OpKeepsResolvable(st, now, ops[0], scope, token, value, until);
      var (st', now') := Apply(st, now, ops[0]);
      RunKeepsResolvable(st', now', ops[1..], scope, token, value, until);
    }
  }

  // ---------------------------------------------------------------------------
  // A batch write, in the caller's terms
  // ---------------------------------------------------------------------------

  function KeyOf(scope: Scope, digest: Digester, e: VaultWriteRequest): IndexName {
    (scope, e.entityType, digest(e.normalizedHmac))
  }

  /** The value of the first request that names `k`. */
  function FirstOriginal(scope: Scope, digest: Digester, entries: seq<VaultWriteRequest>,
                         k: IndexName): Option<string> {
    if entries == [] then None
    else
      var n := |entries| - 1;
      var earlier := FirstOriginal(scope, digest, entries[..n], k);
      if earlier.Some? then earlier
      else if KeyOf(scope, digest, entries[n]) == k then Some(entries[n].originalValue)
      else None
  }

  /** The value `k` stands for after `entries` are written: the first the session stored. */
  function StandsFor(st: Store, scope: Scope, digest: Digester, now: int, entries: seq<VaultWriteRequest>, k: IndexName)
    : Option<string>
  {
    OrElse(StoredValue(st, k, now), FirstOriginal(scope, digest, entries, k))
  }

  lemma {:induction false} FirstValueFound(scope: Scope, entries: seq<BatchEntry>, j: nat)
    requires j < |entries|
    ensures FirstValue(scope, entries, IndexOf(scope, entries[j])).Some?
  {
    var n := |entries| - 1;
    if j < n {
      FirstValueFound(scope, entries[..n], j);
    }
  }

  /** Leaving out repeats changes no first value. */
  lemma {:induction false} FirstOfUnique(scope: Scope, digest: Digester, entries: seq<VaultWriteRequest>,
                                         ids: seq<TokenId>, k: IndexName)
    requires |entries| <= |ids|
    ensures FirstValue(scope, Candidates(scope, digest, Unique(entries), ids), k)
         == FirstOriginal(scope, digest, entries, k)
  {
    hide Find, Unique, Grammar.Bracket;
    NothingFound();
    if entries != [] {
      var n := |entries| - 1;
      var e := entries[n];
      var u := Unique(entries[..n]);
      assert entries == entries[..n] + [e];
      FirstOfUnique(scope, digest, entries[..n], ids, k);
      UniqueSnoc(entries[..n], e);
      var offered := Candidates(scope, digest, u, ids);
      var j := Find(u, Identity(e));
      if j < |u| {
        FirstValueFound(scope, offered, j);
        assert IndexOf(scope, offered[j]) == KeyOf(scope, digest, e);
      } else {
        CandidatesPrefix(scope, digest, u, e, ids);
        var all := Candidates(scope, digest, u + [e], ids);
        assert all[..|u|] == offered;
      }
    }
  }

  lemma {:induction false} FirstOriginalFound(scope: Scope, digest: Digester, entries: seq<VaultWriteRequest>, i: nat)
    requires i < |entries|
    ensures FirstOriginal(scope, digest, entries, KeyOf(scope, digest, entries[i])).Some?
  {
    var n := |entries| - 1;
    if i < n {
      FirstOriginalFound(scope, digest, entries[..n], i);
    }
  }

  lemma {:induction false} FirstOriginalIsOne(scope: Scope, digest: Digester, entries: seq<VaultWriteRequest>,
                                              k: IndexName)
    returns (i: nat)
    requires FirstOriginal(scope, digest, entries, k).Some?
    ensures i < |entries| && KeyOf(scope, digest, entries[i]) == k
    ensures FirstOriginal(scope, digest, entries, k).value == entries[i].originalValue
  {
    var n := |entries| - 1;
    if FirstOriginal(scope, digest, entries[..n], k).Some? {
      i := FirstOriginalIsOne(scope, digest, entries[..n], k);
    } else {
      i := n;
    }
  }

  /** A successful write is one run of the script on legal candidates. */
  lemma WrittenIsFold(st: Store, scope: Scope, digest: Digester, now: int, entries: seq<VaultWriteRequest>,
                      ttl: int, ids: seq<TokenId>)
    requires |entries| <= |ids| && entries != [] && Fresh(st, scope, ids) && IsDigester(digest)
    requires Written(st, scope, digest, now, entries, ttl, ids).1.Ok?
    ensures var offered := Candidates(scope, digest, Unique(entries), ids);
            var (folded, replies) := Fold(st, scope, now, ttl, offered);
            var (after, tokens) := Written(st, scope, digest, now, entries, ttl, ids);
            ttl > 0 && LegalBatch(st, scope, offered)
            && after.records == folded.records && after.index == folded.index
            && tokens.value == Tokens(entries, Unique(entries), replies)
  {
    hide Fold, LegalBatch, Fresh, IsDigester, Unique, Find, Grammar.IsValidEntityType, Grammar.IsValidTokenId,
         Grammar.Bracket, ExpireMeta;
    FreshBatchIsLegal(st, scope, digest, entries, ttl, ids);
    var offered := Candidates(scope, digest, Unique(entries), ids);
    ExpireMetaFrame(Fold(st, scope, now, ttl, offered).0, scope, now, ttl);
  }

  /** Every token a batch write returns leads, for a full TTL, to what its entry's key stands for. */
  lemma WrittenResolves(st: Store, scope: Scope, digest: Digester, now: int, entries: seq<VaultWriteRequest>,
                        ttl: int, ids: seq<TokenId>, i: nat)
    requires |entries| <= |ids| && i < |entries| && Fresh(st, scope, ids) && IsDigester(digest) && Consistent(st)
    requires Written(st, scope, digest, now, entries, ttl, ids).1.Ok?
    ensures var (after, tokens) := Written(st, scope, digest, now, entries, ttl, ids);
            var value := StandsFor(st, scope, digest, now, entries, KeyOf(scope, digest, entries[i]));
            |tokens.value| == |entries| && value.Some?
            && Resolvable(after, scope, tokens.value[i], value.value, now + ttl)
  {
    hide Fold, LegalBatch, Fresh, IsDigester, Unique, Find, Grammar.IsValidEntityType, Grammar.IsValidTokenId,
         Grammar.Bracket, ExpireMeta, Written, Consistent, Holds, StoredValue, FirstValue, FirstOriginal, Resolvable;
    WrittenIsFold(st, scope, digest, now, entries, ttl, ids);
    var unique := Unique(entries);
    var offered := Candidates(scope, digest, unique, ids);
    var (folded, replies) := Fold(st, scope, now, ttl, offered);
    var after := Written(st, scope, digest, now, entries, ttl, ids).0;
    UniqueFinds(entries, i);
    var j := Find(unique, Identity(entries[i]));
    var k := KeyOf(scope, digest, entries[i]);
    OfferedKey(scope, digest, unique[j], ids[j], entries[i]);
    FoldHolds(st, scope, now, ttl, offered, j);
    FoldStores(st, scope, now, ttl, offered, k);
    FirstOfUnique(scope, digest, entries, ids, k);
    FirstOriginalFound(scope, digest, entries, i);
    FoldConsistent(st, scope, now, ttl, offered);
    HeldResolves(folded, after, k, replies[j].0, now, ttl);
  }

  lemma OfferedKey(scope: Scope, digest: Digester, u: VaultWriteRequest, id: TokenId, e: VaultWriteRequest)
    requires Identity(u) == Identity(e)
    ensures IndexOf(scope, Candidate(scope, digest, u, id)) == KeyOf(scope, digest, e)
  {
  }

  lemma HeldResolves(st: Store, after: Store, k: IndexName, id: string, now: int, ttl: int)
    requires Consistent(st) && Holds(st, k, id, now + ttl) && ttl > 0 && after.records == st.records
    ensures StoredValue(st, k, now).Some?
    ensures Resolvable(after, k.0, Grammar.Bracket(k.1, id), StoredValue(st, k, now).value, now + ttl)
  {
    hide Grammar.ParseToken, Grammar.IsValidEntityType, Grammar.IsValidTokenId, Grammar.Bracket;
    assert LeadsToItsType(st, k);
    assert WellSealed((k.0, id), st.records[(k.0, id)].content);
    Grammar.FormattedParses(k.1, id);
  }
}
