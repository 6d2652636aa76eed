/** What every operation on the vault's store keeps. */
module VaultLaws {
  import opened Wrappers
  import opened VaultKeys
  import opened VaultEnvelope
  import opened RedisStore
  import Grammar = TokenGrammar

  // ---------------------------------------------------------------------------
  // Consistency
  // ---------------------------------------------------------------------------

  /** A stored record is bound to, and describes, exactly the name it is stored under. */
  predicate WellSealed(n: RecordName, c: SealedRecord) {
    && c.aad == VaultAad(n.0.tenantId, n.0.sessionId, c.record.entityType, n.1)
    && c.record.scope == n.0
    && Grammar.FormatToken(c.record.entityType, n.1) == Some(c.record.token)
  }

  ghost predicate RecordsWellSealed(st: Store) {
    forall n :: n in st.records ==> WellSealed(n, st.records[n].content)
  }

  /** An index entry never leads to a record of another type. */
  predicate LeadsToItsType(st: Store, k: IndexName)
    requires k in st.index
  {
    && Grammar.IsValidEntityType(k.1) && Grammar.IsValidTokenId(st.index[k].tokenId)
    && ((k.0, st.index[k].tokenId) in st.records ==>
          st.records[(k.0, st.index[k].tokenId)].content.record.entityType == k.1)
  }

  ghost predicate Consistent(st: Store) {
    RecordsWellSealed(st) && forall k :: k in st.index ==> LeadsToItsType(st, k)
  }

  /** A token id never seen in the session: 128 random bits. */
  ghost predicate Unused(st: Store, scope: Scope, id: string) {
    (scope, id) !in st.records
    && forall k :: k in st.index && k.0 == scope ==> st.index[k].tokenId != id
  }

  predicate EntrySealed(scope: Scope, e: BatchEntry) {
    && ValidEntry(e)
    && WellSealed((scope, e.candidateId), e.content)
    && e.content.record.entityType == e.entityType
  }

  /** What the vault passes to the script: sealed entries with fresh, distinct candidate ids. */
  ghost predicate LegalBatch(st: Store, scope: Scope, entries: seq<BatchEntry>) {
    && (forall i :: 0 <= i < |entries| ==> EntrySealed(scope, entries[i]) && Unused(st, scope, entries[i].candidateId))
    && (forall i, j :: 0 <= i < j < |entries| ==> entries[i].candidateId != entries[j].candidateId)
  }

  lemma StepConsistent(st: Store, scope: Scope, now: int, ttl: int, e: BatchEntry)
    requires Consistent(st) && EntrySealed(scope, e) && Unused(st, scope, e.candidateId)
    ensures Consistent(GetOrCreate(st, scope, now, ttl, e).0)
  {
    hide Grammar.IsValidEntityType, Grammar.IsValidTokenId, Grammar.FormatToken;
    var after := GetOrCreate(st, scope, now, ttl, e).0;
    forall k | k in after.index
      ensures LeadsToItsType(after, k)
    {
      if k in st.index {
        assert LeadsToItsType(st, k);
      }
    }
  }

  lemma StepKeepsUnused(st: Store, scope: Scope, now: int, ttl: int, e: BatchEntry, other: Scope, id: string)
    requires Unused(st, other, id) && (other != scope || id != e.candidateId)
    ensures Unused(GetOrCreate(st, scope, now, ttl, e).0, other, id)
  {
  }

  lemma {:induction false} FoldConsistent(st: Store, scope: Scope, now: int, ttl: int, entries: seq<BatchEntry>)
    requires Consistent(st) && LegalBatch(st, scope, entries)
    ensures Consistent(Fold(st, scope, now, ttl, entries).0)
  {
    hide Consistent, EntrySealed, Unused;
    if entries != [] {
      var n := |entries| - 1;
      FoldConsistent(st, scope, now, ttl, entries[..n]);
      FoldKeepsUnused(st, scope, now, ttl, entries[..n], scope, entries[n].candidateId);
      StepConsistent(Fold(st, scope, now, ttl, entries[..n]).0, scope, now, ttl, entries[n]);
    }
  }

  lemma {:induction false} FoldKeepsUnused(
    st: Store, scope: Scope, now: int, ttl: int, entries: seq<BatchEntry>, other: Scope, id: string)
    requires Unused(st, other, id)
    requires other == scope ==> forall i :: 0 <= i < |entries| ==> entries[i].candidateId != id
    ensures Unused(Fold(st, scope, now, ttl, entries).0, other, id)
  {
    hide Unused;
    if entries != [] {
      var n := |entries| - 1;
      FoldKeepsUnused(st, scope, now, ttl, entries[..n], other, id);
      StepKeepsUnused(Fold(st, scope, now, ttl, entries[..n]).0, scope, now, ttl, entries[n], other, id);
    }
  }

  // ---------------------------------------------------------------------------
  // Values
  // ---------------------------------------------------------------------------

  /** The original value that an identity's live index entry leads to. */
  function StoredValue(st: Store, k: IndexName, now: int): Option<string> {
    if Reusable(st, k, now) then Some(st.records[(k.0, st.index[k].tokenId)].content.record.originalValue)
    else None
  }

  /** The value of the first entry with identity `k`. */
  function FirstValue(scope: Scope, entries: seq<BatchEntry>, k: IndexName): Option<string> {
    if entries == [] then None
    else
      var n := |entries| - 1;
      var earlier := FirstValue(scope, entries[..n], k);
      if earlier.Some? then earlier
      else if IndexOf(scope, entries[n]) == k then Some(entries[n].content.record.originalValue)
      else None
  }

  function OrElse(a: Option<string>, b: Option<string>): Option<string> {
    if a.Some? then a else b
  }

  /** Identity `k` has token `id`, good until `until`. */
  predicate Holds(st: Store, k: IndexName, id: string, until: int) {
    && k in st.index && st.index[k] == IndexCell(id, until)
    && (k.0, id) in st.records && st.records[(k.0, id)].expires == until
  }

  lemma StepHolds(st: Store, scope: Scope, now: int, ttl: int, e: BatchEntry)
    requires ttl > 0
    ensures var (after, reply) := GetOrCreate(st, scope, now, ttl, e);
            Holds(after, IndexOf(scope, e), reply.0, now + ttl)
            && StoredValue(after, IndexOf(scope, e), now)
            == OrElse(StoredValue(st, IndexOf(scope, e), now), Some(e.content.record.originalValue))
  {
  }

  lemma StepKeepsHolds(st: Store, scope: Scope, now: int, ttl: int, e: BatchEntry, k: IndexName, id: string)
    requires ttl > 0 && Holds(st, k, id, now + ttl)
    ensures Holds(GetOrCreate(st, scope, now, ttl, e).0, k, id, now + ttl)
  {
  }

  lemma StepKeepsValue(st: Store, scope: Scope, now: int, ttl: int, e: BatchEntry, k: IndexName)
    requires ttl > 0 && Unused(st, scope, e.candidateId) && k != IndexOf(scope, e)
    ensures StoredValue(GetOrCreate(st, scope, now, ttl, e).0, k, now) == StoredValue(st, k, now)
  {
  }

  /** After a batch every identity in it has the token it was answered with, good for a full TTL. */
  lemma {:induction false} FoldHolds(st: Store, scope: Scope, now: int, ttl: int, entries: seq<BatchEntry>, i: nat)
    requires ttl > 0 && i < |entries|
    ensures var (after, replies) := Fold(st, scope, now, ttl, entries);
            Holds(after, IndexOf(scope, entries[i]), replies[i].0, now + ttl)
  {
    hide Holds, GetOrCreate;
    var n := |entries| - 1;
    var front := entries[..n];
    var (before, earlier) := Fold(st, scope, now, ttl, front);
    if i == n {
      StepHolds(before, scope, now, ttl, entries[n]);
    } else {
      FoldHolds(st, scope, now, ttl, front, i);
      StepKeepsHolds(before, scope, now, ttl, entries[n], IndexOf(scope, entries[i]), earlier[i].0);
    }
  }

  /** And every identity, in the batch or not, stands for the first value the session stored for it. */
  lemma {:induction false} FoldStores(
    st: Store, scope: Scope, now: int, ttl: int, entries: seq<BatchEntry>, k: IndexName)
    requires ttl > 0 && LegalBatch(st, scope, entries)
    ensures StoredValue(Fold(st, scope, now, ttl, entries).0, k, now)
         == OrElse(StoredValue(st, k, now), FirstValue(scope, entries, k))
  {
    hide StoredValue, Unused, EntrySealed, GetOrCreate, Holds;
    if entries != [] {
      var n := |entries| - 1;
      var front := entries[..n];
      FoldStores(st, scope, now, ttl, front, k);
      var before := Fold(st, scope, now, ttl, front).0;
      var e := entries[n];
      StepHolds(before, scope, now, ttl, e);
      FoldKeepsUnused(st, scope, now, ttl, front, scope, e.candidateId);
      if k != IndexOf(scope, e) {
        StepKeepsValue(before, scope, now, ttl, e, k);
      }
    }
  }

  lemma ExpireMetaFrame(st: Store, scope: Scope, now: int, ttl: int)
    ensures ExpireMeta(st, scope, now, ttl).records == st.records
    ensures ExpireMeta(st, scope, now, ttl).index == st.index
  {
  }

  // ---------------------------------------------------------------------------
  // Resolving
  // ---------------------------------------------------------------------------

  /** Decryption of a stored record under the associated data its caller expects. */
  function Unseal(c: SealedRecord, aad: VaultAad): Option<VaultRecord> {
    if c.aad == aad then Some(c.record) else None
  }

  datatype Lookup = NotFound | Refused | Found(value: string)

  /** What one token resolves to. Anything that is not a token, or whose record is gone, is not
      found; a record that does not open, or names another token, fails the whole call. */
  function LookUp(st: Store, scope: Scope, now: int, token: string): Lookup {
    var parsed := Grammar.ParseToken(token);
    if parsed.None? then NotFound
    else
      var n := (scope, parsed.value.tokenId);
      if !RecordLive(st, n, now) then NotFound
      else
        var aad := VaultAad(scope.tenantId, scope.sessionId, parsed.value.entityType, parsed.value.tokenId);
        var record := Unseal(st.records[n].content, aad);
        if record.None? || record.value.token != token then Refused else Found(record.value.originalValue)
  }

  /** In a consistent store a token is refused exactly when its id is live under another type. */
  lemma RefusedIffOtherType(st: Store, scope: Scope, now: int, token: string)
    requires Consistent(st)
    ensures LookUp(st, scope, now, token).Refused? <==>
            var parsed := Grammar.ParseToken(token);
            parsed.Some? && RecordLive(st, (scope, parsed.value.tokenId), now)
            && st.records[(scope, parsed.value.tokenId)].content.record.entityType != parsed.value.entityType
  {
    hide Grammar.ParseToken, Grammar.FormatToken, Grammar.IsValidEntityType, Grammar.IsValidTokenId;
    var parsed := Grammar.ParseToken(token);
    if parsed.Some? && RecordLive(st, (scope, parsed.value.tokenId), now) {
      Grammar.ParseIffFormat(token, parsed.value);
      assert WellSealed((scope, parsed.value.tokenId), st.records[(scope, parsed.value.tokenId)].content);
    }
  }

  /** A token is found exactly when its own record is there under its type and has not expired. */
  lemma FoundIff(st: Store, scope: Scope, now: int, token: string, value: string)
    requires Consistent(st)
    ensures LookUp(st, scope, now, token) == Found(value) <==>
            var parsed := Grammar.ParseToken(token);
            parsed.Some?
            && var n := (scope, parsed.value.tokenId);
               n in st.records && st.records[n].expires > now
               && st.records[n].content.record.entityType == parsed.value.entityType
               && st.records[n].content.record.originalValue == value
    ensures LookUp(st, scope, now, token).NotFound? <==>
            var parsed := Grammar.ParseToken(token);
            parsed.None?
            || var n := (scope, parsed.value.tokenId); n !in st.records || st.records[n].expires <= now
  {
    hide Grammar.ParseToken, Grammar.FormatToken;
    RefusedIffOtherType(st, scope, now, token);
  }

  /** A token the vault hands out resolves, for a full TTL, to its identity's stored value. */
  lemma HeldTokenResolves(st: Store, k: IndexName, id: string, until: int, now: int, later: int)
    requires Consistent(st) && Holds(st, k, id, until) && now <= later < until
    ensures Grammar.FormatToken(k.1, id).Some?
    ensures StoredValue(st, k, now).Some?
    ensures LookUp(st, k.0, later, Grammar.FormatToken(k.1, id).value) == Found(StoredValue(st, k, now).value)
  {
    hide Grammar.ParseToken, Grammar.IsValidEntityType, Grammar.IsValidTokenId;
    assert LeadsToItsType(st, k);
    assert WellSealed((k.0, id), st.records[(k.0, id)].content);
    var token := Grammar.FormatToken(k.1, id).value;
    Grammar.ParseIffFormat(token, Grammar.Token(k.1, id));
  }

  // ---------------------------------------------------------------------------
  // Isolation
  // ---------------------------------------------------------------------------

  /** Everything the store holds for `scope` is the same in both. */
  ghost predicate SameSession(a: Store, b: Store, scope: Scope) {
    && (forall n: RecordName :: n.0 == scope ==> (n in a.records <==> n in b.records))
    && (forall n: RecordName :: n.0 == scope && n in a.records && n in b.records ==> a.records[n] == b.records[n])
    && (forall k: IndexName :: k.0 == scope ==> (k in a.index <==> k in b.index))
    && (forall k: IndexName :: k.0 == scope && k in a.index && k in b.index ==> a.index[k] == b.index[k])
    && (scope in a.meta <==> scope in b.meta)
    && (scope in a.meta && scope in b.meta ==> a.meta[scope] == b.meta[scope])
  }

  lemma StepIsolated(st: Store, scope: Scope, now: int, ttl: int, e: BatchEntry, other: Scope)
    requires other != scope
    ensures SameSession(st, GetOrCreate(st, scope, now, ttl, e).0, other)
  {
  }

  lemma SameSessionTransitive(a: Store, b: Store, c: Store, scope: Scope)
    requires SameSession(a, b, scope) && SameSession(b, c, scope)
    ensures SameSession(a, c, scope)
  {
  }

  lemma {:induction false} FoldIsolated(
    st: Store, scope: Scope, now: int, ttl: int, entries: seq<BatchEntry>, other: Scope)
    requires other != scope
    ensures SameSession(st, Fold(st, scope, now, ttl, entries).0, other)
  {
    hide SameSession, GetOrCreate;
    if entries == [] {
      SameSessionReflexive(st, other);
    } else {
      var n := |entries| - 1;
      var before := Fold(st, scope, now, ttl, entries[..n]).0;
      FoldIsolated(st, scope, now, ttl, entries[..n], other);
      StepIsolated(before, scope, now, ttl, entries[n], other);
      SameSessionTransitive(st, before, Fold(st, scope, now, ttl, entries).0, other);
    }
  }

  lemma SameSessionReflexive(st: Store, scope: Scope)
    ensures SameSession(st, st, scope)
  {
  }

  lemma ScriptIsolated(st: Store, scope: Scope, now: int, ttl: int, entries: seq<BatchEntry>, other: Scope)
    requires other != scope
    ensures SameSession(st, Script(st, scope, now, ttl, entries).0, other)
  {
    hide Fold;
    FoldIsolated(st, scope, now, ttl, entries, other);
  }

  lemma SameSessionLookUp(a: Store, b: Store, scope: Scope, now: int, token: string)
    requires SameSession(a, b, scope)
    ensures LookUp(a, scope, now, token) == LookUp(b, scope, now, token)
  {
    hide Grammar.ParseToken;
  }

  lemma DeletedIsolated(st: Store, scope: Scope, now: int, other: Scope)
    requires other != scope
    ensures SameSession(st, Deleted(st, scope, now).0, other)
  {
  }

  /** Writing or deleting in one session changes nothing another session can observe. */
  lemma SessionsIsolated(st: Store, scope: Scope, now: int, ttl: int, entries: seq<BatchEntry>, other: Scope,
                         token: string)
    requires other != scope
    ensures SameSession(st, Script(st, scope, now, ttl, entries).0, other)
    ensures SameSession(st, Deleted(st, scope, now).0, other)
    ensures LookUp(Script(st, scope, now, ttl, entries).0, other, now, token) == LookUp(st, other, now, token)
    ensures LookUp(Deleted(st, scope, now).0, other, now, token) == LookUp(st, other, now, token)
  {
    hide Script, Deleted, SameSession, LookUp;
    ScriptIsolated(st, scope, now, ttl, entries, other);
    DeletedIsolated(st, scope, now, other);
    SameSessionLookUp(st, Script(st, scope, now, ttl, entries).0, other, now, token);
    SameSessionLookUp(st, Deleted(st, scope, now).0, other, now, token);
  }

  /** A record still present after a batch holds what it held before it. */
  lemma {:induction false} ContentKept(st: Store, scope: Scope, now: int, ttl: int, entries: seq<BatchEntry>,
                                       n: RecordName)
    requires LegalBatch(st, scope, entries) && n in st.records
    ensures n in Fold(st, scope, now, ttl, entries).0.records
    ensures Fold(st, scope, now, ttl, entries).0.records[n].content == st.records[n].content
  {
    if entries != [] {
      var last := |entries| - 1;
      ContentKept(st, scope, now, ttl, entries[..last], n);
      assert Unused(st, scope, entries[last].candidateId);
    }
  }
}
