/** Expiry, the session's member set, and deletion, over whole runs of the vault. */
module VaultBookkeeping {
  import opened Wrappers
  import opened VaultKeys
  import opened RedisStore
  import opened VaultLaws

  // ---------------------------------------------------------------------------
  // An index key and its record live and die together
  // ---------------------------------------------------------------------------

  /** The record an index entry leads to exists, expires at the same moment, and is listed in the
      session's member set exactly when the index key is. */
  predicate PairedAt(st: Store, k: IndexName, now: int)
    requires k in st.index
  {
    var n := (k.0, st.index[k].tokenId);
    && n in st.records
    && st.records[n].expires == st.index[k].expires
    && (RecordKey(n.0, n.1) in Members(st, k.0, now) <==> IndexKey(k.0, k.1, k.2) in Members(st, k.0, now))
  }

  ghost predicate Paired(st: Store, now: int) {
    forall k :: IndexLive(st, k, now) ==> PairedAt(st, k, now)
  }

  /** No two live index entries lead to the same record. */
  ghost predicate OneOwner(st: Store, now: int) {
    forall k, l ::
      IndexLive(st, k, now) && IndexLive(st, l, now) && k.0 == l.0 && st.index[k].tokenId == st.index[l].tokenId
      ==> k == l
  }

  ghost predicate Bookkept(st: Store, now: int) {
    Paired(st, now) && OneOwner(st, now)
  }

  lemma ReuseBookkept(st: Store, now: int, ttl: int, k: IndexName)
    requires Bookkept(st, now) && Reusable(st, k, now)
    ensures Bookkept(Reuse(st, k, now, ttl), now)
  {
    var after := Reuse(st, k, now, ttl);
    assert PairedAt(st, k, now);
    forall l | IndexLive(after, l, now)
      ensures PairedAt(after, l, now) && IndexLive(st, l, now) && after.index[l].tokenId == st.index[l].tokenId
    {
      assert IndexLive(st, l, now);
      assert PairedAt(st, l, now);
    }
  }

  lemma MintBookkept(st: Store, scope: Scope, now: int, ttl: int, e: BatchEntry)
    requires Bookkept(st, now) && Unused(st, scope, e.candidateId) && ttl > 0
    ensures Bookkept(Mint(st, scope, now, ttl, e), now)
  {
    var after := Mint(st, scope, now, ttl, e);
    assert Members(after, scope, now)
        == Members(st, scope, now) + {RecordKey(scope, e.candidateId), IndexKey(scope, e.entityType, e.digest)};
    forall l | IndexLive(after, l, now)
      ensures PairedAt(after, l, now)
    {
      if l != IndexOf(scope, e) {
        assert PairedAt(st, l, now);
        if l.0 != scope {
          assert Members(after, l.0, now) == Members(st, l.0, now);
        }
      }
    }
  }

  lemma {:induction false} FoldBookkept(st: Store, scope: Scope, now: int, ttl: int, entries: seq<BatchEntry>)
    requires Bookkept(st, now) && LegalBatch(st, scope, entries) && ttl > 0
    ensures Bookkept(Fold(st, scope, now, ttl, entries).0, now)
  {
    hide Bookkept, Unused, EntrySealed, Reuse, Mint, Reusable;
    if entries != [] {
      var n := |entries| - 1;
      var before := Fold(st, scope, now, ttl, entries[..n]).0;
      FoldBookkept(st, scope, now, ttl, entries[..n]);
      FoldKeepsUnused(st, scope, now, ttl, entries[..n], scope, entries[n].candidateId);
      if Reusable(before, IndexOf(scope, entries[n]), now) {
        ReuseBookkept(before, now, ttl, IndexOf(scope, entries[n]));
      } else {
        MintBookkept(before, scope, now, ttl, entries[n]);
      }
    }
  }

  lemma ExpireMetaBookkept(st: Store, scope: Scope, now: int, ttl: int)
    requires Bookkept(st, now) && ttl > 0
    ensures Bookkept(ExpireMeta(st, scope, now, ttl), now)
  {
    var after := ExpireMeta(st, scope, now, ttl);
    forall s
      ensures Members(after, s, now) == Members(st, s, now)
    {
    }
    forall l | IndexLive(after, l, now)
      ensures PairedAt(after, l, now)
    {
      assert PairedAt(st, l, now);
    }
  }

  lemma DeletedBookkept(st: Store, scope: Scope, now: int)
    requires Bookkept(st, now)
    ensures Bookkept(Deleted(st, scope, now).0, now)
  {
    var after := Deleted(st, scope, now).0;
    forall l | IndexLive(after, l, now)
      ensures PairedAt(after, l, now) && IndexLive(st, l, now)
    {
      assert IndexLive(st, l, now);
      assert PairedAt(st, l, now);
      if l.0 != scope {
        assert Members(after, l.0, now) == Members(st, l.0, now);
      }
    }
  }

  /** Letting time pass only makes keys disappear; a member set that expires loses both twins. */
  lemma WaitBookkept(st: Store, now: int, later: int)
    requires Bookkept(st, now) && now <= later
    ensures Bookkept(st, later)
  {
    forall l | IndexLive(st, l, later)
      ensures PairedAt(st, l, later) && IndexLive(st, l, now)
    {
      assert IndexLive(st, l, now);
      assert PairedAt(st, l, now);
    }
  }

  // ---------------------------------------------------------------------------
  // Whole runs
  // ---------------------------------------------------------------------------

  datatype VaultOp =
    | WriteBatch(scope: Scope, ttl: int, entries: seq<BatchEntry>)
    | DeleteAll(scope: Scope)
    | Wait(until: int)

  ghost predicate LegalOp(st: Store, now: int, op: VaultOp) {
    match op
    case WriteBatch(scope, ttl, entries) => ttl > 0 && LegalBatch(st, scope, entries)
    case DeleteAll(_) => true
    case Wait(until) => now <= until
  }

  function Apply(st: Store, now: int, op: VaultOp): (Store, int) {
    match op
    case WriteBatch(scope, ttl, entries) => (Script(st, scope, now, ttl, entries).0, now)
    case DeleteAll(scope) => (Deleted(st, scope, now).0, now)
    case Wait(until) => (st, until)
  }

  function Run(st: Store, now: int, ops: seq<VaultOp>): (Store, int)
    decreases |ops|
  {
    if ops == [] then (st, now)
    else var (st', now') := Apply(st, now, ops[0]); Run(st', now', ops[1..])
  }

  ghost predicate LegalRun(st: Store, now: int, ops: seq<VaultOp>)
    decreases |ops|
  {
    ops == [] ||
    (LegalOp(st, now, ops[0])
     && var (st', now') := Apply(st, now, ops[0]); LegalRun(st', now', ops[1..]))
  }

  lemma DeletedConsistent(st: Store, scope: Scope, now: int)
    requires Consistent(st)
    ensures Consistent(Deleted(st, scope, now).0)
  {
    var after := Deleted(st, scope, now).0;
    forall k | k in after.index
      ensures LeadsToItsType(after, k)
    {
      assert LeadsToItsType(st, k);
    }
  }

  lemma ExpireMetaConsistent(st: Store, scope: Scope, now: int, ttl: int)
    requires Consistent(st)
    ensures Consistent(ExpireMeta(st, scope, now, ttl))
  {
    var after := ExpireMeta(st, scope, now, ttl);
    forall k | k in after.index
      ensures LeadsToItsType(after, k)
    {
      assert LeadsToItsType(st, k);
    }
  }

  lemma OpKeepsInvariants(st: Store, now: int, op: VaultOp)
    requires Consistent(st) && Bookkept(st, now) && LegalOp(st, now, op)
    ensures var (st', now') := Apply(st, now, op); Consistent(st') && Bookkept(st', now')
  {
    hide Consistent, Bookkept, Fold, Deleted, ExpireMeta, LegalBatch;
    match op
    case WriteBatch(scope, ttl, entries) =>
      FoldConsistent(st, scope, now, ttl, entries);
      FoldBookkept(st, scope, now, ttl, entries);
      var folded := Fold(st, scope, now, ttl, entries).0;
      ExpireMetaConsistent(folded, scope, now, ttl);
      ExpireMetaBookkept(folded, scope, now, ttl);
    case DeleteAll(scope) =>
      DeletedConsistent(st, scope, now);
      DeletedBookkept(st, scope, now);
    case Wait(until) =>
      WaitBookkept(st, now, until);
  }

  /** In every run of writes, deletions and waits over any sessions: index entries lead to records of
      their own type, and live or expire together with them. */
  lemma {:induction false} RunKeepsInvariants(st: Store, now: int, ops: seq<VaultOp>)
    requires Consistent(st) && Bookkept(st, now) && LegalRun(st, now, ops)
    ensures var (st', now') := Run(st, now, ops); Consistent(st') && Bookkept(st', now')
    decreases |ops|
  {
    hide Consistent, Bookkept, LegalOp, Apply;
    if ops != [] {
      OpKeepsInvariants(st, now, ops[0]);
      var (st', now') := Apply(st, now, ops[0]);
      RunKeepsInvariants(st', now', ops[1..]);
    }
  }

  lemma OpKeepsContent(st: Store, now: int, op: VaultOp, n: RecordName)
    requires LegalOp(st, now, op) && n in st.records
    ensures var after := Apply(st, now, op).0;
            n in after.records ==> after.records[n].content == st.records[n].content
    ensures op == DeleteAll(n.0) || n in Apply(st, now, op).0.records
  {
    hide Fold, LegalBatch;
    if op.WriteBatch? {
      ContentKept(st, op.scope, now, op.ttl, op.entries, n);
      ExpireMetaFrame(Fold(st, op.scope, now, op.ttl, op.entries).0, op.scope, now, op.ttl);
    }
  }

  /** Until its session is deleted, a record holds the first value stored in it, whatever any caller
      does in between. */
  lemma {:induction false} RunKeepsContent(st: Store, now: int, ops: seq<VaultOp>, n: RecordName)
    requires LegalRun(st, now, ops) && n in st.records
    requires forall i :: 0 <= i < |ops| ==> ops[i] != DeleteAll(n.0)
    ensures n in Run(st, now, ops).0.records
    ensures Run(st, now, ops).0.records[n].content == st.records[n].content
    decreases |ops|
  {
    hide LegalOp, Apply;
    if ops != [] {
      OpKeepsContent(st, now, ops[0], n);
      var (st', now') := Apply(st, now, ops[0]);
      RunKeepsContent(st', now', ops[1..], n);
    }
  }

  // ---------------------------------------------------------------------------
  // The member set and deletion
  // ---------------------------------------------------------------------------

  /** The member set lists a key and lives at least as long as it does. */
  predicate Outlives(st: Store, scope: Scope, now: int, key: Key, expires: int) {
    && key in Members(st, scope, now)
    && (st.meta[scope].expires.None? || st.meta[scope].expires.value >= expires)
  }

  ghost predicate Covered(st: Store, scope: Scope, now: int) {
    && (forall id :: RecordLive(st, (scope, id), now) ==>
          Outlives(st, scope, now, RecordKey(scope, id), st.records[(scope, id)].expires))
    && (forall t, d :: IndexLive(st, (scope, t, d), now) ==>
          Outlives(st, scope, now, IndexKey(scope, t, d), st.index[(scope, t, d)].expires))
  }

  /** Every live key of the session expires by `bound`. */
  ghost predicate ExpiresBy(st: Store, scope: Scope, now: int, bound: int) {
    && (forall id :: RecordLive(st, (scope, id), now) ==> st.records[(scope, id)].expires <= bound)
    && (forall t, d :: IndexLive(st, (scope, t, d), now) ==> st.index[(scope, t, d)].expires <= bound)
  }

  /** Every live key of the session is a member. */
  ghost predicate Listed(st: Store, scope: Scope, now: int) {
    && (forall id :: RecordLive(st, (scope, id), now) ==> RecordKey(scope, id) in Members(st, scope, now))
    && (forall t, d :: IndexLive(st, (scope, t, d), now) ==> IndexKey(scope, t, d) in Members(st, scope, now))
  }

  lemma StepListed(st: Store, scope: Scope, now: int, ttl: int, e: BatchEntry)
    requires Listed(st, scope, now) && ttl > 0
    ensures Listed(GetOrCreate(st, scope, now, ttl, e).0, scope, now)
    ensures MetaLive(st, scope, now) || !Reusable(st, IndexOf(scope, e), now)
    ensures MetaLive(GetOrCreate(st, scope, now, ttl, e).0, scope, now)
  {
    var k := IndexOf(scope, e);
    if Reusable(st, k, now) {
      assert IndexLive(st, (scope, e.entityType, e.digest), now);
      assert IndexKey(scope, e.entityType, e.digest) in Members(st, scope, now);
      var after := Reuse(st, k, now, ttl);
      assert Members(after, scope, now) == Members(st, scope, now);
    } else {
      var after := Mint(st, scope, now, ttl, e);
      assert Members(after, scope, now)
          == Members(st, scope, now) + {RecordKey(scope, e.candidateId), IndexKey(scope, e.entityType, e.digest)};
    }
  }

  lemma {:induction false} FoldListed(st: Store, scope: Scope, now: int, ttl: int, entries: seq<BatchEntry>)
    requires Listed(st, scope, now) && ttl > 0
    ensures Listed(Fold(st, scope, now, ttl, entries).0, scope, now)
    ensures entries != [] ==> MetaLive(Fold(st, scope, now, ttl, entries).0, scope, now)
  {
    hide Listed, GetOrCreate, MetaLive;
    if entries != [] {
      var n := |entries| - 1;
      FoldListed(st, scope, now, ttl, entries[..n]);
      StepListed(Fold(st, scope, now, ttl, entries[..n]).0, scope, now, ttl, entries[n]);
    }
  }

  lemma CoveredIsListed(st: Store, scope: Scope, now: int)
    requires Covered(st, scope, now)
    ensures Listed(st, scope, now)
  {
  }

  /** Which of the session's records a batch renews: those its entries' index keys lead to. */
  predicate Renews(st: Store, scope: Scope, now: int, entries: seq<BatchEntry>, id: string) {
    exists i :: 0 <= i < |entries|
      && Reusable(st, IndexOf(scope, entries[i]), now) && st.index[IndexOf(scope, entries[i])].tokenId == id
  }

  predicate Names(scope: Scope, entries: seq<BatchEntry>, k: IndexName) {
    exists i :: 0 <= i < |entries| && IndexOf(scope, entries[i]) == k
  }

  lemma SnocRenews(st: Store, scope: Scope, now: int, front: seq<BatchEntry>, e: BatchEntry, id: string)
    ensures Renews(st, scope, now, front + [e], id) <==>
            Renews(st, scope, now, front, id)
            || (Reusable(st, IndexOf(scope, e), now) && st.index[IndexOf(scope, e)].tokenId == id)
  {
    var all := front + [e];
    assert all[|front|] == e;
    if Renews(st, scope, now, front, id) {
      var i :| 0 <= i < |front| && Reusable(st, IndexOf(scope, front[i]), now)
            && st.index[IndexOf(scope, front[i])].tokenId == id;
      assert all[i] == front[i];
    }
    if Renews(st, scope, now, all, id) {
      var i :| 0 <= i < |all| && Reusable(st, IndexOf(scope, all[i]), now)
            && st.index[IndexOf(scope, all[i])].tokenId == id;
      assert i < |front| ==> front[i] == all[i];
    }
  }

  lemma SnocNames(scope: Scope, front: seq<BatchEntry>, e: BatchEntry, k: IndexName)
    ensures Names(scope, front + [e], k) <==> Names(scope, front, k) || IndexOf(scope, e) == k
  {
    var all := front + [e];
    assert all[|front|] == e;
    if Names(scope, front, k) {
      var i :| 0 <= i < |front| && IndexOf(scope, front[i]) == k;
      assert all[i] == front[i];
    }
    if Names(scope, all, k) {
      var i :| 0 <= i < |all| && IndexOf(scope, all[i]) == k;
      assert i < |front| ==> front[i] == all[i];
    }
  }

  /** What a batch does to the records that were there: renewed ones get a full TTL, the others keep
      their cell. Records that were not there are new, unrelated to any index entry of before. */
  ghost predicate RecordsTouched(st: Store, after: Store, scope: Scope, now: int, ttl: int, entries: seq<BatchEntry>) {
    && (forall id :: (scope, id) in st.records ==>
          (scope, id) in after.records
          && if Renews(st, scope, now, entries, id) then after.records[(scope, id)].expires == now + ttl
             else after.records[(scope, id)] == st.records[(scope, id)])
    && (forall id :: (scope, id) in after.records && (scope, id) !in st.records ==>
          after.records[(scope, id)].expires == now + ttl && Unused(st, scope, id))
  }

  /** And to the index: a named key gets a full TTL, keeping its record if it led to one and leading
      to a new record otherwise; other keys keep their cell. */
  ghost predicate IndexTouched(st: Store, after: Store, scope: Scope, now: int, ttl: int, entries: seq<BatchEntry>) {
    forall t, d ::
      var k := (scope, t, d);
      if Names(scope, entries, k) then
        k in after.index && after.index[k].expires == now + ttl
        && if Reusable(st, k, now) then after.index[k].tokenId == st.index[k].tokenId
           else (scope, after.index[k].tokenId) !in st.records
      else (k in after.index <==> k in st.index) && (k in st.index ==> after.index[k] == st.index[k])
  }

  /** An entry met in the middle of a batch: the record it reuses was either renewed already, is
      renewed now, or is new. */
  lemma ReusedIsRenewed(st: Store, before: Store, scope: Scope, now: int, ttl: int, front: seq<BatchEntry>,
                        e: BatchEntry)
    requires RecordsTouched(st, before, scope, now, ttl, front) && IndexTouched(st, before, scope, now, ttl, front)
    requires Reusable(before, IndexOf(scope, e), now)
    ensures var id := before.index[IndexOf(scope, e)].tokenId;
            (scope, id) in st.records ==> Renews(st, scope, now, front + [e], id)
    ensures Reusable(st, IndexOf(scope, e), now) ==>
            st.index[IndexOf(scope, e)].tokenId == before.index[IndexOf(scope, e)].tokenId
    ensures !Reusable(st, IndexOf(scope, e), now) ==>
            (scope, before.index[IndexOf(scope, e)].tokenId) !in st.records
  {
    hide Renews, Names;
    var k := (scope, e.entityType, e.digest);
    var id := before.index[k].tokenId;
    SnocRenews(st, scope, now, front, e, id);
    if Names(scope, front, k) {
      if Reusable(st, k, now) {
        assert st.index[k].tokenId == id;
      }
    } else {
      assert before.index[k] == st.index[k];
      if (scope, id) in st.records && !Renews(st, scope, now, front, id) {
        assert before.records[(scope, id)] == st.records[(scope, id)];
      }
      RenewedWasLive(st, scope, now, front, id);
    }
  }

  lemma RenewedWasLive(st: Store, scope: Scope, now: int, entries: seq<BatchEntry>, id: string)
    ensures Renews(st, scope, now, entries, id) ==> RecordLive(st, (scope, id), now)
  {
  }

  lemma ReuseTouches(st: Store, before: Store, scope: Scope, now: int, ttl: int, front: seq<BatchEntry>, e: BatchEntry)
    requires RecordsTouched(st, before, scope, now, ttl, front) && IndexTouched(st, before, scope, now, ttl, front)
    requires Reusable(before, IndexOf(scope, e), now)
    ensures RecordsTouched(st, Reuse(before, IndexOf(scope, e), now, ttl), scope, now, ttl, front + [e])
    ensures IndexTouched(st, Reuse(before, IndexOf(scope, e), now, ttl), scope, now, ttl, front + [e])
  {
    hide Renews, Names, Reusable, Reuse, Unused;
    var k := (scope, e.entityType, e.digest);
    ReuseEffect(before, k, now, ttl);
    ReusedIsRenewed(st, before, scope, now, ttl, front, e);
    forall id
      ensures Renews(st, scope, now, front, id) ==> Renews(st, scope, now, front + [e], id)
      ensures Renews(st, scope, now, front + [e], id) && !Renews(st, scope, now, front, id) ==>
              id == before.index[k].tokenId
    {
      SnocRenews(st, scope, now, front, e, id);
    }
    forall t, d
      ensures Names(scope, front + [e], (scope, t, d)) <==> Names(scope, front, (scope, t, d)) || k == (scope, t, d)
    {
      SnocNames(scope, front, e, (scope, t, d));
    }
  }

  lemma ReuseEffect(st: Store, k: IndexName, now: int, ttl: int)
    requires Reusable(st, k, now)
    ensures k in st.index && (k.0, st.index[k].tokenId) in st.records
    ensures var n := (k.0, st.index[k].tokenId);
            Reuse(st, k, now, ttl) ==
            Store(st.records[n := st.records[n].(expires := now + ttl)],
                  st.index[k := st.index[k].(expires := now + ttl)], st.meta)
  {
  }

  lemma MintTouches(st: Store, before: Store, scope: Scope, now: int, ttl: int, front: seq<BatchEntry>, e: BatchEntry)
    requires RecordsTouched(st, before, scope, now, ttl, front) && IndexTouched(st, before, scope, now, ttl, front)
    requires !Reusable(before, IndexOf(scope, e), now) && ttl > 0
    requires Unused(before, scope, e.candidateId) && Unused(st, scope, e.candidateId)
    ensures RecordsTouched(st, Mint(before, scope, now, ttl, e), scope, now, ttl, front + [e])
    ensures IndexTouched(st, Mint(before, scope, now, ttl, e), scope, now, ttl, front + [e])
  {
    hide Renews, Names;
    var k := (scope, e.entityType, e.digest);
    MintedWasNotReusable(st, before, scope, now, ttl, front, e);
    forall id
      ensures Renews(st, scope, now, front + [e], id) <==> Renews(st, scope, now, front, id)
    {
      SnocRenews(st, scope, now, front, e, id);
    }
    forall t, d
      ensures Names(scope, front + [e], (scope, t, d)) <==> Names(scope, front, (scope, t, d)) || k == (scope, t, d)
    {
      SnocNames(scope, front, e, (scope, t, d));
    }
  }

  /** What could be reused before the batch can be reused anywhere in it. */
  lemma MintedWasNotReusable(
    st: Store, before: Store, scope: Scope, now: int, ttl: int, front: seq<BatchEntry>, e: BatchEntry)
    requires RecordsTouched(st, before, scope, now, ttl, front) && IndexTouched(st, before, scope, now, ttl, front)
    requires ttl > 0 && !Reusable(before, IndexOf(scope, e), now)
    ensures !Reusable(st, IndexOf(scope, e), now)
  {
    hide Renews, Names, Unused;
    var k := (scope, e.entityType, e.digest);
    assert k in st.index ==> Names(scope, front, k) || before.index[k] == st.index[k];
  }

  lemma {:induction false} FoldTouches(st: Store, scope: Scope, now: int, ttl: int, entries: seq<BatchEntry>)
    requires LegalBatch(st, scope, entries) && ttl > 0
    ensures var after := Fold(st, scope, now, ttl, entries).0;
            RecordsTouched(st, after, scope, now, ttl, entries) && IndexTouched(st, after, scope, now, ttl, entries)
  {
    hide RecordsTouched, IndexTouched, Unused, EntrySealed, Reuse, Mint, Reusable;
    if entries == [] {
      NothingTouched(st, scope, now, ttl);
    } else {
      var n := |entries| - 1;
      var front, e := entries[..n], entries[n];
      FoldTouches(st, scope, now, ttl, front);
      FoldKeepsUnused(st, scope, now, ttl, front, scope, e.candidateId);
      assert entries == front + [e];
      var before := Fold(st, scope, now, ttl, front).0;
      if Reusable(before, IndexOf(scope, e), now) {
        ReuseTouches(st, before, scope, now, ttl, front, e);
      } else {
        MintTouches(st, before, scope, now, ttl, front, e);
      }
    }
  }

  ghost predicate DistinctNames(scope: Scope, entries: seq<BatchEntry>) {
    forall i, j :: 0 <= i < j < |entries| ==> IndexOf(scope, entries[i]) != IndexOf(scope, entries[j])
  }

  lemma ReusableStill(st: Store, before: Store, scope: Scope, now: int, ttl: int, front: seq<BatchEntry>, e: BatchEntry)
    requires RecordsTouched(st, before, scope, now, ttl, front) && IndexTouched(st, before, scope, now, ttl, front)
    requires ttl > 0 && forall i :: 0 <= i < |front| ==> IndexOf(scope, front[i]) != IndexOf(scope, e)
    ensures Reusable(before, IndexOf(scope, e), now) <==> Reusable(st, IndexOf(scope, e), now)
  {
    hide Renews;
    var k := (scope, e.entityType, e.digest);
    assert !Names(scope, front, k);
    if k in st.index {
      var id := st.index[k].tokenId;
      RenewedWasLive(st, scope, now, front, id);
    }
  }

  /** The flag of each reply says whether its identity was new: none of its records was there to reuse. */
  lemma {:induction false} CreatedIffNew(st: Store, scope: Scope, now: int, ttl: int, entries: seq<BatchEntry>, i: nat)
    requires LegalBatch(st, scope, entries) && ttl > 0 && DistinctNames(scope, entries) && i < |entries|
    ensures Fold(st, scope, now, ttl, entries).1[i].1 <==> !Reusable(st, IndexOf(scope, entries[i]), now)
  {
    hide RecordsTouched, IndexTouched, Unused, EntrySealed, Reuse, Mint, Reusable;
    var n := |entries| - 1;
    if i < n {
      CreatedIffNew(st, scope, now, ttl, entries[..n], i);
    } else {
      FoldTouches(st, scope, now, ttl, entries[..n]);
      ReusableStill(st, Fold(st, scope, now, ttl, entries[..n]).0, scope, now, ttl, entries[..n], entries[n]);
    }
  }

  /** The keys that a batch's replies say were created. */
  function CreatedKeys(scope: Scope, entries: seq<BatchEntry>, replies: seq<(string, bool)>): set<Key>
    requires |replies| == |entries|
  {
    (set i | 0 <= i < |entries| && replies[i].1 :: RecordKey(scope, replies[i].0))
    + set i | 0 <= i < |entries| && replies[i].1 :: IndexKey(scope, entries[i].entityType, entries[i].digest)
  }

  lemma CreatedSnoc(scope: Scope, entries: seq<BatchEntry>, replies: seq<(string, bool)>, e: BatchEntry,
                    reply: (string, bool))
    requires |replies| == |entries|
    ensures CreatedKeys(scope, entries + [e], replies + [reply]) == CreatedKeys(scope, entries, replies)
          + if reply.1 then {RecordKey(scope, reply.0), IndexKey(scope, e.entityType, e.digest)} else {}
  {
    var all, answers := entries + [e], replies + [reply];
    assert forall i :: 0 <= i < |entries| ==> all[i] == entries[i] && answers[i] == replies[i];
    assert all[|entries|] == e && answers[|entries|] == reply;
  }

  /** The member set grows by the keys created, and by nothing else. */
  lemma {:induction false} FoldMembersExact(st: Store, scope: Scope, now: int, ttl: int, entries: seq<BatchEntry>)
    ensures var (after, replies) := Fold(st, scope, now, ttl, entries);
            Members(after, scope, now) == Members(st, scope, now) + CreatedKeys(scope, entries, replies)
  {
    hide CreatedKeys, GetOrCreate, Members;
    if entries == [] {
      NothingCreated(scope);
    } else {
      var n := |entries| - 1;
      FoldMembersExact(st, scope, now, ttl, entries[..n]);
      var (before, replies) := Fold(st, scope, now, ttl, entries[..n]);
      StepMembers(before, scope, now, ttl, entries[n]);
      assert entries == entries[..n] + [entries[n]];
      CreatedSnoc(scope, entries[..n], replies, entries[n], GetOrCreate(before, scope, now, ttl, entries[n]).1);
    }
  }

  lemma NothingCreated(scope: Scope)
    ensures CreatedKeys(scope, [], []) == {}
  {
  }

  lemma StepMembers(st: Store, scope: Scope, now: int, ttl: int, e: BatchEntry)
    ensures var (after, reply) := GetOrCreate(st, scope, now, ttl, e);
            Members(after, scope, now) == Members(st, scope, now)
            + if reply.1 then {RecordKey(scope, reply.0), IndexKey(scope, e.entityType, e.digest)} else {}
  {
    hide Reusable;
    var k := IndexOf(scope, e);
    if Reusable(st, k, now) {
      ReuseEffect(st, k, now, ttl);
    }
  }

  lemma NothingTouched(st: Store, scope: Scope, now: int, ttl: int)
    ensures RecordsTouched(st, st, scope, now, ttl, []) && IndexTouched(st, st, scope, now, ttl, [])
  {
  }

  /** Every live key that the batch does not renew expires by `bound`. */
  ghost predicate OthersExpireBy(st: Store, scope: Scope, now: int, entries: seq<BatchEntry>, bound: int) {
    && (forall id :: RecordLive(st, (scope, id), now) && !Renews(st, scope, now, entries, id) ==>
          st.records[(scope, id)].expires <= bound)
    && (forall t, d :: IndexLive(st, (scope, t, d), now) && !Names(scope, entries, (scope, t, d)) ==>
          st.index[(scope, t, d)].expires <= bound)
  }

  lemma AfterExpiresByIff(st: Store, after: Store, scope: Scope, now: int, ttl: int, entries: seq<BatchEntry>)
    requires RecordsTouched(st, after, scope, now, ttl, entries) && IndexTouched(st, after, scope, now, ttl, entries)
    requires ttl > 0
    ensures ExpiresBy(after, scope, now, now + ttl) <==> OthersExpireBy(st, scope, now, entries, now + ttl)
  {
    hide Renews, Names, Unused;
    if ExpiresBy(after, scope, now, now + ttl) {
      forall id | RecordLive(st, (scope, id), now) && !Renews(st, scope, now, entries, id)
        ensures st.records[(scope, id)].expires <= now + ttl
      {
        assert after.records[(scope, id)] == st.records[(scope, id)];
        assert RecordLive(after, (scope, id), now);
      }
      forall t, d | IndexLive(st, (scope, t, d), now) && !Names(scope, entries, (scope, t, d))
        ensures st.index[(scope, t, d)].expires <= now + ttl
      {
        assert after.index[(scope, t, d)] == st.index[(scope, t, d)];
        assert IndexLive(after, (scope, t, d), now);
      }
    }
    if OthersExpireBy(st, scope, now, entries, now + ttl) {
      forall id | RecordLive(after, (scope, id), now)
        ensures after.records[(scope, id)].expires <= now + ttl
      {
        if (scope, id) in st.records && !Renews(st, scope, now, entries, id) {
          assert RecordLive(st, (scope, id), now);
        }
      }
      forall t, d | IndexLive(after, (scope, t, d), now)
        ensures after.index[(scope, t, d)].expires <= now + ttl
      {
        if !Names(scope, entries, (scope, t, d)) {
          assert IndexLive(st, (scope, t, d), now);
        }
      }
    }
  }

  lemma CoveredAfterExpire(folded: Store, scope: Scope, now: int, ttl: int)
    requires Listed(folded, scope, now) && ttl > 0
    ensures Covered(ExpireMeta(folded, scope, now, ttl), scope, now) <==> ExpiresBy(folded, scope, now, now + ttl)
  {
    var after := ExpireMeta(folded, scope, now, ttl);
    assert Members(after, scope, now) == Members(folded, scope, now);
    assert forall id :: RecordLive(after, (scope, id), now) <==> RecordLive(folded, (scope, id), now);
    assert forall t, d :: IndexLive(after, (scope, t, d), now) <==> IndexLive(folded, (scope, t, d), now);
  }

  /** The member set covers the session after a write exactly when every live key the write does not
      renew expires no later than the write's own keys. A caller that always uses one TTL, or never
      writes with a shorter remaining one, meets this. */
  lemma WriteKeepsCoveredIff(st: Store, scope: Scope, now: int, ttl: int, entries: seq<BatchEntry>)
    requires Covered(st, scope, now) && LegalBatch(st, scope, entries) && ttl > 0
    ensures Covered(Script(st, scope, now, ttl, entries).0, scope, now)
       <==> OthersExpireBy(st, scope, now, entries, now + ttl)
  {
    hide Fold, Covered, Listed, ExpiresBy, OthersExpireBy, RecordsTouched, IndexTouched, LegalBatch, ExpireMeta;
    CoveredIsListed(st, scope, now);
    FoldListed(st, scope, now, ttl, entries);
    FoldTouches(st, scope, now, ttl, entries);
    var folded := Fold(st, scope, now, ttl, entries).0;
    AfterExpiresByIff(st, folded, scope, now, ttl, entries);
    CoveredAfterExpire(folded, scope, now, ttl);
  }

  /** The member set, while it lives, expires by `bound`. */
  predicate SetExpiresBy(st: Store, scope: Scope, now: int, bound: int) {
    MetaLive(st, scope, now) ==> st.meta[scope].expires.Some? && st.meta[scope].expires.value <= bound
  }

  /** A write that does not move the member set's expiry backwards keeps the session covered. */
  lemma ForwardWriteKeepsCovered(st: Store, scope: Scope, now: int, ttl: int, entries: seq<BatchEntry>)
    requires Covered(st, scope, now) && LegalBatch(st, scope, entries) && ttl > 0
    requires SetExpiresBy(st, scope, now, now + ttl)
    ensures Covered(Script(st, scope, now, ttl, entries).0, scope, now)
  {
    hide Script, LegalBatch, Renews, Names;
    WriteKeepsCoveredIff(st, scope, now, ttl, entries);
    forall id | RecordLive(st, (scope, id), now)
      ensures st.records[(scope, id)].expires <= now + ttl
    {
      assert Outlives(st, scope, now, RecordKey(scope, id), st.records[(scope, id)].expires);
    }
    forall t, d | IndexLive(st, (scope, t, d), now)
      ensures st.index[(scope, t, d)].expires <= now + ttl
    {
      assert Outlives(st, scope, now, IndexKey(scope, t, d), st.index[(scope, t, d)].expires);
    }
  }

  /** A covered session stays covered while time passes. */
  lemma WaitKeepsCovered(st: Store, scope: Scope, now: int, later: int)
    requires Covered(st, scope, now) && now <= later
    ensures Covered(st, scope, later)
  {
    forall id | RecordLive(st, (scope, id), later)
      ensures Outlives(st, scope, later, RecordKey(scope, id), st.records[(scope, id)].expires)
    {
      assert RecordLive(st, (scope, id), now);
    }
    forall t, d | IndexLive(st, (scope, t, d), later)
      ensures Outlives(st, scope, later, IndexKey(scope, t, d), st.index[(scope, t, d)].expires)
    {
      assert IndexLive(st, (scope, t, d), now);
    }
  }

  ghost predicate NothingLive(st: Store, scope: Scope, now: int) {
    && (forall id :: !RecordLive(st, (scope, id), now))
    && (forall t, d :: !IndexLive(st, (scope, t, d), now))
    && !MetaLive(st, scope, now)
  }

  function LiveRecords(st: Store, scope: Scope, now: int): set<Key> {
    set n | n in st.records && n.0 == scope && RecordLive(st, n, now) :: RecordKey(n.0, n.1)
  }

  /** Every live key of the session is among those read. */
  ghost predicate ListedIn(st: Store, scope: Scope, members: set<Key>, now: int) {
    && (forall id :: RecordLive(st, (scope, id), now) ==> RecordKey(scope, id) in members)
    && (forall t, d :: IndexLive(st, (scope, t, d), now) ==> IndexKey(scope, t, d) in members)
  }

  /** The deleting transaction leaves nothing of the session live exactly when every key then live is
      among the members read before it, whenever that was; the number it reports is then the number of
      live records. */
  lemma DeletionCompleteIff(st: Store, scope: Scope, members: set<Key>, now: int)
    ensures NothingLive(DeletedOf(st, scope, members, now).0, scope, now) <==> ListedIn(st, scope, members, now)
    ensures ListedIn(st, scope, members, now) ==>
              DeletedOf(st, scope, members, now).1 == |LiveRecords(st, scope, now)|
  {
    var after := DeletedOf(st, scope, members, now).0;
    if NothingLive(after, scope, now) {
      forall id | RecordLive(st, (scope, id), now)
        ensures RecordKey(scope, id) in members
      {
        assert !RecordLive(after, (scope, id), now);
      }
      forall t, d | IndexLive(st, (scope, t, d), now)
        ensures IndexKey(scope, t, d) in members
      {
        assert !IndexLive(after, (scope, t, d), now);
      }
    }
    if ListedIn(st, scope, members, now) {
      var found := set k | k in members && k.RecordKey? && k.scope == scope && RecordLive(st, (scope, k.tokenId), now);
      forall k
        ensures k in found <==> k in LiveRecords(st, scope, now)
      {
        assert k.RecordKey? && k.scope == scope && RecordLive(st, (scope, k.tokenId), now) ==>
            (scope, k.tokenId) in st.records;
      }
      assert found == LiveRecords(st, scope, now);
    }
  }

  /** Whatever was read, the number reported is the number of live records that the transaction removes. */
  lemma DeletionCounts(st: Store, scope: Scope, members: set<Key>, now: int)
    ensures var (after, deleted) := DeletedOf(st, scope, members, now);
            |LiveRecords(st, scope, now)| == deleted + |LiveRecords(after, scope, now)|
  {
    var (after, deleted) := DeletedOf(st, scope, members, now);
    var found := set k | k in members && k.RecordKey? && k.scope == scope && RecordLive(st, (scope, k.tokenId), now);
    var left := LiveRecords(after, scope, now);
    forall k
      ensures k in LiveRecords(st, scope, now) <==> k in found || k in left
      ensures !(k in found && k in left)
    {
      assert k.RecordKey? && k.scope == scope && RecordLive(st, (scope, k.tokenId), now) ==>
          (scope, k.tokenId) in st.records;
    }
    assert LiveRecords(st, scope, now) == found + left && found !! left;
  }

  lemma ListedDeletes(st: Store, scope: Scope, now: int)
    ensures Listed(st, scope, now) <==> NothingLive(Deleted(st, scope, now).0, scope, now)
    ensures Listed(st, scope, now) ==> Deleted(st, scope, now).1 == |LiveRecords(st, scope, now)|
  {
    hide NothingLive, DeletedOf;
    DeletionCompleteIff(st, scope, Members(st, scope, now), now);
  }

  /** A new identity written between the two round trips of a deletion is left behind, and with the
      member set gone no later deletion finds it. */
  lemma WriteDuringDeletionSurvives(st: Store, scope: Scope, members: set<Key>, now: int, ttl: int, e: BatchEntry,
                                    later: int)
    requires ttl > 0 && !Reusable(st, IndexOf(scope, e), now) && RecordKey(scope, e.candidateId) !in members
    requires now <= later < now + ttl
    ensures var left := DeletedOf(Script(st, scope, now, ttl, [e]).0, scope, members, now).0;
            Deleted(left, scope, later).1 == 0
            && RecordLive(Deleted(left, scope, later).0, (scope, e.candidateId), later)
  {
    var folded := Fold(st, scope, now, ttl, [e]).0;
    assert [e][..0] == [];
    assert Fold(st, scope, now, ttl, [e][..0]).0 == st;
    assert folded == Mint(st, scope, now, ttl, e);
    var left := DeletedOf(Script(st, scope, now, ttl, [e]).0, scope, members, now).0;
    assert Members(left, scope, later) == {};
  }

  /** The failing family: after a write with a shorter remaining TTL, a record it did not renew
      survives the member set, and from then on deleting the session reports nothing and leaves the
      record in place. */
  lemma ShorterTtlOrphans(st: Store, scope: Scope, now: int, ttl: int, entries: seq<BatchEntry>, id: string, later: int)
    requires LegalBatch(st, scope, entries) && ttl > 0 && Listed(st, scope, now)
    requires RecordLive(st, (scope, id), now) && !Renews(st, scope, now, entries, id)
    requires now + ttl <= later < st.records[(scope, id)].expires
    ensures var after := Script(st, scope, now, ttl, entries).0;
            Deleted(after, scope, later).1 == 0
            && RecordLive(Deleted(after, scope, later).0, (scope, id), later)
  {
    hide Fold, Listed, IndexTouched, LegalBatch, Renews, Unused;
    FoldTouches(st, scope, now, ttl, entries);
    FoldListed(st, scope, now, ttl, entries);
    var after := Script(st, scope, now, ttl, entries).0;
    assert after.records[(scope, id)] == st.records[(scope, id)];
    assert !MetaLive(after, scope, later);
  }

  // ---------------------------------------------------------------------------
  // Covered over whole runs
  // ---------------------------------------------------------------------------

  /** At each of the session's own writes along a run, every live key the write does not renew
      expires no later than the write's own keys. */
  ghost predicate WritesKeepUp(st: Store, now: int, ops: seq<VaultOp>, scope: Scope)
    decreases |ops|
  {
    ops == [] ||
    ((ops[0].WriteBatch? && ops[0].scope == scope ==>
        OthersExpireBy(st, scope, now, ops[0].entries, now + ops[0].ttl))
     && var (st', now') := Apply(st, now, ops[0]); WritesKeepUp(st', now', ops[1..], scope))
  }

  ghost predicate CoveredThroughout(st: Store, now: int, ops: seq<VaultOp>, scope: Scope)
    decreases |ops|
  {
    Covered(st, scope, now)
    && (ops == [] || var (st', now') := Apply(st, now, ops[0]); CoveredThroughout(st', now', ops[1..], scope))
  }

  lemma OtherSessionCovered(st: Store, after: Store, scope: Scope, now: int)
    requires Covered(st, scope, now) && SameSession(st, after, scope)
    ensures Covered(after, scope, now)
  {
    assert Members(st, scope, now) == Members(after, scope, now);
    forall id | RecordLive(after, (scope, id), now)
      ensures Outlives(after, scope, now, RecordKey(scope, id), after.records[(scope, id)].expires)
    {
      assert RecordLive(st, (scope, id), now);
    }
    forall t, d | IndexLive(after, (scope, t, d), now)
      ensures Outlives(after, scope, now, IndexKey(scope, t, d), after.index[(scope, t, d)].expires)
    {
      assert IndexLive(st, (scope, t, d), now);
    }
  }

  lemma NothingLiveCovered(st: Store, scope: Scope, now: int)
    requires NothingLive(st, scope, now)
    ensures Covered(st, scope, now)
  {
  }

  lemma OpKeepsCoveredIff(st: Store, now: int, op: VaultOp, scope: Scope)
    requires Covered(st, scope, now) && LegalOp(st, now, op)
    ensures var (st', now') := Apply(st, now, op);
            Covered(st', scope, now') <==>
            (op.WriteBatch? && op.scope == scope ==> OthersExpireBy(st, scope, now, op.entries, now + op.ttl))
  {
    hide Covered, Script, Deleted, LegalBatch, SameSession, NothingLive, OthersExpireBy, Listed;
    match op
    case WriteBatch(s, ttl, entries) =>
      if s == scope {
        WriteKeepsCoveredIff(st, scope, now, ttl, entries);
      } else {
        ScriptIsolated(st, s, now, ttl, entries, scope);
        OtherSessionCovered(st, Script(st, s, now, ttl, entries).0, scope, now);
      }
    case DeleteAll(s) =>
      if s == scope {
        CoveredIsListed(st, scope, now);
        ListedDeletes(st, scope, now);
        NothingLiveCovered(Deleted(st, scope, now).0, scope, now);
      } else {
        DeletedIsolated(st, s, now, scope);
        OtherSessionCovered(st, Deleted(st, s, now).0, scope, now);
      }
    case Wait(until) =>
      WaitKeepsCovered(st, scope, now, until);
  }

  /** Along any run over any sessions, a session stays covered exactly when each of its own writes
      keeps up with the keys it does not renew. */
  lemma {:induction false} RunCoveredIff(st: Store, now: int, ops: seq<VaultOp>, scope: Scope)
    requires Covered(st, scope, now) && LegalRun(st, now, ops)
    ensures CoveredThroughout(st, now, ops, scope) <==> WritesKeepUp(st, now, ops, scope)
    decreases |ops|
  {
    hide Covered, Apply, LegalOp, OthersExpireBy;
    if ops != [] {
      var (st', now') := Apply(st, now, ops[0]);
      OpKeepsCoveredIff(st, now, ops[0], scope);
      if Covered(st', scope, now') {
        RunCoveredIff(st', now', ops[1..], scope);
      } else {
        assert !CoveredThroughout(st', now', ops[1..], scope);
      }
    }
  }

  /** A session covered throughout a run can be deleted completely at its end, and the number
      reported is the number of its live records. */
  lemma {:induction false} CoveredRunDeletes(st: Store, now: int, ops: seq<VaultOp>, scope: Scope)
    requires CoveredThroughout(st, now, ops, scope)
    ensures var (st', now') := Run(st, now, ops);
            NothingLive(Deleted(st', scope, now').0, scope, now')
            && Deleted(st', scope, now').1 == |LiveRecords(st', scope, now')|
    decreases |ops|
  {
    hide Covered, Apply, NothingLive, Deleted, LiveRecords, Listed;
    if ops == [] {
      CoveredIsListed(st, scope, now);
      ListedDeletes(st, scope, now);
    } else {
      var (st', now') := Apply(st, now, ops[0]);
      CoveredRunDeletes(st', now', ops[1..], scope);
    }
  }

  /** None of the session's own writes moves the member set's expiry backwards. */
  ghost predicate NeverShortens(st: Store, now: int, ops: seq<VaultOp>, scope: Scope)
    decreases |ops|
  {
    ops == [] ||
    ((ops[0].WriteBatch? && ops[0].scope == scope ==> SetExpiresBy(st, scope, now, now + ops[0].ttl))
     && var (st', now') := Apply(st, now, ops[0]); NeverShortens(st', now', ops[1..], scope))
  }

  /** Whatever TTLs its callers choose, a session whose expiry they never move backwards stays
      covered, so deleting it at any point leaves nothing behind. */
  lemma {:induction false} ForwardRunCovered(st: Store, now: int, ops: seq<VaultOp>, scope: Scope)
    requires Covered(st, scope, now) && LegalRun(st, now, ops) && NeverShortens(st, now, ops, scope)
    ensures CoveredThroughout(st, now, ops, scope)
    decreases |ops|
  {
    hide Covered, LegalBatch, Script, Deleted, SetExpiresBy, OthersExpireBy;
    if ops != [] {
      var (st', now') := Apply(st, now, ops[0]);
      if ops[0].WriteBatch? && ops[0].scope == scope {
        ForwardWriteKeepsCovered(st, scope, now, ops[0].ttl, ops[0].entries);
      } else {
        OpKeepsCoveredIff(st, now, ops[0], scope);
      }
      ForwardRunCovered(st', now', ops[1..], scope);
    }
  }

  // ---------------------------------------------------------------------------
  // One TTL per session
  // ---------------------------------------------------------------------------

  lemma OpKeepsSetExpiry(st: Store, now: int, op: VaultOp, scope: Scope, ttl: int)
    requires SetExpiresBy(st, scope, now, now + ttl) && LegalOp(st, now, op)
    requires op.WriteBatch? && op.scope == scope ==> op.ttl == ttl
    ensures var (st', now') := Apply(st, now, op); SetExpiresBy(st', scope, now', now' + ttl)
  {
    hide Fold, LegalBatch;
    match op
    case WriteBatch(s, t, entries) =>
      if s != scope {
        ScriptIsolated(st, s, now, t, entries, scope);
      }
    case DeleteAll(_) =>
    case Wait(_) =>
  }

  ghost predicate UsesOneTtl(ops: seq<VaultOp>, scope: Scope, ttl: int) {
    forall i :: 0 <= i < |ops| && ops[i].WriteBatch? && ops[i].scope == scope ==> ops[i].ttl == ttl
  }

  lemma {:induction false} OneTtlNeverShortens(st: Store, now: int, ops: seq<VaultOp>, scope: Scope, ttl: int)
    requires SetExpiresBy(st, scope, now, now + ttl) && LegalRun(st, now, ops) && UsesOneTtl(ops, scope, ttl)
    ensures NeverShortens(st, now, ops, scope)
    decreases |ops|
  {
    hide SetExpiresBy, Apply, LegalOp;
    if ops != [] {
      var (st', now') := Apply(st, now, ops[0]);
      OpKeepsSetExpiry(st, now, ops[0], scope, ttl);
      assert forall i :: 0 <= i < |ops[1..]| ==> ops[1..][i] == ops[i + 1];
      OneTtlNeverShortens(st', now', ops[1..], scope, ttl);
    }
  }

  /** In particular a session whose writes all use one TTL. */
  lemma OneTtlRunDeletes(st: Store, now: int, ops: seq<VaultOp>, scope: Scope, ttl: int)
    requires Covered(st, scope, now) && SetExpiresBy(st, scope, now, now + ttl)
    requires LegalRun(st, now, ops) && UsesOneTtl(ops, scope, ttl)
    ensures var (st', now') := Run(st, now, ops);
            NothingLive(Deleted(st', scope, now').0, scope, now')
            && Deleted(st', scope, now').1 == |LiveRecords(st', scope, now')|
  {
    hide Covered, SetExpiresBy, LegalRun, UsesOneTtl, NeverShortens, CoveredThroughout, Run, Deleted, NothingLive;
    OneTtlNeverShortens(st, now, ops, scope, ttl);
    ForwardRunCovered(st, now, ops, scope);
    CoveredRunDeletes(st, now, ops, scope);
  }
}
