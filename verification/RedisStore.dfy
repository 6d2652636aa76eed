/** The vault's part of Redis, and the batch script as one atomic step over it.

    The three key families of `VaultKeys` never share a name, so each is a map of its own. A key is
    present while its expiry lies in the future; cells that have expired may linger here but no
    command sees them. AES-GCM is ideal: a sealed record opens only under its own associated data. */
module RedisStore {
  import opened Wrappers
  import opened VaultKeys
  import opened VaultEnvelope
  import Grammar = TokenGrammar

  datatype VaultRecord = VaultRecord(scope: Scope, token: string, entityType: string, originalValue: string)

  datatype SealedRecord = SealedRecord(aad: VaultAad, record: VaultRecord)

  datatype RecordCell = RecordCell(content: SealedRecord, expires: int)
  datatype IndexCell = IndexCell(tokenId: string, expires: int)
  /** A set created by SADD has no expiry until EXPIRE gives it one. */
  datatype MetaCell = MetaCell(members: set<Key>, expires: Option<int>)

  type RecordName = (Scope, string)
  type IndexName = (Scope, string, string)

  datatype Store = Store(
    records: map<RecordName, RecordCell>,
    index: map<IndexName, IndexCell>,
    meta: map<Scope, MetaCell>)

  // ---------------------------------------------------------------------------
  // Commands
  // ---------------------------------------------------------------------------

  /** EXISTS */
  predicate RecordLive(st: Store, k: RecordName, now: int) {
    k in st.records && st.records[k].expires > now
  }

  predicate IndexLive(st: Store, k: IndexName, now: int) {
    k in st.index && st.index[k].expires > now
  }

  predicate MetaLive(st: Store, scope: Scope, now: int) {
    scope in st.meta && (st.meta[scope].expires.None? || st.meta[scope].expires.value > now)
  }

  /** SMEMBERS */
  function Members(st: Store, scope: Scope, now: int): set<Key> {
    if MetaLive(st, scope, now) then st.meta[scope].members else {}
  }

  /** SADD: an expired set starts afresh, a live one keeps its expiry. */
  function AddMember(st: Store, scope: Scope, member: Key, now: int): Store {
    var cell := if MetaLive(st, scope, now) then st.meta[scope] else MetaCell({}, None);
    st.(meta := st.meta[scope := cell.(members := cell.members + {member})])
  }

  /** EXPIRE on the meta set; nothing when it does not exist. */
  function ExpireMeta(st: Store, scope: Scope, now: int, ttl: int): Store {
    if MetaLive(st, scope, now) then
      st.(meta := st.meta[scope := st.meta[scope].(expires := Some(now + ttl))])
    else st
  }

  function ExpireIndex(st: Store, k: IndexName, now: int, ttl: int): Store {
    if IndexLive(st, k, now) then st.(index := st.index[k := st.index[k].(expires := now + ttl)]) else st
  }

  function ExpireRecord(st: Store, k: RecordName, now: int, ttl: int): Store {
    if RecordLive(st, k, now) then st.(records := st.records[k := st.records[k].(expires := now + ttl)]) else st
  }

  // ---------------------------------------------------------------------------
  // The batch script
  // ---------------------------------------------------------------------------

  /** One unique entry: the parts of its index key, and the candidate record to store if needed. */
  datatype BatchEntry = BatchEntry(entityType: string, digest: string, candidateId: string, content: SealedRecord)

  /** The vault checks these before any field becomes part of a key name. */
  predicate ValidEntry(e: BatchEntry) {
    Grammar.IsValidEntityType(e.entityType) && IsDigest(e.digest) && Grammar.IsValidTokenId(e.candidateId)
  }

  ghost predicate ValidMembers(st: Store) {
    forall scope, k :: scope in st.meta && k in st.meta[scope].members ==> ValidKey(k)
  }

  function IndexOf(scope: Scope, e: BatchEntry): IndexName {
    (scope, e.entityType, e.digest)
  }

  /** The index entry of `k` leads to a record that still exists. */
  predicate Reusable(st: Store, k: IndexName, now: int) {
    IndexLive(st, k, now) && RecordLive(st, (k.0, st.index[k].tokenId), now)
  }

  function Reuse(st: Store, k: IndexName, now: int, ttl: int): Store
    requires Reusable(st, k, now)
  {
    ExpireRecord(ExpireIndex(st, k, now, ttl), (k.0, st.index[k].tokenId), now, ttl)
  }

  function Mint(st: Store, scope: Scope, now: int, ttl: int, e: BatchEntry): Store {
    var stored := st.(
      records := st.records[(scope, e.candidateId) := RecordCell(e.content, now + ttl)],
      index := st.index[IndexOf(scope, e) := IndexCell(e.candidateId, now + ttl)]);
    AddMember(AddMember(stored, scope, RecordKey(scope, e.candidateId), now),
              scope, IndexKey(scope, e.entityType, e.digest), now)
  }

  /** Reuse the record an entry's index key leads to, or store its candidate. Returns the token id
      and whether it was created. */
  function GetOrCreate(st: Store, scope: Scope, now: int, ttl: int, e: BatchEntry): (Store, (string, bool)) {
    var k := IndexOf(scope, e);
    if Reusable(st, k, now) then (Reuse(st, k, now, ttl), (st.index[k].tokenId, false))
    else (Mint(st, scope, now, ttl, e), (e.candidateId, true))
  }

  /** One entry after another. */
  function Fold(st: Store, scope: Scope, now: int, ttl: int, entries: seq<BatchEntry>)
    : (r: (Store, seq<(string, bool)>))
    ensures |r.1| == |entries|
  {
    if entries == [] then (st, [])
    else
      var n := |entries| - 1;
      var (before, replies) := Fold(st, scope, now, ttl, entries[..n]);
      var (after, reply) := GetOrCreate(before, scope, now, ttl, entries[n]);
      (after, replies + [reply])
  }

  function Script(st: Store, scope: Scope, now: int, ttl: int, entries: seq<BatchEntry>): (Store, seq<(string, bool)>) {
    var (folded, replies) := Fold(st, scope, now, ttl, entries);
    (ExpireMeta(folded, scope, now, ttl), replies)
  }

  lemma GetOrCreateMembers(st: Store, scope: Scope, now: int, ttl: int, e: BatchEntry)
    requires ValidMembers(st) && ValidEntry(e)
    ensures ValidMembers(GetOrCreate(st, scope, now, ttl, e).0)
  {
  }

  lemma {:induction false} FoldMembers(st: Store, scope: Scope, now: int, ttl: int, entries: seq<BatchEntry>)
    requires ValidMembers(st) && forall i :: 0 <= i < |entries| ==> ValidEntry(entries[i])
    ensures ValidMembers(Script(st, scope, now, ttl, entries).0)
    ensures ValidMembers(Fold(st, scope, now, ttl, entries).0)
  {
    if entries != [] {
      var n := |entries| - 1;
      FoldMembers(st, scope, now, ttl, entries[..n]);
      GetOrCreateMembers(Fold(st, scope, now, ttl, entries[..n]).0, scope, now, ttl, entries[n]);
    }
  }

  class Redis {
    var store: Store

    ghost predicate Valid()
      reads this
    {
      ValidMembers(store)
    }

    constructor ()
      ensures Valid()
      ensures store == Store(map[], map[], map[])
    {
      store := Store(map[], map[], map[]);
    }

    /** The Lua script. Redis runs it to completion with nothing interleaved. */
    method BatchWrite(scope: Scope, now: int, ttl: int, entries: seq<BatchEntry>) returns (replies: seq<(string, bool)>)
      requires Valid() && forall i :: 0 <= i < |entries| ==> ValidEntry(entries[i])
      modifies this
      ensures Valid()
      ensures (store, replies) == Script(old(store), scope, now, ttl, entries)
    {
      FoldMembers(store, scope, now, ttl, entries);
      replies := [];
      for i := 0 to |entries|
        invariant (store, replies) == Fold(old(store), scope, now, ttl, entries[..i])
      {
        var e := entries[i];
        assert entries[..i + 1][..i] == entries[..i];
        var fingerprint := (scope, e.entityType, e.digest);
        var reused := false;
        if IndexLive(store, fingerprint, now) {
          var existingId := store.index[fingerprint].tokenId;
          if RecordLive(store, (scope, existingId), now) {
            store := ExpireIndex(store, fingerprint, now, ttl);
            store := ExpireRecord(store, (scope, existingId), now, ttl);
            replies := replies + [(existingId, false)];
            reused := true;
          }
        }
        if !reused {
          store := store.(records := store.records[(scope, e.candidateId) := RecordCell(e.content, now + ttl)]);
          store := store.(index := store.index[fingerprint := IndexCell(e.candidateId, now + ttl)]);
          store := AddMember(store, scope, RecordKey(scope, e.candidateId), now);
          store := AddMember(store, scope, IndexKey(scope, e.entityType, e.digest), now);
          replies := replies + [(e.candidateId, true)];
        }
      }
      assert entries[..|entries|] == entries;
      store := ExpireMeta(store, scope, now, ttl);
    }

    /** SMEMBERS: the first round trip of `delete_session`. */
    method ReadMembers(scope: Scope, now: int) returns (members: set<Key>)
      requires Valid()
      ensures members == Members(store, scope, now)
      ensures forall k :: k in members ==> ValidKey(k)
    {
      members := if MetaLive(store, scope, now) then store.meta[scope].members else {};
    }

    /** The second: delete in one transaction those of the members read that the session owns, record
        keys first, and the set itself. Returns how many record keys still existed. */
    method DeleteMembers(scope: Scope, members: set<Key>, now: int) returns (deleted: nat)
      requires Valid() && forall k :: k in members ==> ValidKey(k)
      modifies this
      ensures Valid()
      ensures (store, deleted) == DeletedOf(old(store), scope, members, now)
    {
      hide SessionPrefix, KeyText, Contains, ValidKey;
      ghost var after := DeletedOf(store, scope, members, now).0;
      forall k | k in members
        ensures SessionPrefix(scope) + ":" <= KeyText(k) <==> k.scope == scope
        ensures Contains(KeyText(k), TOKEN_SEGMENT) <==> k.RecordKey?
      {
        OwnedIff(k, scope);
        TokenSegmentIff(k);
      }
      var owned := set k | k in members && SessionPrefix(scope) + ":" <= KeyText(k);
      var recordKeys := set k | k in owned && Contains(KeyText(k), TOKEN_SEGMENT);
      var indexKeys := owned - recordKeys;
      var existing := set k | k in recordKeys && k.RecordKey? && RecordLive(store, (k.scope, k.tokenId), now);
      assert existing
          == set k | k in members && k.RecordKey? && k.scope == scope && RecordLive(store, (scope, k.tokenId), now);
      deleted := |existing|;
      store := Store(
        map n | n in store.records && RecordKey(n.0, n.1) !in recordKeys :: store.records[n],
        map n | n in store.index && IndexKey(n.0, n.1, n.2) !in indexKeys :: store.index[n],
        store.meta - {scope});
      assert store.records == after.records && store.index == after.index;
    }
  }

  /** What the deleting transaction leaves when `members` were read, and how many records it reports. */
  function DeletedOf(st: Store, scope: Scope, members: set<Key>, now: int): (Store, nat) {
    var records := set k | k in members && k.RecordKey? && k.scope == scope && RecordLive(st, (scope, k.tokenId), now);
    (Store(
       map n | n in st.records && !(n.0 == scope && RecordKey(n.0, n.1) in members) :: st.records[n],
       map n | n in st.index && !(n.0 == scope && IndexKey(n.0, n.1, n.2) in members) :: st.index[n],
       st.meta - {scope}),
     |records|)
  }

  /** `delete_session` when nothing else runs between its two round trips. */
  function Deleted(st: Store, scope: Scope, now: int): (Store, nat) {
    DeletedOf(st, scope, Members(st, scope, now), now)
  }
}
