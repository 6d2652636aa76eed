/** The Redis-backed token vault: validation, deduplication, one script call, and resolution. */
module RedisVault {
  import opened Wrappers
  import opened Domain
  import opened VaultKeys
  import opened RedisStore
  import opened VaultLaws
  import VaultEnvelope
  import Grammar = TokenGrammar

  const MIN_TTL_SECONDS := 1
  const MAX_TTL_SECONDS := 7_200
  const MAX_BATCH_ENTRIES := 10_000

  datatype VaultWriteRequest = VaultWriteRequest(entityType: string, normalizedHmac: string, originalValue: string)

  /** `hashlib.sha256(...).hexdigest()`. */
  type Digester = string -> string

  ghost predicate IsDigester(f: Digester) {
    forall s :: IsDigest(f(s))
  }

  /** What `new_token_id` returns: 26 Crockford characters. */
  type TokenId = s: string | Grammar.IsValidTokenId(s) witness seq(26, _ => '0')

  // ---------------------------------------------------------------------------
  // Deduplication
  // ---------------------------------------------------------------------------

  /** The pair that names an index key. */
  function Identity(e: VaultWriteRequest): (string, string) {
    (e.entityType, e.normalizedHmac)
  }

  /** The position of the first entry with identity `id`; `|entries|` when there is none. */
  function Find(entries: seq<VaultWriteRequest>, id: (string, string)): (n: nat)
    ensures n <= |entries|
    ensures n < |entries| ==> Identity(entries[n]) == id
  {
    if entries == [] || Identity(entries[0]) == id then 0 else 1 + Find(entries[1..], id)
  }

  /** The entries that no earlier entry repeats. */
  function Unique(entries: seq<VaultWriteRequest>): (u: seq<VaultWriteRequest>)
    ensures |u| <= |entries|
  {
    if entries == [] then []
    else
      var n := |entries| - 1;
      var u := Unique(entries[..n]);
      if Find(u, Identity(entries[n])) < |u| then u else u + [entries[n]]
  }

  lemma {:induction false} FindAppend(u: seq<VaultWriteRequest>, e: VaultWriteRequest, id: (string, string))
    ensures Find(u + [e], id) ==
            if Find(u, id) < |u| then Find(u, id) else if Identity(e) == id then |u| else |u| + 1
  {
    var all := u + [e];
    if u == [] {
      assert all[1..] == [];
    } else {
      assert all[1..] == u[1..] + [e];
      FindAppend(u[1..], e, id);
    }
  }

  /** Every entry's identity is among the unique ones, whose identities are distinct. */
  lemma {:induction false} UniqueFinds(entries: seq<VaultWriteRequest>, i: nat)
    requires i < |entries|
    ensures Find(Unique(entries), Identity(entries[i])) < |Unique(entries)|
  {
    var n := |entries| - 1;
    var u := Unique(entries[..n]);
    FindAppend(u, entries[n], Identity(entries[i]));
    if i < n {
      UniqueFinds(entries[..n], i);
    }
  }

  lemma UniqueSnoc(front: seq<VaultWriteRequest>, e: VaultWriteRequest)
    ensures Unique(front + [e]) ==
            var u := Unique(front); if Find(u, Identity(e)) < |u| then u else u + [e]
  {
    assert (front + [e])[..|front|] == front;
  }

  lemma NothingFound()
    ensures Unique([]) == []
    ensures forall id :: Find([], id) == 0
  {
  }

  method Deduplicate(entries: seq<VaultWriteRequest>) returns (unique: seq<VaultWriteRequest>, positions: seq<nat>)
    ensures unique == Unique(entries)
    ensures |positions| == |entries|
    ensures forall i :: 0 <= i < |entries| ==>
              positions[i] == Find(unique, Identity(entries[i])) && positions[i] < |unique|
  {
    hide Find, Unique;
    var seen: map<(string, string), nat> := map[];
    NothingFound();
    unique, positions := [], [];
    for i := 0 to |entries|
      invariant unique == Unique(entries[..i])
      invariant |positions| == i
      invariant forall id :: id in seen <==> Find(unique, id) < |unique|
      invariant forall id :: id in seen ==> seen[id] == Find(unique, id)
      invariant forall j :: 0 <= j < i ==>
                  positions[j] == Find(unique, Identity(entries[j])) && positions[j] < |unique|
    {
      var entry := entries[i];
      var identity := Identity(entry);
      assert entries[..i + 1] == entries[..i] + [entry];
      UniqueSnoc(entries[..i], entry);
      var index := |unique|;
      if identity in seen {
        index := seen[identity];
      } else {
        forall id
          ensures Find(unique + [entry], id)
               == if Find(unique, id) < |unique| then Find(unique, id)
                  else if identity == id then |unique| else |unique| + 1
        {
          FindAppend(unique, entry, id);
        }
        seen := seen[identity := index];
        unique := unique + [entry];
      }
      positions := positions + [index];
    }
    assert entries[..|entries|] == entries;
  }

  // ---------------------------------------------------------------------------
  // Writing
  // ---------------------------------------------------------------------------

  /** What is sealed and offered to the script for one entry. */
  function Candidate(scope: Scope, digest: Digester, e: VaultWriteRequest, id: TokenId): BatchEntry {
    BatchEntry(e.entityType, digest(e.normalizedHmac), id,
               SealedRecord(VaultEnvelope.VaultAad(scope.tenantId, scope.sessionId, e.entityType, id),
                            VaultRecord(scope, Grammar.Bracket(e.entityType, id), e.entityType, e.originalValue)))
  }

  function Candidates(scope: Scope, digest: Digester, unique: seq<VaultWriteRequest>, ids: seq<TokenId>)
    : (r: seq<BatchEntry>)
    requires |unique| <= |ids|
    ensures |r| == |unique|
    ensures forall i {:trigger r[i]} :: 0 <= i < |r| ==> r[i] == Candidate(scope, digest, unique[i], ids[i])
  {
    seq(|unique|, i requires 0 <= i < |unique| => Candidate(scope, digest, unique[i], ids[i]))
  }

  /** The vault's own checks; a failure raises ValueError before anything is written. */
  predicate Accepts(entries: seq<VaultWriteRequest>, ttl: int) {
    && MIN_TTL_SECONDS <= ttl <= MAX_TTL_SECONDS
    && (forall i :: 0 <= i < |entries| ==>
          Grammar.IsValidEntityType(entries[i].entityType) && entries[i].normalizedHmac != "")
    && |entries| <= MAX_BATCH_ENTRIES
  }

  predicate WellFormedReplies(replies: seq<(string, bool)>) {
    forall i :: 0 <= i < |replies| ==> Grammar.IsValidTokenId(replies[i].0)
  }

  /** The store after a batch write, and one token per entry. `ids` are the fresh random ids. */
  function Written(st: Store, scope: Scope, digest: Digester, now: int,
                   entries: seq<VaultWriteRequest>, ttl: int, ids: seq<TokenId>)
    : (Store, Result<seq<string>, GatewayError>)
    requires |entries| <= |ids|
  {
    if !Accepts(entries, ttl) then (st, Err(ValueError))
    else if entries == [] then (st, Ok([]))
    else
      var unique := Unique(entries);
      var (after, replies) := Script(st, scope, now, ttl, Candidates(scope, digest, unique, ids));
      if !WellFormedReplies(replies) then (after, Err(VaultEncryption))
      else (after, Ok(Tokens(entries, unique, replies)))
  }

  /** A write is refused, and then nothing is written, exactly when the TTL is not from 1 to 7200 seconds, a type
      is malformed, a fingerprint is empty, or there are more than 10000 entries. */
  lemma RefusedIff(st: Store, scope: Scope, digest: Digester, now: int, entries: seq<VaultWriteRequest>, ttl: int,
                   ids: seq<TokenId>)
    requires |entries| <= |ids|
    ensures Written(st, scope, digest, now, entries, ttl, ids) == (st, Err(ValueError)) <==>
            ttl < 1 || ttl > 7200 || |entries| > 10_000
            || exists i :: 0 <= i < |entries|
                           && (!Grammar.IsValidEntityType(entries[i].entityType) || entries[i].normalizedHmac == "")
  {
    hide Grammar.IsValidEntityType, Script, Unique, WellFormedReplies, Tokens;
  }

  /** The token of each entry, by way of its position among the unique ones. */
  function Tokens(entries: seq<VaultWriteRequest>, unique: seq<VaultWriteRequest>, replies: seq<(string, bool)>)
    : (tokens: seq<string>)
    ensures |tokens| == |entries|
  {
    seq(|entries|, i requires 0 <= i < |entries| =>
      var j := Find(unique, Identity(entries[i]));
      Grammar.Bracket(entries[i].entityType, if j < |replies| then replies[j].0 else ""))
  }

  /** Turn the script's replies into the tokens of the unique entries; an id that is not a token id
      means this module and its script disagree. */
  method ReadBatchResult(replies: seq<(string, bool)>, unique: seq<VaultWriteRequest>)
    returns (r: Result<seq<string>, GatewayError>)
    requires |replies| == |unique|
    ensures r.Ok? <==> WellFormedReplies(replies)
    ensures r.Err? ==> r.error == VaultEncryption
    ensures r.Ok? ==> |r.value| == |unique|
    ensures r.Ok? ==> forall i :: 0 <= i < |unique| ==>
              r.value[i] == Grammar.Bracket(unique[i].entityType, replies[i].0)
  {
    hide Grammar.IsValidTokenId;
    var tokens: seq<string> := [];
    for i := 0 to |unique|
      invariant |tokens| == i
      invariant forall j :: 0 <= j < i ==>
                  tokens[j] == Grammar.Bracket(unique[j].entityType, replies[j].0)
                  && Grammar.IsValidTokenId(replies[j].0)
    {
      if !Grammar.IsValidTokenId(replies[i].0) {
        return Err(VaultEncryption);
      }
      tokens := tokens + [Grammar.Bracket(unique[i].entityType, replies[i].0)];
    }
    r := Ok(tokens);
  }

  function Resolution(st: Store, scope: Scope, now: int, tokens: set<string>)
    : Result<map<string, string>, GatewayError>
  {
    if exists t :: t in tokens && LookUp(st, scope, now, t).Refused? then Err(VaultEncryption)
    else Ok(map t | t in tokens && LookUp(st, scope, now, t).Found? :: LookUp(st, scope, now, t).value)
  }

  lemma CandidatesValid(scope: Scope, digest: Digester, entries: seq<VaultWriteRequest>, ttl: int, ids: seq<TokenId>)
    requires Accepts(entries, ttl) && |entries| <= |ids| && IsDigester(digest)
    ensures forall i :: 0 <= i < |Unique(entries)| ==>
              Unique(entries)[i] in entries
              && ValidEntry(Candidates(scope, digest, Unique(entries), ids)[i])
              && EntrySealed(scope, Candidates(scope, digest, Unique(entries), ids)[i])
  {
    hide Grammar.IsValidEntityType, Grammar.IsValidTokenId;
    var u := Unique(entries);
    forall i | 0 <= i < |u|
      ensures u[i] in entries && ValidEntry(Candidates(scope, digest, u, ids)[i])
      ensures EntrySealed(scope, Candidates(scope, digest, u, ids)[i])
    {
      UniqueMembers(entries, u[i]);
      var j :| 0 <= j < |entries| && entries[j] == u[i];
    }
  }

  lemma {:induction false} UniqueMembers(entries: seq<VaultWriteRequest>, e: VaultWriteRequest)
    requires e in Unique(entries)
    ensures e in entries
  {
    var n := |entries| - 1;
    if e in Unique(entries[..n]) {
      UniqueMembers(entries[..n], e);
    }
  }

  /** Ids never seen in the session, no two alike. */
  ghost predicate Fresh(st: Store, scope: Scope, ids: seq<TokenId>) {
    && (forall i :: 0 <= i < |ids| ==> Unused(st, scope, ids[i]))
    && (forall i, j :: 0 <= i < j < |ids| ==> ids[i] != ids[j])
  }

  lemma FreshBatchIsLegal(st: Store, scope: Scope, digest: Digester, entries: seq<VaultWriteRequest>, ttl: int,
                          ids: seq<TokenId>)
    requires Accepts(entries, ttl) && |entries| <= |ids| && IsDigester(digest) && Fresh(st, scope, ids)
    ensures LegalBatch(st, scope, Candidates(scope, digest, Unique(entries), ids))
  {
    hide Accepts, EntrySealed, ValidEntry, Unused, Unique, IsDigester, Grammar.IsValidTokenId;
    CandidatesValid(scope, digest, entries, ttl, ids);
    assert forall i :: 0 <= i < |Unique(entries)| ==>
        Candidates(scope, digest, Unique(entries), ids)[i].candidateId == ids[i];
  }

  lemma ScriptAnswersAll(st: Store, scope: Scope, now: int, ttl: int, entries: seq<BatchEntry>)
    ensures |Script(st, scope, now, ttl, entries).1| == |entries|
  {
  }

  class RedisTokenVault {
    const redis: Redis
    const digest: Digester

    ghost predicate Valid()
      reads redis
    {
      redis.Valid() && IsDigester(digest)
    }

    constructor (redis: Redis, digest: Digester)
      ensures this.redis == redis && this.digest == digest
    {
      this.redis := redis;
      this.digest := digest;
    }

    /** One script call for any number of entries. */
    method GetOrCreateMany(scope: Scope, entries: seq<VaultWriteRequest>, ttl: int, now: int, ids: seq<TokenId>)
      returns (r: Result<seq<string>, GatewayError>)
      requires Valid() && |entries| <= |ids|
      modifies redis
      ensures Valid()
      ensures (redis.store, r) == Written(old(redis.store), scope, digest, now, entries, ttl, ids)
    {
      hide Grammar.IsValidEntityType, Grammar.IsValidTokenId, Grammar.Bracket, Script, Fold, ValidEntry, EntrySealed,
           Find, Unique, ValidMembers;
      if !Accepts(entries, ttl) {
        return Err(ValueError);
      }
      if entries == [] {
        return Ok([]);
      }
      var unique, positions := Deduplicate(entries);
      CandidatesValid(scope, digest, entries, ttl, ids);
      // Everything is sealed before the script runs.
      var candidates := Candidates(scope, digest, unique, ids);
      ghost var before := redis.store;
      var replies := redis.BatchWrite(scope, now, ttl, candidates);
      ScriptAnswersAll(before, scope, now, ttl, candidates);
      var read := ReadBatchResult(replies, unique);
      if read.Err? {
        return Err(read.error);
      }
      var tokens := seq(|positions|, i requires 0 <= i < |positions| => read.value[positions[i]]);
      assert tokens == Tokens(entries, unique, replies);
      r := Ok(tokens);
    }

    method ResolveMany(scope: Scope, tokens: set<string>, now: int)
      returns (r: Result<map<string, string>, GatewayError>)
      ensures r == Resolution(redis.store, scope, now, tokens)
    {
      hide LookUp;
      var resolved: map<string, string> := map[];
      var wanted := tokens;
      while wanted != {}
        invariant wanted <= tokens
        invariant forall t :: t in tokens - wanted ==> !LookUp(redis.store, scope, now, t).Refused?
        invariant forall t :: t in resolved <==> t in tokens - wanted && LookUp(redis.store, scope, now, t).Found?
        invariant forall t :: t in resolved ==> resolved[t] == LookUp(redis.store, scope, now, t).value
        decreases wanted
      {
        var token :| token in wanted;
        wanted := wanted - {token};
        match LookUp(redis.store, scope, now, token)
        case NotFound =>
        case Refused => return Err(VaultEncryption);
        case Found(value) => resolved := resolved[token := value];
      }
      assert resolved == map t | t in tokens && LookUp(redis.store, scope, now, t).Found?
                           :: LookUp(redis.store, scope, now, t).value;
      r := Ok(resolved);
    }

    /** Two round trips, the second at `now`. A caller of its own that writes between them is the
        subject of `VaultBookkeeping.DeletionCompleteIff`. */
    method DeleteSession(scope: Scope, readAt: int, now: int) returns (deleted: nat)
      requires Valid()
      modifies redis
      ensures Valid()
      ensures (redis.store, deleted)
           == DeletedOf(old(redis.store), scope, Members(old(redis.store), scope, readAt), now)
    {
      var members := redis.ReadMembers(scope, readAt);
      deleted := redis.DeleteMembers(scope, members, now);
    }
  }
}
