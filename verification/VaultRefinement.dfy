/** The batch write is the one-at-a-time operation, and Redis does what the simple vault does. */
module VaultRefinement {
  import opened Wrappers
  import opened Domain
  import opened VaultKeys
  import opened RedisStore
  import opened VaultLaws
  import opened RedisVault
  import opened VaultBookkeeping
  import FakeVault
  import Grammar = TokenGrammar

  // ---------------------------------------------------------------------------
  // Deduplicating, running the script, and expanding
  // ---------------------------------------------------------------------------

  /** Every entry in turn, repeats included, each offering its identity's candidate id. */
  function OneAtATime(scope: Scope, digest: Digester, entries: seq<VaultWriteRequest>,
                      ids: seq<TokenId>): (r: seq<BatchEntry>)
    requires |entries| <= |ids|
    ensures |r| == |entries|
  {
    seq(|entries|, i requires 0 <= i < |entries| =>
      var j := Find(Unique(entries), Identity(entries[i]));
      Candidate(scope, digest, entries[i], if j < |ids| then ids[j] else ids[i]))
  }

  /** Meeting an identity again within one batch changes nothing and returns the same id. */
  lemma RepeatIsIdle(st: Store, scope: Scope, now: int, ttl: int, e: BatchEntry, id: string)
    requires ttl > 0 && Holds(st, IndexOf(scope, e), id, now + ttl)
    ensures GetOrCreate(st, scope, now, ttl, e) == (st, (id, false))
  {
    var k := IndexOf(scope, e);
    var after := Reuse(st, k, now, ttl);
    assert after.index == st.index && after.records == st.records;
  }

  lemma OneAtATimePrefix(scope: Scope, digest: Digester, entries: seq<VaultWriteRequest>, ids: seq<TokenId>)
    requires entries != [] && |entries| <= |ids|
    ensures var n := |entries| - 1;
            OneAtATime(scope, digest, entries, ids)[..n] == OneAtATime(scope, digest, entries[..n], ids)
  {
    hide Find, Candidate;
    var n := |entries| - 1;
    var front := entries[..n];
    forall i | 0 <= i < n
      ensures OneAtATime(scope, digest, entries, ids)[i] == OneAtATime(scope, digest, front, ids)[i]
    {
      UniqueFinds(front, i);
      FindAppend(Unique(front), entries[n], Identity(entries[i]));
    }
  }

  lemma CandidatesPrefix(scope: Scope, digest: Digester, u: seq<VaultWriteRequest>, e: VaultWriteRequest,
                         ids: seq<TokenId>)
    requires |u| < |ids|
    ensures Candidates(scope, digest, u + [e], ids)
         == Candidates(scope, digest, u, ids) + [Candidate(scope, digest, e, ids[|u|])]
  {
  }

  /** Every answer, taken one at a time, is the batch's reply to its entry's identity. */
  ghost predicate SameAnswers(entries: seq<VaultWriteRequest>, unique: seq<VaultWriteRequest>,
                              replies: seq<(string, bool)>, answers: seq<(string, bool)>) {
    && |answers| == |entries| && |replies| == |unique|
    && forall i :: 0 <= i < |entries| ==>
         Find(unique, Identity(entries[i])) < |replies|
         && answers[i].0 == replies[Find(unique, Identity(entries[i]))].0
  }

  lemma SameAnswersRepeat(front: seq<VaultWriteRequest>, e: VaultWriteRequest, u: seq<VaultWriteRequest>,
                          replies: seq<(string, bool)>, answers: seq<(string, bool)>, answer: (string, bool))
    requires SameAnswers(front, u, replies, answers)
    requires Find(u, Identity(e)) < |u| && answer.0 == replies[Find(u, Identity(e))].0
    ensures SameAnswers(front + [e], u, replies, answers + [answer])
  {
    hide Find;
  }

  lemma SameAnswersNew(front: seq<VaultWriteRequest>, e: VaultWriteRequest, u: seq<VaultWriteRequest>,
                       replies: seq<(string, bool)>, answers: seq<(string, bool)>, answer: (string, bool))
    requires SameAnswers(front, u, replies, answers) && Find(u, Identity(e)) >= |u|
    ensures SameAnswers(front + [e], u + [e], replies + [answer], answers + [answer])
  {
    hide Find;
    var all := front + [e];
    forall i | 0 <= i < |all|
      ensures Find(u + [e], Identity(all[i])) == if i < |front| then Find(u, Identity(front[i])) else |u|
    {
      FindAppend(u, e, Identity(all[i]));
    }
  }

  /** The reply to every entry, taken one at a time, is the reply the batch gives its identity; and
      the stores end up equal. No freshness is needed, and any index entry may have lost its record. */
  lemma {:induction false} BatchIsFold(
    st: Store, scope: Scope, digest: Digester, now: int, ttl: int, entries: seq<VaultWriteRequest>, ids: seq<TokenId>)
    requires ttl > 0 && |entries| <= |ids|
    ensures var (batch, replies) := Fold(st, scope, now, ttl, Candidates(scope, digest, Unique(entries), ids));
            var (single, answers) := Fold(st, scope, now, ttl, OneAtATime(scope, digest, entries, ids));
            batch == single && SameAnswers(entries, Unique(entries), replies, answers)
  {
    hide Find, GetOrCreate, Holds, Candidate, Fold, SameAnswers, Unique;
    if entries == [] {
      FoldNil(st, scope, now, ttl);
      NothingFound();
      NoAnswers();
    } else {
      var n := |entries| - 1;
      var front, e := entries[..n], entries[n];
      assert entries == front + [e];
      BatchIsFold(st, scope, digest, now, ttl, front, ids);
      var u := Unique(front);
      UniqueSnoc(front, e);
      var all := OneAtATime(scope, digest, entries, ids);
      OneAtATimePrefix(scope, digest, entries, ids);
      LastCandidate(scope, digest, front, e, ids);
      FoldSnoc(st, scope, now, ttl, all);
      var (before, replies) := Fold(st, scope, now, ttl, Candidates(scope, digest, u, ids));
      var answers := Fold(st, scope, now, ttl, all[..n]).1;
      var j := Find(u, Identity(e));
      if j < |u| {
        FoldHolds(st, scope, now, ttl, Candidates(scope, digest, u, ids), j);
        CandidateNames(scope, digest, u[j], ids[j], e, ids[j]);
        RepeatIsIdle(before, scope, now, ttl, all[n], replies[j].0);
        SameAnswersRepeat(front, e, u, replies, answers, (replies[j].0, false));
      } else {
        var offered := Candidates(scope, digest, u + [e], ids);
        CandidatesPrefix(scope, digest, u, e, ids);
        FoldSnoc(st, scope, now, ttl, offered);
        assert offered[..|u|] == Candidates(scope, digest, u, ids);
        SameAnswersNew(front, e, u, replies, answers, GetOrCreate(before, scope, now, ttl, all[n]).1);
      }
    }
  }

  lemma NoAnswers()
    ensures SameAnswers([], [], [], [])
  {
  }

  lemma LastCandidate(scope: Scope, digest: Digester, front: seq<VaultWriteRequest>, e: VaultWriteRequest,
                      ids: seq<TokenId>)
    requires |front| < |ids|
    ensures var u := Unique(front);
            var j := Find(u, Identity(e));
            OneAtATime(scope, digest, front + [e], ids)[|front|]
            == Candidate(scope, digest, e, ids[if j < |u| then j else |u|])
  {
    hide Find, Candidate, Unique;
    var u := Unique(front);
    UniqueSnoc(front, e);
    FindAppend(u, e, Identity(e));
    assert (front + [e])[|front|] == e;
  }

  lemma FoldNil(st: Store, scope: Scope, now: int, ttl: int)
    ensures Fold(st, scope, now, ttl, []) == (st, [])
  {
  }

  lemma FoldSnoc(st: Store, scope: Scope, now: int, ttl: int, entries: seq<BatchEntry>)
    requires entries != []
    ensures var n := |entries| - 1;
            var (before, replies) := Fold(st, scope, now, ttl, entries[..n]);
            var (after, reply) := GetOrCreate(before, scope, now, ttl, entries[n]);
            Fold(st, scope, now, ttl, entries) == (after, replies + [reply])
  {
    hide GetOrCreate;
  }

  lemma CandidateNames(scope: Scope, digest: Digester, a: VaultWriteRequest, i: TokenId, b: VaultWriteRequest,
                       j: TokenId)
    requires Identity(a) == Identity(b)
    ensures IndexOf(scope, Candidate(scope, digest, a, i)) == IndexOf(scope, Candidate(scope, digest, b, j))
  {
  }

  // ---------------------------------------------------------------------------
  // Redis and the in-memory vault
  // ---------------------------------------------------------------------------

  /** No two of the fingerprints in use share a digest. */
  predicate Separates(digest: Digester, prints: set<string>) {
    forall g, h :: g in prints && h in prints && digest(g) == digest(h) ==> g == h
  }

  predicate FakeLive(f: FakeVault.Session, id: string, now: int) {
    id in f.records && f.records[id].expiresAt > now
  }

  /** The dictionary's index leads to a record that has not expired. */
  predicate FakeReusable(f: FakeVault.Session, k: (string, string), now: int) {
    && k in f.index
    && Grammar.ParseToken(f.index[k]).Some?
    && FakeLive(f, Grammar.ParseToken(f.index[k]).value.tokenId, now)
  }

  function EntryOf(c: RecordCell): FakeVault.Entry {
    FakeVault.Entry(c.content.record.token, c.content.record.entityType, c.content.record.originalValue, c.expires)
  }

  /** One record, seen in Redis and in the dictionaries. */
  predicate RecordAgrees(st: Store, scope: Scope, now: int, f: FakeVault.Session, id: string) {
    && (RecordLive(st, (scope, id), now) <==> FakeLive(f, id, now))
    && (RecordLive(st, (scope, id), now) ==> f.records[id] == EntryOf(st.records[(scope, id)]))
  }

  /** One fingerprint, likewise. */
  predicate IndexAgrees(st: Store, scope: Scope, digest: Digester, now: int, f: FakeVault.Session,
                        k: (string, string)) {
    var r := (scope, k.0, digest(k.1));
    && (Reusable(st, r, now) <==> FakeReusable(f, k, now))
    && (Reusable(st, r, now) ==> f.index[k] == Grammar.Bracket(k.0, st.index[r].tokenId))
  }

  ghost predicate Simulates(st: Store, scope: Scope, digest: Digester, prints: set<string>, now: int,
                            f: FakeVault.Session) {
    && (forall id :: RecordAgrees(st, scope, now, f, id))
    && (forall k: (string, string) :: k.1 in prints ==> IndexAgrees(st, scope, digest, now, f, k))
  }

  ghost predicate AllLive(f: FakeVault.Session, now: int) {
    forall id :: id in f.records ==> f.records[id].expiresAt > now
  }

  ghost predicate FakeUnused(f: FakeVault.Session, id: string) {
    && id !in f.records
    && forall k :: k in f.index && Grammar.ParseToken(f.index[k]).Some? ==>
         Grammar.ParseToken(f.index[k]).value.tokenId != id
  }

  lemma BracketParses(t: string, id: string)
    requires Grammar.IsValidEntityType(t) && Grammar.IsValidTokenId(id)
    ensures Grammar.ParseToken(Grammar.Bracket(t, id)) == Some(Grammar.Token(t, id))
  {
    hide Grammar.ParseToken, Grammar.IsValidEntityType, Grammar.IsValidTokenId, Grammar.Bracket;
    Grammar.FormattedParses(t, id);
  }

  /** A store and dictionaries in which one record's expiry was moved to `until`. */
  lemma RenewedAgrees(st: Store, scope: Scope, digest: Digester, now: int, until: int,
                      f: FakeVault.Session, k: IndexName, id: string, j: (string, string))
    requires k in st.index && (scope, id) in st.records && id in f.records && until > now
    requires RecordLive(st, (scope, id), now) && IndexLive(st, k, now)
    requires IndexAgrees(st, scope, digest, now, f, j)
    requires RecordAgrees(st, scope, now, f, id)
    ensures var s := Store(st.records[(scope, id) := st.records[(scope, id)].(expires := until)],
                           st.index[k := st.index[k].(expires := until)], st.meta);
            var g := f.(records := f.records[id := f.records[id].(expiresAt := until)]);
            IndexAgrees(s, scope, digest, now, g, j)
  {
    hide Grammar.ParseToken, Grammar.Bracket;
  }

  lemma RenewedRecordAgrees(st: Store, scope: Scope, now: int, until: int,
                            f: FakeVault.Session, k: IndexName, id: string, i: string)
    requires k in st.index && RecordLive(st, (scope, id), now) && until > now
    requires RecordAgrees(st, scope, now, f, id) && RecordAgrees(st, scope, now, f, i)
    ensures var s := Store(st.records[(scope, id) := st.records[(scope, id)].(expires := until)],
                           st.index[k := st.index[k].(expires := until)], st.meta);
            var g := f.(records := f.records[id := f.records[id].(expiresAt := until)]);
            RecordAgrees(s, scope, now, g, i)
  {
  }

  lemma RenewSimulates(st: Store, scope: Scope, digest: Digester, prints: set<string>, now: int, until: int,
                       f: FakeVault.Session, k: IndexName, id: string)
    requires Simulates(st, scope, digest, prints, now, f) && until > now && k in st.index
    requires RecordLive(st, (scope, id), now) && IndexLive(st, k, now) && id in f.records
    ensures var s := Store(st.records[(scope, id) := st.records[(scope, id)].(expires := until)],
                           st.index[k := st.index[k].(expires := until)], st.meta);
            var g := f.(records := f.records[id := f.records[id].(expiresAt := until)]);
            Simulates(s, scope, digest, prints, now, g)
  {
    hide RecordAgrees, IndexAgrees, IndexLive;
    var s := Store(st.records[(scope, id) := st.records[(scope, id)].(expires := until)],
                   st.index[k := st.index[k].(expires := until)], st.meta);
    var g := f.(records := f.records[id := f.records[id].(expiresAt := until)]);
    assert RecordAgrees(st, scope, now, f, id);
    forall i
      ensures RecordAgrees(s, scope, now, g, i)
    {
      RenewedRecordAgrees(st, scope, now, until, f, k, id, i);
    }
    forall j: (string, string) | j.1 in prints
      ensures IndexAgrees(s, scope, digest, now, g, j)
    {
      RenewedAgrees(st, scope, digest, now, until, f, k, id, j);
    }
  }

  lemma ReuseSimulates(st: Store, scope: Scope, digest: Digester, prints: set<string>, now: int, ttl: int,
                       f: FakeVault.Session, e: VaultWriteRequest, id: TokenId)
    requires Simulates(st, scope, digest, prints, now, f) && AllLive(f, now) && Consistent(st) && ttl > 0
    requires e.normalizedHmac in prints
    requires Reusable(st, (scope, e.entityType, digest(e.normalizedHmac)), now)
    ensures (scope, e.entityType, digest(e.normalizedHmac)) in st.index
    ensures FakeVault.GetOrCreate(f, e, id, now + ttl).1
         == Grammar.Bracket(e.entityType, st.index[(scope, e.entityType, digest(e.normalizedHmac))].tokenId)
    ensures Simulates(Reuse(st, (scope, e.entityType, digest(e.normalizedHmac)), now, ttl), scope, digest, prints, now,
                      FakeVault.GetOrCreate(f, e, id, now + ttl).0)
    ensures AllLive(FakeVault.GetOrCreate(f, e, id, now + ttl).0, now)
  {
    hide Grammar.ParseToken, Grammar.IsValidEntityType, Grammar.IsValidTokenId, Grammar.Bracket, Reuse, Reusable,
         Simulates, Consistent, AllLive, RecordLive, IndexLive, FakeVault.GetOrCreate, IsDigest;
    var k := (scope, e.entityType, digest(e.normalizedHmac));
    ReuseEffect(st, k, now, ttl);
    var id' := st.index[k].tokenId;
    ReusedNames(st, k, now);
    AgreedToken(st, scope, digest, prints, now, f, Identity(e));
    BracketParses(e.entityType, id');
    ReusedEffect(f, e, id, id', now, now + ttl);
    RenewSimulates(st, scope, digest, prints, now, now + ttl, f, k, id');
  }

  lemma ReusedNames(st: Store, k: IndexName, now: int)
    requires Consistent(st) && Reusable(st, k, now)
    ensures IndexLive(st, k, now) && RecordLive(st, (k.0, st.index[k].tokenId), now)
    ensures Grammar.IsValidEntityType(k.1) && Grammar.IsValidTokenId(st.index[k].tokenId)
  {
    hide Grammar.IsValidEntityType, Grammar.IsValidTokenId, RecordsWellSealed;
    assert LeadsToItsType(st, k);
  }

  lemma ReusedEffect(f: FakeVault.Session, e: VaultWriteRequest, id: TokenId, used: string, now: int, until: int)
    requires Identity(e) in f.index && f.index[Identity(e)] == Grammar.Bracket(e.entityType, used)
    requires Grammar.ParseToken(Grammar.Bracket(e.entityType, used)) == Some(Grammar.Token(e.entityType, used))
    requires used in f.records && AllLive(f, now) && until > now
    ensures FakeVault.GetOrCreate(f, e, id, until) ==
            (f.(records := f.records[used := f.records[used].(expiresAt := until)]),
             Grammar.Bracket(e.entityType, used))
    ensures AllLive(FakeVault.GetOrCreate(f, e, id, until).0, now)
  {
    hide Grammar.ParseToken, Grammar.Bracket;
  }

  /** What the relation says of one reusable fingerprint. */
  lemma AgreedToken(st: Store, scope: Scope, digest: Digester, prints: set<string>, now: int, f: FakeVault.Session,
                    k: (string, string))
    requires Simulates(st, scope, digest, prints, now, f) && k.1 in prints
    ensures Reusable(st, (scope, k.0, digest(k.1)), now) <==> FakeReusable(f, k, now)
    ensures Reusable(st, (scope, k.0, digest(k.1)), now) ==>
              k in f.index && Grammar.ParseToken(f.index[k]).Some?
              && f.index[k] == Grammar.Bracket(k.0, st.index[(scope, k.0, digest(k.1))].tokenId)
              && Grammar.ParseToken(f.index[k]).value.tokenId in f.records
  {
    hide Grammar.ParseToken, Grammar.Bracket;
    assert IndexAgrees(st, scope, digest, now, f, k);
  }

  lemma OtherAgrees(st: Store, s: Store, scope: Scope, digest: Digester, now: int,
                    f: FakeVault.Session, g: FakeVault.Session, id: string, j: (string, string))
    requires IndexAgrees(st, scope, digest, now, f, j)
    requires var r := (scope, j.0, digest(j.1));
             (r in s.index <==> r in st.index)
             && (r in st.index ==> s.index[r] == st.index[r] && st.index[r].tokenId != id)
    requires (j in g.index <==> j in f.index)
    requires j in f.index ==>
               g.index[j] == f.index[j]
               && (Grammar.ParseToken(f.index[j]).Some? ==> Grammar.ParseToken(f.index[j]).value.tokenId != id)
    requires forall i :: i != id ==> ((scope, i) in s.records <==> (scope, i) in st.records)
    requires forall i :: i != id && (scope, i) in st.records ==> s.records[(scope, i)] == st.records[(scope, i)]
    requires forall i :: i != id ==> (i in g.records <==> i in f.records)
    requires forall i :: i != id && i in f.records ==> g.records[i] == f.records[i]
    ensures IndexAgrees(s, scope, digest, now, g, j)
  {
    hide Grammar.ParseToken, Grammar.Bracket;
  }

  lemma MintedAgrees(st: Store, scope: Scope, digest: Digester, prints: set<string>, now: int, until: int,
                     f: FakeVault.Session, e: VaultWriteRequest, id: TokenId, meta: map<Scope, MetaCell>,
                     j: (string, string))
    requires until > now && Separates(digest, prints) && IndexAgrees(st, scope, digest, now, f, j)
    requires e.normalizedHmac in prints && j.1 in prints
    requires Unused(st, scope, id) && FakeUnused(f, id) && Grammar.IsValidEntityType(e.entityType)
    ensures var token := Grammar.Bracket(e.entityType, id);
            var s := Store(st.records[(scope, id) := RecordCell(Candidate(scope, digest, e, id).content, until)],
                           st.index[(scope, e.entityType, digest(e.normalizedHmac)) := IndexCell(id, until)], meta);
            var g := FakeVault.Session(
              f.records[id := FakeVault.Entry(token, e.entityType, e.originalValue, until)],
              f.index[Identity(e) := token]);
            IndexAgrees(s, scope, digest, now, g, j)
  {
    hide Grammar.ParseToken, Grammar.Bracket, Grammar.IsValidEntityType, Grammar.IsValidTokenId, IndexAgrees, IsDigest,
         Candidate, Separates, Unused, FakeUnused;
    var token := Grammar.Bracket(e.entityType, id);
    var s := Store(st.records[(scope, id) := RecordCell(Candidate(scope, digest, e, id).content, until)],
                   st.index[(scope, e.entityType, digest(e.normalizedHmac)) := IndexCell(id, until)], meta);
    var g := FakeVault.Session(
      f.records[id := FakeVault.Entry(token, e.entityType, e.originalValue, until)],
      f.index[Identity(e) := token]);
    if j == Identity(e) {
      BracketParses(e.entityType, id);
      NewAgrees(s, scope, digest, now, until, g, id, j);
    } else {
      DistinctNames(scope, digest, prints, j, Identity(e));
      UnusedHere(st, f, scope, id, (scope, j.0, digest(j.1)), j);
      OtherAgrees(st, s, scope, digest, now, f, g, id, j);
    }
  }

  lemma DistinctNames(scope: Scope, digest: Digester, prints: set<string>, j: (string, string), k: (string, string))
    requires Separates(digest, prints) && j.1 in prints && k.1 in prints && j != k
    ensures (scope, j.0, digest(j.1)) != (scope, k.0, digest(k.1))
  {
  }

  lemma UnusedHere(st: Store, f: FakeVault.Session, scope: Scope, id: string, r: IndexName, j: (string, string))
    requires Unused(st, scope, id) && FakeUnused(f, id) && r.0 == scope
    ensures r in st.index ==> st.index[r].tokenId != id
    ensures j in f.index && Grammar.ParseToken(f.index[j]).Some? ==>
              Grammar.ParseToken(f.index[j]).value.tokenId != id
  {
    hide Grammar.ParseToken;
  }

  lemma NewAgrees(s: Store, scope: Scope, digest: Digester, now: int, until: int, g: FakeVault.Session,
                  id: TokenId, j: (string, string))
    requires until > now && (scope, id) in s.records && s.records[(scope, id)].expires == until
    requires (scope, j.0, digest(j.1)) in s.index && s.index[(scope, j.0, digest(j.1))] == IndexCell(id, until)
    requires id in g.records && g.records[id].expiresAt == until
    requires j in g.index && g.index[j] == Grammar.Bracket(j.0, id)
    requires Grammar.ParseToken(g.index[j]) == Some(Grammar.Token(j.0, id))
    ensures IndexAgrees(s, scope, digest, now, g, j)
  {
    hide Grammar.ParseToken, Grammar.Bracket;
  }

  lemma InsertSimulates(st: Store, scope: Scope, digest: Digester, prints: set<string>, now: int, until: int,
                        f: FakeVault.Session, e: VaultWriteRequest, id: TokenId, meta: map<Scope, MetaCell>)
    requires Simulates(st, scope, digest, prints, now, f) && until > now
    requires Separates(digest, prints) && e.normalizedHmac in prints
    requires Unused(st, scope, id) && FakeUnused(f, id) && Grammar.IsValidEntityType(e.entityType)
    ensures var s := Store(st.records[(scope, id) := RecordCell(Candidate(scope, digest, e, id).content, until)],
                           st.index[(scope, e.entityType, digest(e.normalizedHmac)) := IndexCell(id, until)], meta);
            var token := Grammar.Bracket(e.entityType, id);
            var g := FakeVault.Session(f.records[id := FakeVault.Entry(token, e.entityType, e.originalValue, until)],
                                       f.index[Identity(e) := token]);
            Simulates(s, scope, digest, prints, now, g)
  {
    hide Grammar.IsValidEntityType, Grammar.IsValidTokenId, Grammar.Bracket, Candidate, RecordAgrees, IndexAgrees,
         Separates, Unused, FakeUnused, IsDigest;
    var s := Store(st.records[(scope, id) := RecordCell(Candidate(scope, digest, e, id).content, until)],
                   st.index[(scope, e.entityType, digest(e.normalizedHmac)) := IndexCell(id, until)], meta);
    var token := Grammar.Bracket(e.entityType, id);
    var g := FakeVault.Session(f.records[id := FakeVault.Entry(token, e.entityType, e.originalValue, until)],
                               f.index[Identity(e) := token]);
    forall j: (string, string) | j.1 in prints
      ensures IndexAgrees(s, scope, digest, now, g, j)
    {
      MintedAgrees(st, scope, digest, prints, now, until, f, e, id, meta, j);
    }
    forall i
      ensures RecordAgrees(s, scope, now, g, i)
    {
      MintedRecordAgrees(st, s, scope, digest, now, until, f, g, e, id, i);
    }
  }

  lemma MintSimulates(st: Store, scope: Scope, digest: Digester, prints: set<string>, now: int, ttl: int,
                      f: FakeVault.Session, e: VaultWriteRequest, id: TokenId)
    requires Simulates(st, scope, digest, prints, now, f) && AllLive(f, now) && ttl > 0
    requires Separates(digest, prints) && e.normalizedHmac in prints
    requires !Reusable(st, (scope, e.entityType, digest(e.normalizedHmac)), now)
    requires Unused(st, scope, id) && FakeUnused(f, id) && Grammar.IsValidEntityType(e.entityType)
    ensures FakeVault.GetOrCreate(f, e, id, now + ttl).1 == Grammar.Bracket(e.entityType, id)
    ensures Simulates(Mint(st, scope, now, ttl, Candidate(scope, digest, e, id)), scope, digest, prints, now,
                      FakeVault.GetOrCreate(f, e, id, now + ttl).0)
    ensures AllLive(FakeVault.GetOrCreate(f, e, id, now + ttl).0, now)
  {
    hide Grammar.ParseToken, Grammar.IsValidEntityType, Grammar.IsValidTokenId, Grammar.Bracket, Simulates, Separates,
         Unused, FakeUnused, AllLive, FakeVault.GetOrCreate, IsDigest, Reusable, FakeReusable, Mint, Candidate;
    MintEffect(st, scope, digest, now, ttl, e, id);
    AgreedToken(st, scope, digest, prints, now, f, Identity(e));
    NotReusedMints(f, e, id, now, now + ttl);
    var s := Mint(st, scope, now, ttl, Candidate(scope, digest, e, id));
    InsertSimulates(st, scope, digest, prints, now, now + ttl, f, e, id, s.meta);
  }

  lemma MintEffect(st: Store, scope: Scope, digest: Digester, now: int, ttl: int, e: VaultWriteRequest, id: TokenId)
    ensures var s := Mint(st, scope, now, ttl, Candidate(scope, digest, e, id));
            s == Store(st.records[(scope, id) := RecordCell(Candidate(scope, digest, e, id).content, now + ttl)],
                       st.index[(scope, e.entityType, digest(e.normalizedHmac)) := IndexCell(id, now + ttl)], s.meta)
  {
    hide Grammar.Bracket, IsDigest, Grammar.IsValidTokenId;
  }

  lemma NotReusedMints(f: FakeVault.Session, e: VaultWriteRequest, id: TokenId, now: int, until: int)
    requires AllLive(f, now) && !FakeReusable(f, Identity(e), now)
    ensures var token := Grammar.Bracket(e.entityType, id);
            FakeVault.GetOrCreate(f, e, id, until) ==
            (FakeVault.Session(f.records[id := FakeVault.Entry(token, e.entityType, e.originalValue, until)],
                               f.index[Identity(e) := token]), token)
    ensures until > now ==> AllLive(FakeVault.GetOrCreate(f, e, id, until).0, now)
  {
    hide Grammar.ParseToken, Grammar.Bracket;
  }

  lemma MintedRecordAgrees(st: Store, s: Store, scope: Scope, digest: Digester, now: int, until: int,
                           f: FakeVault.Session, g: FakeVault.Session, e: VaultWriteRequest, id: TokenId, i: string)
    requires RecordAgrees(st, scope, now, f, i) && until > now
    requires s.records == st.records[(scope, id) := RecordCell(Candidate(scope, digest, e, id).content, until)]
    requires g.records
          == f.records[id := FakeVault.Entry(Grammar.Bracket(e.entityType, id), e.entityType, e.originalValue, until)]
    ensures RecordAgrees(s, scope, now, g, i)
  {
    hide Grammar.Bracket;
  }

  lemma StepKeepsFakeUnused(f: FakeVault.Session, e: VaultWriteRequest, id: TokenId, until: int, other: string)
    requires FakeUnused(f, other) && other != id && Grammar.IsValidEntityType(e.entityType)
    ensures FakeUnused(FakeVault.GetOrCreate(f, e, id, until).0, other)
  {
    hide Grammar.ParseToken, Grammar.Bracket, Grammar.IsValidEntityType, Grammar.IsValidTokenId;
    BracketParses(e.entityType, id);
  }

  /** One operation on Redis and the same one on the dictionaries: the same token, and the two stay
      in step. */
  lemma StepSimulates(st: Store, scope: Scope, digest: Digester, prints: set<string>, now: int, ttl: int,
                      f: FakeVault.Session, e: VaultWriteRequest, id: TokenId)
    requires Simulates(st, scope, digest, prints, now, f) && AllLive(f, now) && Consistent(st)
    requires ttl > 0 && Separates(digest, prints) && e.normalizedHmac in prints
    requires Grammar.IsValidEntityType(e.entityType)
    requires Reusable(st, (scope, e.entityType, digest(e.normalizedHmac)), now)
             || (Unused(st, scope, id) && FakeUnused(f, id))
    ensures var (s, reply) := GetOrCreate(st, scope, now, ttl, Candidate(scope, digest, e, id));
            var (after, token) := FakeVault.GetOrCreate(f, e, id, now + ttl);
            token == Grammar.Bracket(e.entityType, reply.0)
            && Simulates(s, scope, digest, prints, now, after) && AllLive(after, now)
  {
    hide Simulates, AllLive, Consistent, Unused, FakeUnused, Reuse, Mint, Grammar.Bracket, FakeVault.GetOrCreate,
         Grammar.IsValidEntityType, Grammar.IsValidTokenId, Separates, Reusable;
    if Reusable(st, (scope, e.entityType, digest(e.normalizedHmac)), now) {
      ReuseSimulates(st, scope, digest, prints, now, ttl, f, e, id);
    } else {
      MintSimulates(st, scope, digest, prints, now, ttl, f, e, id);
    }
  }

  /** The candidate ids of a whole batch: distinct, and never seen in this session in either vault. */
  ghost predicate FreshIds(st: Store, scope: Scope, f: FakeVault.Session, ids: seq<TokenId>) {
    Fresh(st, scope, ids) && forall i :: 0 <= i < |ids| ==> FakeUnused(f, ids[i])
  }

  /** The id each entry offers when taken one at a time. */
  function OfferedIds(entries: seq<VaultWriteRequest>, ids: seq<TokenId>): (r: seq<TokenId>)
    requires |entries| <= |ids|
    ensures |r| == |entries|
  {
    seq(|entries|, i requires 0 <= i < |entries| =>
      var j := Find(Unique(entries), Identity(entries[i])); if j < |ids| then ids[j] else ids[i])
  }

  lemma OfferedPrefix(front: seq<VaultWriteRequest>, e: VaultWriteRequest, ids: seq<TokenId>)
    requires |front| < |ids|
    ensures OfferedIds(front + [e], ids) == OfferedIds(front, ids) + [OfferedId(front, e, ids)]
  {
    hide Find, Unique, Grammar.IsValidTokenId;
    var u, all := Unique(front), front + [e];
    UniqueSnoc(front, e);
    forall i | 0 <= i < |all|
      ensures OfferedIds(all, ids)[i] == if i < |front| then OfferedIds(front, ids)[i] else OfferedId(front, e, ids)
    {
      FindAppend(u, e, Identity(all[i]));
      if i < |front| {
        assert all[i] == front[i];
        UniqueFinds(front, i);
      }
    }
  }

  /** The id a further entry offers: its identity's when that was met before, else the next one. */
  function OfferedId(front: seq<VaultWriteRequest>, e: VaultWriteRequest, ids: seq<TokenId>): TokenId
    requires |front| < |ids|
  {
    var j := Find(Unique(front), Identity(e));
    if j < |Unique(front)| then ids[j] else ids[|Unique(front)|]
  }

  lemma OneAtATimeSnoc(scope: Scope, digest: Digester, front: seq<VaultWriteRequest>, e: VaultWriteRequest,
                       ids: seq<TokenId>)
    requires |front| < |ids|
    ensures OneAtATime(scope, digest, front + [e], ids)
         == OneAtATime(scope, digest, front, ids) + [Candidate(scope, digest, e, OfferedId(front, e, ids))]
  {
    hide Find, Unique, Candidate;
    var all := front + [e];
    assert all[..|front|] == front;
    OneAtATimePrefix(scope, digest, all, ids);
    LastCandidate(scope, digest, front, e, ids);
    assert OneAtATime(scope, digest, all, ids)
        == OneAtATime(scope, digest, all, ids)[..|front|] + [OneAtATime(scope, digest, all, ids)[|front|]];
  }

  /** Met before, an identity is reusable; new, its offered id is still unused. */
  lemma OfferedIsReusableOrUnused(st: Store, scope: Scope, digest: Digester, now: int, ttl: int,
                                  front: seq<VaultWriteRequest>, e: VaultWriteRequest, ids: seq<TokenId>)
    requires ttl > 0 && |front| < |ids|
    requires forall i :: 0 <= i < |ids| ==> Unused(st, scope, ids[i])
    requires forall i, j :: 0 <= i < j < |ids| ==> ids[i] != ids[j]
    ensures var before := Fold(st, scope, now, ttl, Candidates(scope, digest, Unique(front), ids)).0;
            Reusable(before, (scope, e.entityType, digest(e.normalizedHmac)), now)
            || (OfferedId(front, e, ids) == ids[|Unique(front)|] && Unused(before, scope, OfferedId(front, e, ids)))
  {
    hide Fold, Unused, Unique, Find, Grammar.IsValidTokenId;
    var u := Unique(front);
    var offered := Candidates(scope, digest, u, ids);
    var j := Find(u, Identity(e));
    if j < |u| {
      FoldHolds(st, scope, now, ttl, offered, j);
    } else {
      FoldKeepsUnused(st, scope, now, ttl, offered, scope, ids[|u|]);
    }
  }

  lemma {:induction false} FakeFoldKeepsUnused(
    f: FakeVault.Session, entries: seq<VaultWriteRequest>, offered: seq<TokenId>, until: int, id: string)
    requires |offered| == |entries| && FakeUnused(f, id)
    requires forall i :: 0 <= i < |entries| ==> offered[i] != id && Grammar.IsValidEntityType(entries[i].entityType)
    ensures FakeUnused(FakeVault.Fold(f, entries, offered, until).0, id)
  {
    hide FakeUnused, FakeVault.GetOrCreate, Grammar.IsValidEntityType, Grammar.IsValidTokenId;
    if entries != [] {
      var n := |entries| - 1;
      FakeFoldKeepsUnused(f, entries[..n], offered[..n], until, id);
      StepKeepsFakeUnused(FakeVault.Fold(f, entries[..n], offered[..n], until).0, entries[n], offered[n], until, id);
    }
  }

  lemma FakeFoldSnoc(f: FakeVault.Session, front: seq<VaultWriteRequest>, e: VaultWriteRequest,
                     offered: seq<TokenId>, id: TokenId, until: int)
    requires |offered| == |front|
    ensures var (before, tokens) := FakeVault.Fold(f, front, offered, until);
            var (after, token) := FakeVault.GetOrCreate(before, e, id, until);
            FakeVault.Fold(f, front + [e], offered + [id], until) == (after, tokens + [token])
  {
    hide FakeVault.GetOrCreate;
    assert (front + [e])[..|front|] == front && (offered + [id])[..|offered|] == offered;
  }

  /** Token for token, the answers of Redis taken one at a time are the tokens of the dictionaries. */
  ghost predicate SameTokens(entries: seq<VaultWriteRequest>, answers: seq<(string, bool)>, tokens: seq<string>) {
    && |answers| == |tokens| == |entries|
    && forall i :: 0 <= i < |entries| ==> tokens[i] == Grammar.Bracket(entries[i].entityType, answers[i].0)
  }

  ghost predicate AllValid(entries: seq<VaultWriteRequest>) {
    forall i :: 0 <= i < |entries| ==> Grammar.IsValidEntityType(entries[i].entityType)
  }

  /** The fingerprints of a batch are among those in use. */
  predicate FromPrints(entries: seq<VaultWriteRequest>, prints: set<string>) {
    forall i :: 0 <= i < |entries| ==> entries[i].normalizedHmac in prints
  }

  lemma SameTokensSnoc(front: seq<VaultWriteRequest>, e: VaultWriteRequest, answers: seq<(string, bool)>,
                       answer: (string, bool), tokens: seq<string>)
    requires SameTokens(front, answers, tokens)
    ensures SameTokens(front + [e], answers + [answer], tokens + [Grammar.Bracket(e.entityType, answer.0)])
  {
    hide Grammar.Bracket;
  }

  lemma {:induction false} FoldSimulates(
    st: Store, scope: Scope, digest: Digester, prints: set<string>, now: int, ttl: int,
    f: FakeVault.Session, entries: seq<VaultWriteRequest>, ids: seq<TokenId>)
    requires Simulates(st, scope, digest, prints, now, f) && AllLive(f, now) && Consistent(st)
    requires ttl > 0 && Separates(digest, prints) && IsDigester(digest)
    requires AllValid(entries) && FromPrints(entries, prints)
    requires |entries| <= |ids| && FreshIds(st, scope, f, ids)
    ensures var (s, answers) := Fold(st, scope, now, ttl, OneAtATime(scope, digest, entries, ids));
            var (g, tokens) := FakeVault.Fold(f, entries, OfferedIds(entries, ids), now + ttl);
            SameTokens(entries, answers, tokens) && Simulates(s, scope, digest, prints, now, g) && AllLive(g, now)
            && Consistent(s)
  {
    hide Simulates, AllLive, Consistent, Unused, FakeUnused, GetOrCreate, FakeVault.GetOrCreate, Candidate,
         Grammar.IsValidEntityType, Grammar.IsValidTokenId, Separates, IsDigester, Reusable, Fold, FakeVault.Fold,
         OneAtATime, OfferedIds, SameTokens, Unique, Find, OfferedId;
    if entries == [] {
      FoldNil(st, scope, now, ttl);
      EmptyFakeFold(f, OfferedIds(entries, ids), now + ttl);
      assert OneAtATime(scope, digest, entries, ids) == [];
    } else {
      var n := |entries| - 1;
      var front, e := entries[..n], entries[n];
      assert entries == front + [e];
      FoldSimulates(st, scope, digest, prints, now, ttl, f, front, ids);
      var id := OfferedId(front, e, ids);
      OneAtATimeSnoc(scope, digest, front, e, ids);
      OfferedPrefix(front, e, ids);
      BatchIsFold(st, scope, digest, now, ttl, front, ids);
      OfferedIsReusableOrUnused(st, scope, digest, now, ttl, front, e, ids);
      var all := OneAtATime(scope, digest, entries, ids);
      assert all[..n] == OneAtATime(scope, digest, front, ids);
      FoldSnoc(st, scope, now, ttl, all);
      FakeFoldSnoc(f, front, e, OfferedIds(front, ids), id, now + ttl);
      var (before, answers) := Fold(st, scope, now, ttl, all[..n]);
      var (g, tokens) := FakeVault.Fold(f, front, OfferedIds(front, ids), now + ttl);
      NewIdUnusedInFake(f, front, e, ids, now + ttl);
      StepSimulates(before, scope, digest, prints, now, ttl, g, e, id);
      StepStaysConsistent(before, scope, digest, now, ttl, e, id);
      SameTokensSnoc(front, e, answers, GetOrCreate(before, scope, now, ttl, all[n]).1, tokens);
    }
  }

  lemma EmptyFakeFold(f: FakeVault.Session, offered: seq<TokenId>, until: int)
    requires offered == []
    ensures FakeVault.Fold(f, [], offered, until) == (f, [])
    ensures SameTokens([], [], [])
  {
  }

  lemma NewIdUnusedInFake(f: FakeVault.Session, front: seq<VaultWriteRequest>, e: VaultWriteRequest,
                          ids: seq<TokenId>, until: int)
    requires |front| < |ids| && AllValid(front)
    requires forall i :: 0 <= i < |ids| ==> FakeUnused(f, ids[i])
    requires forall i, j :: 0 <= i < j < |ids| ==> ids[i] != ids[j]
    ensures FakeUnused(FakeVault.Fold(f, front, OfferedIds(front, ids), until).0, ids[|Unique(front)|])
  {
    hide FakeUnused, FakeVault.Fold, Find, Unique, Grammar.IsValidEntityType, Grammar.IsValidTokenId;
    var u := Unique(front);
    var offered := OfferedIds(front, ids);
    forall i | 0 <= i < |front|
      ensures offered[i] != ids[|u|]
    {
      UniqueFinds(front, i);
    }
    FakeFoldKeepsUnused(f, front, offered, until, ids[|u|]);
  }

  lemma StepStaysConsistent(st: Store, scope: Scope, digest: Digester, now: int, ttl: int, e: VaultWriteRequest,
                            id: TokenId)
    requires Consistent(st) && Grammar.IsValidEntityType(e.entityType) && IsDigester(digest)
    requires Reusable(st, (scope, e.entityType, digest(e.normalizedHmac)), now) || Unused(st, scope, id)
    ensures Consistent(GetOrCreate(st, scope, now, ttl, Candidate(scope, digest, e, id)).0)
  {
    hide Grammar.IsValidEntityType, Grammar.IsValidTokenId, Unused, Grammar.Bracket, IsDigest;
    var k := (scope, e.entityType, digest(e.normalizedHmac));
    if Reusable(st, k, now) {
      ReuseEffect(st, k, now, ttl);
      RenewedConsistent(st, k, now, ttl);
    } else {
      StepConsistent(st, scope, now, ttl, Candidate(scope, digest, e, id));
    }
  }

  lemma RenewedConsistent(st: Store, k: IndexName, now: int, ttl: int)
    requires Consistent(st) && Reusable(st, k, now)
    ensures Consistent(Reuse(st, k, now, ttl))
  {
    hide Grammar.IsValidEntityType, Grammar.IsValidTokenId;
    var after := Reuse(st, k, now, ttl);
    forall l | l in after.index
      ensures LeadsToItsType(after, l)
    {
      assert LeadsToItsType(st, l);
    }
  }

  /** Every id the script returns is a token id, so a batch write on a consistent store succeeds. */
  lemma RepliesAreTokenIds(st: Store, scope: Scope, now: int, ttl: int, entries: seq<BatchEntry>)
    requires Consistent(st) && LegalBatch(st, scope, entries) && ttl > 0
    ensures WellFormedReplies(Fold(st, scope, now, ttl, entries).1)
  {
    hide Fold, Consistent, LegalBatch, Grammar.IsValidTokenId, Grammar.IsValidEntityType;
    FoldConsistent(st, scope, now, ttl, entries);
    var (after, replies) := Fold(st, scope, now, ttl, entries);
    forall i | 0 <= i < |replies|
      ensures Grammar.IsValidTokenId(replies[i].0)
    {
      FoldHolds(st, scope, now, ttl, entries, i);
      IndexedIdValid(after, IndexOf(scope, entries[i]));
    }
  }

  lemma IndexedIdValid(st: Store, k: IndexName)
    requires Consistent(st) && k in st.index
    ensures Grammar.IsValidTokenId(st.index[k].tokenId)
  {
    hide Grammar.IsValidTokenId, Grammar.IsValidEntityType, RecordsWellSealed;
    assert LeadsToItsType(st, k);
  }

  lemma SameCellsSimulate(st: Store, s: Store, scope: Scope, digest: Digester, prints: set<string>, now: int,
                          f: FakeVault.Session)
    requires Simulates(st, scope, digest, prints, now, f) && s.records == st.records && s.index == st.index
    ensures Simulates(s, scope, digest, prints, now, f)
  {
    hide Grammar.ParseToken, Grammar.Bracket;
    forall id
      ensures RecordAgrees(s, scope, now, f, id)
    {
      assert RecordAgrees(st, scope, now, f, id);
    }
    forall k: (string, string) | k.1 in prints
      ensures IndexAgrees(s, scope, digest, now, f, k)
    {
      assert IndexAgrees(st, scope, digest, now, f, k);
    }
  }

  /** The whole batch write: deduplicated, run as one script and expanded, Redis returns token for
      token what the simple vault returns entry by entry, and the two vaults stay in step. */
  lemma WriteSimulates(st: Store, scope: Scope, digest: Digester, prints: set<string>, now: int, ttl: int,
                       f: FakeVault.Session, entries: seq<VaultWriteRequest>, ids: seq<TokenId>)
    requires Simulates(st, scope, digest, prints, now, f) && AllLive(f, now) && Consistent(st)
    requires Separates(digest, prints) && IsDigester(digest) && Accepts(entries, ttl) && entries != []
    requires FromPrints(entries, prints)
    requires |entries| <= |ids| && FreshIds(st, scope, f, ids)
    ensures var (s, r) := Written(st, scope, digest, now, entries, ttl, ids);
            var (g, tokens) := FakeVault.Fold(f, entries, OfferedIds(entries, ids), now + ttl);
            r == Ok(tokens) && Simulates(s, scope, digest, prints, now, g) && AllLive(g, now) && Consistent(s)
  {
    hide Simulates, AllLive, Consistent, Fresh, FakeUnused, Separates, IsDigester, Fold, FakeVault.Fold, OneAtATime,
         OfferedIds, Unique, Find, Grammar.Bracket, Grammar.IsValidTokenId, Grammar.IsValidEntityType, ExpireMeta,
         LegalBatch, WellFormedReplies;
    assert AllValid(entries);
    FreshBatchIsLegal(st, scope, digest, entries, ttl, ids);
    var offered := Candidates(scope, digest, Unique(entries), ids);
    RepliesAreTokenIds(st, scope, now, ttl, offered);
    BatchIsFold(st, scope, digest, now, ttl, entries, ids);
    FoldSimulates(st, scope, digest, prints, now, ttl, f, entries, ids);
    var (folded, replies) := Fold(st, scope, now, ttl, offered);
    var (g, tokens) := FakeVault.Fold(f, entries, OfferedIds(entries, ids), now + ttl);
    assert Tokens(entries, Unique(entries), replies) == tokens;
    var s := ExpireMeta(folded, scope, now, ttl);
    ExpireMetaFrame(folded, scope, now, ttl);
    SameCellsSimulate(folded, s, scope, digest, prints, now, g);
    ExpireMetaConsistent(folded, scope, now, ttl);
  }

  /** The simple vault's purge removes nothing that Redis would still find. */
  lemma PurgeSimulates(st: Store, scope: Scope, digest: Digester, prints: set<string>, now: int, f: FakeVault.Session)
    requires Simulates(st, scope, digest, prints, now, f) && Consistent(st)
    ensures Simulates(st, scope, digest, prints, now, FakeVault.Purged(f, now))
    ensures AllLive(FakeVault.Purged(f, now), now)
  {
    hide Grammar.ParseToken, Grammar.Bracket, Grammar.IsValidTokenId, Grammar.IsValidEntityType, Consistent,
         IndexAgrees;
    var g := FakeVault.Purged(f, now);
    forall id
      ensures RecordAgrees(st, scope, now, g, id)
    {
      assert RecordAgrees(st, scope, now, f, id);
    }
    forall k: (string, string) | k.1 in prints
      ensures IndexAgrees(st, scope, digest, now, g, k)
    {
      PurgedIndexAgrees(st, scope, digest, prints, now, f, k);
    }
  }

  lemma PurgedIndexAgrees(st: Store, scope: Scope, digest: Digester, prints: set<string>, now: int,
                          f: FakeVault.Session, k: (string, string))
    requires Simulates(st, scope, digest, prints, now, f) && Consistent(st) && k.1 in prints
    ensures IndexAgrees(st, scope, digest, now, FakeVault.Purged(f, now), k)
  {
    hide Grammar.ParseToken, Grammar.Bracket, Grammar.IsValidTokenId, Grammar.IsValidEntityType;
    assert IndexAgrees(st, scope, digest, now, f, k);
    var r := (scope, k.0, digest(k.1));
    if Reusable(st, r, now) {
      var id := st.index[r].tokenId;
      assert LeadsToItsType(st, r);
      assert RecordAgrees(st, scope, now, f, id);
      assert WellSealed((scope, id), st.records[(scope, id)].content);
      BracketParses(k.0, id);
      assert f.records[id].token == f.index[k];
      var records := map i | i in f.records && f.records[i].expiresAt > now :: f.records[i];
      assert id in records && records[id].token == f.index[k];
      assert f.index[k] in set i | i in records :: records[i].token;
    }
  }

  /** Time passing keeps the vaults in step, because an index key and its record expire together. */
  lemma WaitSimulates(st: Store, scope: Scope, digest: Digester, prints: set<string>, now: int, later: int,
                      f: FakeVault.Session)
    requires Simulates(st, scope, digest, prints, now, f) && Bookkept(st, now) && now <= later && Consistent(st)
    ensures Simulates(st, scope, digest, prints, later, f)
  {
    hide Grammar.ParseToken, Grammar.Bracket, Grammar.IsValidTokenId, Grammar.IsValidEntityType, IndexAgrees, OneOwner;
    forall id
      ensures RecordAgrees(st, scope, later, f, id)
    {
      assert RecordAgrees(st, scope, now, f, id);
    }
    forall k: (string, string) | k.1 in prints
      ensures IndexAgrees(st, scope, digest, later, f, k)
    {
      LaterIndexAgrees(st, scope, digest, prints, now, later, f, k);
    }
  }

  lemma LaterIndexAgrees(st: Store, scope: Scope, digest: Digester, prints: set<string>, now: int, later: int,
                         f: FakeVault.Session, k: (string, string))
    requires Simulates(st, scope, digest, prints, now, f) && Paired(st, now) && now <= later && Consistent(st)
    requires k.1 in prints
    ensures IndexAgrees(st, scope, digest, later, f, k)
  {
    hide Grammar.ParseToken, Grammar.Bracket, Grammar.IsValidTokenId, Grammar.IsValidEntityType;
    assert IndexAgrees(st, scope, digest, now, f, k);
    var r := (scope, k.0, digest(k.1));
    if Reusable(st, r, now) {
      var id := st.index[r].tokenId;
      assert PairedAt(st, r, now);
      assert LeadsToItsType(st, r);
      assert RecordAgrees(st, scope, now, f, id);
      BracketParses(k.0, id);
    }
  }

  /** Both vaults resolve a token to the same value. They differ only on a token whose id is live
      under another type: Redis refuses the whole call, the simple vault skips the token. */
  lemma LookUpSimulates(st: Store, scope: Scope, digest: Digester, prints: set<string>, now: int, f: FakeVault.Session,
                        token: string)
    requires Simulates(st, scope, digest, prints, now, f) && AllLive(f, now) && Consistent(st)
    ensures FakeVault.LookUp(f, token)
         == match LookUp(st, scope, now, token) case Found(v) => Some(v) case _ => None
  {
    hide Grammar.ParseToken, Grammar.FormatToken, IndexAgrees;
    var parsed := Grammar.ParseToken(token);
    if parsed.Some? {
      var id := parsed.value.tokenId;
      assert RecordAgrees(st, scope, now, f, id);
      if RecordLive(st, (scope, id), now) {
        Grammar.ParseIffFormat(token, parsed.value);
        assert WellSealed((scope, id), st.records[(scope, id)].content);
        DistinctTypesDistinctTokens(parsed.value, st.records[(scope, id)].content.record.entityType);
      }
    }
  }

  /** The dictionaries hold the token's id for a value of another type. */
  predicate UnderOtherType(f: FakeVault.Session, token: string) {
    var parsed := Grammar.ParseToken(token);
    parsed.Some? && parsed.value.tokenId in f.records
    && f.records[parsed.value.tokenId].entityType != parsed.value.entityType
  }

  lemma RefusedIffUnderOtherType(st: Store, scope: Scope, now: int, f: FakeVault.Session, token: string)
    requires forall id :: RecordAgrees(st, scope, now, f, id)
    requires AllLive(f, now) && Consistent(st)
    ensures LookUp(st, scope, now, token).Refused? <==> UnderOtherType(f, token)
  {
    hide Grammar.ParseToken, Consistent, LookUp;
    RefusedIffOtherType(st, scope, now, token);
    var parsed := Grammar.ParseToken(token);
    if parsed.Some? {
      assert RecordAgrees(st, scope, now, f, parsed.value.tokenId);
    }
  }

  /** A whole call: Redis answers with the dictionaries' own map exactly when none of the tokens wanted
      names an id that is live under another type, and otherwise refuses them all. */
  lemma ResolutionSimulates(st: Store, scope: Scope, digest: Digester, prints: set<string>, now: int,
                            f: FakeVault.Session, tokens: set<string>)
    requires Simulates(st, scope, digest, prints, now, f) && AllLive(f, now) && Consistent(st)
    ensures Resolution(st, scope, now, tokens) ==
            if exists t :: t in tokens && UnderOtherType(f, t) then Err(VaultEncryption)
            else Ok(map t | t in tokens && FakeVault.LookUp(f, t).Some? :: FakeVault.LookUp(f, t).value)
  {
    hide RecordAgrees, IndexAgrees, AllLive, Consistent, LookUp, UnderOtherType, FakeVault.LookUp;
    forall t
      ensures LookUp(st, scope, now, t).Refused? <==> UnderOtherType(f, t)
      ensures FakeVault.LookUp(f, t) == match LookUp(st, scope, now, t) case Found(v) => Some(v) case _ => None
    {
      RefusedIffUnderOtherType(st, scope, now, f, t);
      LookUpSimulates(st, scope, digest, prints, now, f, t);
    }
    assert (map t | t in tokens && LookUp(st, scope, now, t).Found? :: LookUp(st, scope, now, t).value)
        == map t | t in tokens && FakeVault.LookUp(f, t).Some? :: FakeVault.LookUp(f, t).value;
  }

  lemma DistinctTypesDistinctTokens(t: Grammar.Token, other: string)
    requires Grammar.FormatToken(t.entityType, t.tokenId).Some?
    ensures Grammar.FormatToken(other, t.tokenId) == Grammar.FormatToken(t.entityType, t.tokenId) ==>
              other == t.entityType
  {
    hide Grammar.ParseToken, Grammar.FormatToken;
    var text := Grammar.FormatToken(t.entityType, t.tokenId).value;
    Grammar.ParseIffFormat(text, t);
    Grammar.ParseIffFormat(text, Grammar.Token(other, t.tokenId));
  }
}
