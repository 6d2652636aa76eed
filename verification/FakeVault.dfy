/** The in-memory vault: one dictionary of records and one of fingerprints per session. */
module FakeVault {
  import opened Wrappers
  import opened Domain
  import opened VaultKeys
  import opened RedisVault
  import Grammar = TokenGrammar

  datatype Entry = Entry(token: string, entityType: string, originalValue: string, expiresAt: int)

  datatype Session = Session(records: map<string, Entry>, index: map<(string, string), string>)

  const EMPTY := Session(map[], map[])

  /** Drop expired records; when any were dropped, drop the index entries that lead to none. */
  function Purged(s: Session, now: int): Session {
    var records := map id | id in s.records && s.records[id].expiresAt > now :: s.records[id];
    if records == s.records then s
    else
      var live := set id | id in records :: records[id].token;
      Session(records, map k | k in s.index && s.index[k] in live :: s.index[k])
  }

  /** Mint or reuse one mapping, as `_get_or_create_locked`. */
  function GetOrCreate(s: Session, e: VaultWriteRequest, id: TokenId, expiresAt: int): (Session, string) {
    var k := Identity(e);
    var parsed := if k in s.index then Grammar.ParseToken(s.index[k]) else None;
    if parsed.Some? && parsed.value.tokenId in s.records then
      (s.(records := s.records[parsed.value.tokenId := s.records[parsed.value.tokenId].(expiresAt := expiresAt)]),
       s.index[k])
    else
      var token := Grammar.Bracket(e.entityType, id);
      (Session(s.records[id := Entry(token, e.entityType, e.originalValue, expiresAt)], s.index[k := token]), token)
  }

  /** Entry after entry; `ids[i]` is the fresh id entry `i` takes if it mints. */
  function Fold(s: Session, entries: seq<VaultWriteRequest>, ids: seq<TokenId>, expiresAt: int)
    : (r: (Session, seq<string>))
    requires |ids| == |entries|
    ensures |r.1| == |entries|
  {
    if entries == [] then (s, [])
    else
      var n := |entries| - 1;
      var (before, tokens) := Fold(s, entries[..n], ids[..n], expiresAt);
      var (after, token) := GetOrCreate(before, entries[n], ids[n], expiresAt);
      (after, tokens + [token])
  }

  function LookUp(s: Session, token: string): Option<string> {
    var parsed := Grammar.ParseToken(token);
    if parsed.None? || parsed.value.tokenId !in s.records then None
    else
      var entry := s.records[parsed.value.tokenId];
      if entry.token != token then None else Some(entry.originalValue)
  }

  function SessionOf(sessions: map<Scope, Session>, scope: Scope): Session {
    if scope in sessions then sessions[scope] else EMPTY
  }

  /** The checks of a write. Unlike Redis, there is no largest TTL, no largest batch, and an empty
      fingerprint is taken as it is. */
  predicate Refuses(entries: seq<VaultWriteRequest>, ttl: int) {
    ttl < 1 || exists i :: 0 <= i < |entries| && !Grammar.IsValidEntityType(entries[i].entityType)
  }

  function WrittenTo(sessions: map<Scope, Session>, scope: Scope, now: int,
                     entries: seq<VaultWriteRequest>, ttl: int, ids: seq<TokenId>)
    : (map<Scope, Session>, Result<seq<string>, GatewayError>)
    requires |ids| == |entries|
  {
    if Refuses(entries, ttl) then (sessions, Err(ValueError))
    else if entries == [] then (sessions, Ok([]))
    else
      var (after, tokens) := Fold(Purged(SessionOf(sessions, scope), now), entries, ids, now + ttl);
      (sessions[scope := after], Ok(tokens))
  }

  /** The session after resolving, and every wanted token it knows. */
  function ResolvedFrom(sessions: map<Scope, Session>, scope: Scope, now: int, tokens: set<string>)
    : (map<Scope, Session>, map<string, string>)
  {
    if scope !in sessions then (sessions, map[])
    else
      var purged := Purged(sessions[scope], now);
      (sessions[scope := purged], map t | t in tokens && LookUp(purged, t).Some? :: LookUp(purged, t).value)
  }

  /** Expired records not yet purged are counted too. */
  function DeletedFrom(sessions: map<Scope, Session>, scope: Scope): (map<Scope, Session>, nat) {
    (sessions - {scope}, |SessionOf(sessions, scope).records|)
  }

  class InMemoryTokenVault {
    var sessions: map<Scope, Session>

    constructor ()
      ensures sessions == map[]
    {
      sessions := map[];
    }

    method GetOrCreateMany(scope: Scope, entries: seq<VaultWriteRequest>, ttl: int, now: int, ids: seq<TokenId>)
      returns (r: Result<seq<string>, GatewayError>)
      requires |ids| == |entries|
      modifies this
      ensures (sessions, r) == WrittenTo(old(sessions), scope, now, entries, ttl, ids)
    {
      hide Grammar.IsValidEntityType, GetOrCreate;
      for i := 0 to |entries|
        invariant forall j :: 0 <= j < i ==> Grammar.IsValidEntityType(entries[j].entityType)
      {
        if !Grammar.IsValidEntityType(entries[i].entityType) {
          return Err(ValueError);
        }
      }
      if ttl < 1 {
        return Err(ValueError);
      }
      if entries == [] {
        return Ok([]);
      }
      var session := if scope in sessions then sessions[scope] else EMPTY;
      session := Purged(session, now);
      ghost var start := session;
      var tokens: seq<string> := [];
      for i := 0 to |entries|
        invariant (session, tokens) == Fold(start, entries[..i], ids[..i], now + ttl)
        invariant sessions == old(sessions)
      {
        assert entries[..i + 1][..i] == entries[..i] && ids[..i + 1][..i] == ids[..i];
        var (s, token) := GetOrCreate(session, entries[i], ids[i], now + ttl);
        session := s;
        tokens := tokens + [token];
      }
      assert entries[..|entries|] == entries && ids[..|ids|] == ids;
      sessions := sessions[scope := session];
      r := Ok(tokens);
    }

    method ResolveMany(scope: Scope, tokens: set<string>, now: int) returns (resolved: map<string, string>)
      modifies this
      ensures (sessions, resolved) == ResolvedFrom(old(sessions), scope, now, tokens)
    {
      resolved := map[];
      if scope !in sessions {
        return;
      }
      var session := Purged(sessions[scope], now);
      sessions := sessions[scope := session];
      var wanted := tokens;
      while wanted != {}
        invariant wanted <= tokens
        invariant forall t :: t in resolved <==> t in tokens - wanted && LookUp(session, t).Some?
        invariant forall t :: t in resolved ==> resolved[t] == LookUp(session, t).value
        decreases wanted
      {
        var token :| token in wanted;
        wanted := wanted - {token};
        var value := LookUp(session, token);
        if value.Some? {
          resolved := resolved[token := value.value];
        }
      }
      assert resolved == map t | t in tokens && LookUp(session, t).Some? :: LookUp(session, t).value;
    }

    method DeleteSession(scope: Scope) returns (deleted: nat)
      modifies this
      ensures (sessions, deleted) == DeletedFrom(old(sessions), scope)
    {
      if scope !in sessions {
        assert sessions - {scope} == sessions;
        return 0;
      }
      deleted := |sessions[scope].records|;
      sessions := sessions - {scope};
    }
  }
}
