/** Redis key names. Three families per tenant and session; no two keys share a name, and the two
    string tests by which a session is deleted classify every name correctly. */
module VaultKeys {
  import opened Identifiers
  import Grammar = TokenGrammar

  datatype Scope = Scope(tenantId: Uuid, sessionId: Uuid)

  /** `digest` is a SHA-256 in hexadecimal. */
  datatype Key =
    | RecordKey(scope: Scope, tokenId: string)
    | IndexKey(scope: Scope, entityType: string, digest: string)
    | MetaKey(scope: Scope)

  predicate IsDigest(s: string) {
    |s| == 64 && IsHex(s)
  }

  predicate ValidKey(k: Key) {
    match k
    case RecordKey(_, id) => Grammar.IsValidTokenId(id)
    case IndexKey(_, entityType, digest) => Grammar.IsValidEntityType(entityType) && IsDigest(digest)
    case MetaKey(_) => true
  }

  const KEY_PREFIX := "sgw:v1"
  const TOKEN_SEGMENT := ":token:"
  const PREFIX_LENGTH := 6 + 1 + 36 + 1 + 36

  function SessionPrefix(scope: Scope): (s: string)
    ensures |s| == PREFIX_LENGTH
  {
    KEY_PREFIX + ":" + Text(scope.tenantId) + ":" + Text(scope.sessionId)
  }

  function Tail(k: Key): string {
    match k
    case RecordKey(_, id) => TOKEN_SEGMENT + id
    case IndexKey(_, entityType, digest) => ":fingerprint:" + (entityType + ":" + digest)
    case MetaKey(_) => ":meta"
  }

  /** The key as it is stored. */
  function KeyText(k: Key): string {
    SessionPrefix(k.scope) + Tail(k)
  }

  lemma SessionPrefixInjective(a: Scope, b: Scope)
    requires SessionPrefix(a) == SessionPrefix(b)
    ensures a == b
  {
    hide Text;
    var s, t := SessionPrefix(a), SessionPrefix(b);
    assert s[7..43] == Text(a.tenantId) && s[44..] == Text(a.sessionId);
    assert t[7..43] == Text(b.tenantId) && t[44..] == Text(b.sessionId);
    TextInjective(a.tenantId, b.tenantId);
    TextInjective(a.sessionId, b.sessionId);
  }

  lemma TailFamily(k: Key)
    ensures |Tail(k)| >= 5 && Tail(k)[0] == ':'
    ensures Tail(k)[1] == match k case RecordKey(_, _) => 't' case IndexKey(_, _, _) => 'f' case MetaKey(_) => 'm'
  {
  }

  lemma SameLengthFields(t: string, d: string, u: string, e: string)
    requires |d| == |e| && t + ":" + d == u + ":" + e
    ensures t == u && d == e
  {
    var s := t + ":" + d;
    assert s[|t| + 1..] == d && s[|u| + 1..] == e;
    assert s[..|t|] == t && s[..|u|] == u;
  }

  lemma TailInjective(a: Key, b: Key)
    requires ValidKey(a) && ValidKey(b) && a.scope == b.scope && Tail(a) == Tail(b)
    ensures a == b
  {
    hide Grammar.IsValidTokenId, Grammar.IsValidEntityType;
    TailFamily(a);
    TailFamily(b);
    match a {
      case RecordKey(_, i) =>
        assert Tail(a)[7..] == i && Tail(b)[7..] == b.tokenId;
      case IndexKey(_, t, d) =>
        assert Tail(a)[13..] == t + ":" + d && Tail(b)[13..] == b.entityType + ":" + b.digest;
        SameLengthFields(t, d, b.entityType, b.digest);
      case MetaKey(_) =>
    }
  }

  /** No crafted field can make one key collide with another, in its own session or elsewhere. */
  lemma KeyTextInjective(a: Key, b: Key)
    requires ValidKey(a) && ValidKey(b) && KeyText(a) == KeyText(b)
    ensures a == b
  {
    hide SessionPrefix, ValidKey, Tail;
    assert KeyText(a)[..PREFIX_LENGTH] == SessionPrefix(a.scope);
    assert KeyText(b)[..PREFIX_LENGTH] == SessionPrefix(b.scope);
    SessionPrefixInjective(a.scope, b.scope);
    assert KeyText(a)[PREFIX_LENGTH..] == Tail(a) && KeyText(b)[PREFIX_LENGTH..] == Tail(b);
    TailInjective(a, b);
  }

  /** `key.startswith(f"{prefix}:")` holds of exactly the keys of that session. */
  lemma OwnedIff(k: Key, scope: Scope)
    ensures SessionPrefix(scope) + ":" <= KeyText(k) <==> k.scope == scope
  {
    hide SessionPrefix;
    assert KeyText(k)[..PREFIX_LENGTH] == SessionPrefix(k.scope);
    if SessionPrefix(scope) + ":" <= KeyText(k) {
      assert KeyText(k)[..PREFIX_LENGTH] == (SessionPrefix(scope) + ":")[..PREFIX_LENGTH] == SessionPrefix(scope);
      SessionPrefixInjective(k.scope, scope);
    }
    assert Tail(k)[0] == ':';
    assert KeyText(k)[PREFIX_LENGTH] == ':';
    if k.scope == scope {
      assert KeyText(k)[..PREFIX_LENGTH + 1] == SessionPrefix(scope) + ":";
    }
  }

  predicate OccursAt(s: string, t: string, p: nat) {
    p + |t| <= |s| && s[p..p + |t|] == t
  }

  /** `t in s` */
  predicate Contains(s: string, t: string) {
    exists p: nat :: p <= |s| && OccursAt(s, t, p)
  }

  /** No separator is followed by a `t`, and none ends the text. */
  predicate NoTokenSegmentBegins(s: string) {
    forall p :: 0 <= p < |s| && s[p] == ':' ==> p + 1 < |s| && s[p + 1] != 't'
  }

  lemma NoSegmentConcat(a: string, b: string)
    requires NoTokenSegmentBegins(a) && NoTokenSegmentBegins(b)
    ensures NoTokenSegmentBegins(a + b)
  {
  }

  lemma PrefixHasNoSegment(scope: Scope)
    ensures NoTokenSegmentBegins(SessionPrefix(scope))
  {
    hide Text;
    var t, s := Text(scope.tenantId), Text(scope.sessionId);
    assert t[0] != ':' && t[0] != 't' && s[0] != ':' && s[0] != 't';
    assert SessionPrefix(scope) == (KEY_PREFIX + (":" + t)) + (":" + s);
    NoSegmentConcat(KEY_PREFIX, ":" + t);
    NoSegmentConcat(KEY_PREFIX + (":" + t), ":" + s);
  }

  /** `":token:" in key` holds of exactly the record keys. */
  lemma TokenSegmentIff(k: Key)
    requires ValidKey(k)
    ensures Contains(KeyText(k), TOKEN_SEGMENT) <==> k.RecordKey?
  {
    hide SessionPrefix;
    var text := KeyText(k);
    if k.RecordKey? {
      assert OccursAt(text, TOKEN_SEGMENT, PREFIX_LENGTH) by {
        assert text[PREFIX_LENGTH..] == Tail(k);
        assert text[PREFIX_LENGTH..PREFIX_LENGTH + 7] == Tail(k)[..7] == TOKEN_SEGMENT;
      }
    } else {
      PrefixHasNoSegment(k.scope);
      if k.IndexKey? {
        FieldsHaveNoSegment(k.entityType, k.digest);
        NoSegmentConcat(":fingerprint", ":" + k.entityType + (":" + k.digest));
        assert Tail(k) == ":fingerprint" + (":" + k.entityType + (":" + k.digest));
      }
      NoSegmentConcat(SessionPrefix(k.scope), Tail(k));
      forall p: nat | p <= |text|
        ensures !OccursAt(text, TOKEN_SEGMENT, p)
      {
        NoSegmentAt(text, p);
      }
    }
  }

  lemma NoSegmentAt(text: string, p: nat)
    requires NoTokenSegmentBegins(text)
    ensures !OccursAt(text, TOKEN_SEGMENT, p)
  {
    if p + 7 <= |text| {
      assert text[p..p + 7][0] == text[p] && text[p..p + 7][1] == text[p + 1];
    }
  }

  lemma FieldsHaveNoSegment(entityType: string, digest: string)
    requires Grammar.IsValidEntityType(entityType) && IsDigest(digest)
    ensures NoTokenSegmentBegins(":" + entityType + (":" + digest))
  {
    NoSegmentConcat(":" + entityType, ":" + digest);
  }
}
