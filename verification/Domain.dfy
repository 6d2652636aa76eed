/** Detected spans, policies, and the errors a request can end with. */
module Domain {
  import opened Wrappers
  import opened Ordering

  datatype EntityAction = Tokenize | Redact | Pseudonymize | Allow | Block

  datatype UnknownTokenAction = Preserve | RedactUnknown | Fail

  datatype DetectedEntity = DetectedEntity(
    entityType: string, start: int, end: int, score: real, recognizer: Option<string>)

  /** Constructing anything else raises ValueError. */
  predicate IsEntity(e: DetectedEntity) {
    0 <= e.start < e.end && 0.0 <= e.score <= 1.0
  }

  type Entity = e: DetectedEntity | IsEntity(e) witness DetectedEntity("", 0, 1, 0.0, None)

  predicate Overlaps(a: Entity, b: Entity) {
    a.start < b.end && b.start < a.end
  }

  /** Spans in order, none overlapping another. */
  ghost predicate Ascending(s: seq<Entity>) {
    forall i, j :: 0 <= i < j < |s| ==> s[i].end <= s[j].start
  }

  /** No two entries of `s` share a character. */
  ghost predicate Disjoint(s: seq<Entity>) {
    forall i, j :: 0 <= i < j < |s| ==> !Overlaps(s[i], s[j])
  }

  lemma DisjointMembers(s: seq<Entity>, a: Entity, b: Entity)
    requires Disjoint(s) && a in s && b in s && Overlaps(a, b)
    ensures a == b
  {
    var i :| 0 <= i < |s| && s[i] == a;
    var j :| 0 <= j < |s| && s[j] == b;
    assert Overlaps(b, a);
  }

  lemma ConsAscends(first: Entity, rest: seq<Entity>)
    requires Ascending(rest) && forall x :: x in rest ==> first.end <= x.start
    ensures Ascending([first] + rest)
  {
    var all := [first] + rest;
    forall i, j | 0 <= i < j < |all|
      ensures all[i].end <= all[j].start
    {
      assert all[j] == rest[j - 1] && rest[j - 1] in rest;
      if i > 0 {
        assert all[i] == rest[i - 1];
      }
    }
  }

  lemma ConsDisjoint(e: Entity, s: seq<Entity>)
    requires Disjoint(s) && forall x :: x in s ==> !Overlaps(e, x)
    ensures Disjoint([e] + s)
  {
    hide Overlaps;
    var r := [e] + s;
    forall i, j | 0 <= i < j < |r|
      ensures !Overlaps(r[i], r[j])
    {
      assert r[j] == s[j - 1];
      if i > 0 {
        assert r[i] == s[i - 1];
      }
    }
  }

  lemma TailDisjoint(s: seq<Entity>)
    requires Disjoint(s) && s != []
    ensures Disjoint(s[1..])
    ensures forall x :: x in s[1..] ==> !Overlaps(s[0], x)
  {
    hide Overlaps;
    forall x | x in s[1..]
      ensures !Overlaps(s[0], x)
    {
      var j :| 0 <= j < |s[1..]| && s[1..][j] == x;
      assert s[j + 1] == x;
    }
  }

  lemma {:induction false} InsertKeepsDisjoint(leq: (Entity, Entity) -> bool, e: Entity, s: seq<Entity>)
    requires Disjoint(s) && forall x :: x in s ==> !Overlaps(e, x)
    ensures Disjoint(Insert(leq, e, s))
  {
    hide Disjoint;
    if s == [] || leq(e, s[0]) {
      ConsDisjoint(e, s);
    } else {
      TailDisjoint(s);
      InsertKeepsDisjoint(leq, e, s[1..]);
      InsertContents(leq, e, s[1..]);
      assert s[0] in s && !Overlaps(s[0], e);
      forall x | x in Insert(leq, e, s[1..])
        ensures !Overlaps(s[0], x)
      {
        assert x in multiset(Insert(leq, e, s[1..]));
      }
      ConsDisjoint(s[0], Insert(leq, e, s[1..]));
    }
  }

  lemma {:induction false} SortKeepsDisjoint(leq: (Entity, Entity) -> bool, s: seq<Entity>)
    requires Disjoint(s)
    ensures Disjoint(Sort(leq, s))
  {
    if s != [] {
      TailDisjoint(s);
      SortKeepsDisjoint(leq, s[1..]);
      SortContents(leq, s[1..]);
      InsertKeepsDisjoint(leq, s[0], Sort(leq, s[1..]));
    }
  }

  /** The active policy, as the request path reads it. */
  datatype Policy = Policy(
    maxEntities: int,
    sessionTtlSeconds: int,
    actionFor: string -> EntityAction,
    minScoreFor: string -> real,
    unknownOutputToken: UnknownTokenAction)

  /** What a request can be refused with. ValueError is the built-in exception. */
  datatype GatewayError =
    | InvalidRequest | EntityLimitExceeded | PolicyViolation | ValueError
    | VaultEncryption | InternalError | ProviderResponseInvalid | RestorationFailed
}
