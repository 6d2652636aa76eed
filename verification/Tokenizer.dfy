/** Applying policy actions to detected spans, and splicing the text. */
module Tokenizer {
  import opened Wrappers
  import opened Bytes
  import opened Domain
  import opened Identifiers
  import opened VaultKeys
  import opened RedisStore
  import opened RedisVault
  import opened Splicing
  import Selection
  import Ordering
  import Grammar = TokenGrammar

  /** Canonicalisation and the keyed hash (HMAC-SHA256), both uninterpreted. */
  datatype Fingerprinter = Fingerprinter(
    normalize: (string, string) -> string,
    hmac: (Uuid, Uuid, string, string) -> string)

  function Fingerprint(fp: Fingerprinter, scope: Scope, entityType: string, original: string): string {
    fp.hmac(scope.tenantId, scope.sessionId, entityType, fp.normalize(entityType, original))
  }

  /** A deterministic stand-in for (type, original, fingerprint). */
  type Surrogate = (string, string, string) -> string

  datatype EntityMapping = EntityMapping(
    token: string, tokenId: string, entityType: string, originalValue: string, normalizedHmac: string)

  datatype PrivacySummary = PrivacySummary(
    detected: nat, tokenized: nat, redacted: nat, pseudonymized: nat, allowed: nat, entityTypes: map<string, nat>)

  datatype TransformedText = TransformedText(text: string, mappings: seq<EntityMapping>, summary: PrivacySummary)

  datatype Planned = Planned(entity: Entity, action: EntityAction)

  // ---------------------------------------------------------------------------
  // Planning
  // ---------------------------------------------------------------------------

  function PlanOf(selected: seq<Entity>, policy: Policy): (plan: seq<Planned>)
    ensures |plan| == |selected|
    ensures forall i :: 0 <= i < |plan| ==> plan[i] == Planned(selected[i], policy.actionFor(selected[i].entityType))
  {
    seq(|selected|, i requires 0 <= i < |selected| =>
      Planned(selected[i], policy.actionFor(selected[i].entityType)))
  }

  predicate HasBlock(plan: seq<Planned>) {
    exists i :: 0 <= i < |plan| && plan[i].action == Block
  }

  /** Spans in order, without overlaps, inside the text. */
  ghost predicate PlanFits(plan: seq<Planned>, length: nat) {
    && (forall i :: 0 <= i < |plan| ==> plan[i].entity.end <= length)
    && (forall i, j :: 0 <= i < j < |plan| ==> plan[i].entity.end <= plan[j].entity.start)
  }

  function Original(text: string, p: Planned): string
  {
    if p.entity.end <= |text| then text[p.entity.start..p.entity.end] else ""
  }

  // ---------------------------------------------------------------------------
  // Minting
  // ---------------------------------------------------------------------------

  predicate NeedsMapping(action: EntityAction) {
    action == Tokenize || action == Pseudonymize
  }

  function RequestFor(fp: Fingerprinter, scope: Scope, text: string, p: Planned): VaultWriteRequest {
    VaultWriteRequest(p.entity.entityType,
                      Fingerprint(fp, scope, p.entity.entityType, Original(text, p)),
                      Original(text, p))
  }

  /** The vault entries a plan needs, in plan order. ALLOW and REDACT spans need none. */
  function Requests(fp: Fingerprinter, scope: Scope, text: string, plan: seq<Planned>): (r: seq<VaultWriteRequest>)
    ensures |r| <= |plan|
  {
    if plan == [] then []
    else
      var n := |plan| - 1;
      Requests(fp, scope, text, plan[..n])
      + if NeedsMapping(plan[n].action) then [RequestFor(fp, scope, text, plan[n])] else []
  }

  /** The position among the requests that span `i` takes if it needs a mapping. */
  function Rank(plan: seq<Planned>, i: nat): (r: nat)
    requires i <= |plan|
    ensures r <= i
  {
    if i == 0 then 0 else Rank(plan, i - 1) + if NeedsMapping(plan[i - 1].action) then 1 else 0
  }

  /** What the vault returned, as a token of the expected type. */
  function CoerceVaultToken(raw: string, entityType: string): Result<Grammar.Token, GatewayError> {
    var parsed := Grammar.ParseToken(raw);
    if parsed.Some? then
      if parsed.value.entityType != entityType then Err(InternalError) else Ok(parsed.value)
    else if Grammar.IsValidTokenId(raw) then Ok(Grammar.Token(entityType, raw))
    else Err(InternalError)
  }

  function MappingFor(request: VaultWriteRequest, token: Grammar.Token): EntityMapping {
    EntityMapping(Grammar.Bracket(token.entityType, token.tokenId), token.tokenId,
                  request.entityType, request.originalValue, request.normalizedHmac)
  }

  predicate Coerces(requests: seq<VaultWriteRequest>, tokens: seq<string>, i: nat)
    requires i < |requests| == |tokens|
  {
    CoerceVaultToken(tokens[i], requests[i].entityType).Ok?
  }

  predicate AllCoerce(requests: seq<VaultWriteRequest>, tokens: seq<string>) {
    |tokens| == |requests| && forall i :: 0 <= i < |requests| ==> Coerces(requests, tokens, i)
  }

  function Mappings(requests: seq<VaultWriteRequest>, tokens: seq<string>): (m: seq<EntityMapping>)
    requires AllCoerce(requests, tokens)
    ensures |m| == |requests|
  {
    seq(|requests|, i requires 0 <= i < |requests| =>
      assert Coerces(requests, tokens, i);
      MappingFor(requests[i], CoerceVaultToken(tokens[i], requests[i].entityType).value))
  }

  // ---------------------------------------------------------------------------
  // Replacing
  // ---------------------------------------------------------------------------

  /** The text that replaces span `i`; `None` leaves it alone. A redaction of a type the grammar
      rejects raises ValueError. */
  function ReplacementFor(surrogate: Surrogate, text: string, p: Planned, mapping: Option<EntityMapping>)
    : Result<Option<string>, GatewayError>
  {
    match p.action
    case Allow => Ok(None)
    case Redact =>
      var placeholder := Grammar.FormatRedaction(p.entity.entityType);
      if placeholder.None? then Err(ValueError) else Ok(placeholder)
    case Pseudonymize =>
      if mapping.None? then Err(InternalError)
      else Ok(Some(surrogate(p.entity.entityType, Original(text, p), mapping.value.normalizedHmac)))
    case Tokenize => if mapping.None? then Err(InternalError) else Ok(Some(mapping.value.token))
    case Block => Err(InternalError)
  }

  function MintedAt(plan: seq<Planned>, mappings: seq<EntityMapping>, i: nat): Option<EntityMapping>
    requires i < |plan|
  {
    if NeedsMapping(plan[i].action) && Rank(plan, i) < |mappings| then Some(mappings[Rank(plan, i)]) else None
  }

  /** The cuts for the spans from `i` on; `None` when one of them cannot be replaced. */
  function CutsFrom(surrogate: Surrogate, text: string, plan: seq<Planned>, mappings: seq<EntityMapping>, i: nat)
    : Option<seq<Cut>>
    requires i <= |plan|
    decreases |plan| - i
  {
    if i == |plan| then Some([])
    else
      var rest := CutsFrom(surrogate, text, plan, mappings, i + 1);
      var replacement := ReplacementFor(surrogate, text, plan[i], MintedAt(plan, mappings, i));
      if rest.None? || replacement.Err? then None
      else if replacement.value.None? then rest
      else Some([Cut(plan[i].entity.start, plan[i].entity.end, replacement.value.value)] + rest.value)
  }

  lemma {:induction false} CutsFit(surrogate: Surrogate, text: string, plan: seq<Planned>,
                                   mappings: seq<EntityMapping>, i: nat)
    requires i <= |plan| && PlanFits(plan, |text|)
    requires CutsFrom(surrogate, text, plan, mappings, i).Some?
    ensures var cuts := CutsFrom(surrogate, text, plan, mappings, i).value;
            Fits(cuts, if i == 0 then 0 else plan[i - 1].entity.end, |text|)
            && (i < |plan| ==> Fits(cuts, plan[i].entity.start, |text|))
            && (i < |plan| && |cuts| > 0 ==> cuts[0].start >= plan[i].entity.start)
    decreases |plan| - i
  {
    hide ReplacementFor;
    if i < |plan| {
      CutsFit(surrogate, text, plan, mappings, i + 1);
      assert i > 0 ==> plan[i - 1].entity.end <= plan[i].entity.start;
      FitsEarlier(CutsFrom(surrogate, text, plan, mappings, i + 1).value, plan[i].entity.end, plan[i].entity.start,
                  |text|);
      FitsEarlier(CutsFrom(surrogate, text, plan, mappings, i).value, plan[i].entity.start,
                  if i == 0 then 0 else plan[i - 1].entity.end, |text|);
    }
  }

  /** The mappings of the spans from `i` on, in order. */
  function MappingsFrom(plan: seq<Planned>, mappings: seq<EntityMapping>, i: nat): seq<EntityMapping>
    requires i <= |plan|
    decreases |plan| - i
  {
    if i == |plan| then []
    else
      var m := MintedAt(plan, mappings, i);
      (if m.Some? then [m.value] else []) + MappingsFrom(plan, mappings, i + 1)
  }

  // ---------------------------------------------------------------------------
  // Summarising
  // ---------------------------------------------------------------------------

  function CountAction(plan: seq<Planned>, action: EntityAction): (n: nat)
    ensures n <= |plan|
  {
    if plan == [] then 0
    else CountAction(plan[..|plan| - 1], action) + if plan[|plan| - 1].action == action then 1 else 0
  }

  function CountType(plan: seq<Planned>, entityType: string): nat {
    if plan == [] then 0
    else CountType(plan[..|plan| - 1], entityType) + if plan[|plan| - 1].entity.entityType == entityType then 1 else 0
  }

  /** The counts of a plan by type, one span at a time. */
  function TypeCounts(plan: seq<Planned>): map<string, nat> {
    if plan == [] then map[]
    else
      var counts := TypeCounts(plan[..|plan| - 1]);
      var t := plan[|plan| - 1].entity.entityType;
      counts[t := (if t in counts then counts[t] else 0) + 1]
  }

  /** Counts only. */
  function SummaryOf(plan: seq<Planned>): PrivacySummary {
    PrivacySummary(|plan|, CountAction(plan, Tokenize), CountAction(plan, Redact),
                   CountAction(plan, Pseudonymize), CountAction(plan, Allow), TypeCounts(plan))
  }

  method Summarize(plan: seq<Planned>) returns (s: PrivacySummary)
    ensures s == SummaryOf(plan)
  {
    var entityTypes: map<string, nat> := map[];
    var tokenized, redacted, pseudonymized, allowed := 0, 0, 0, 0;
    for i := 0 to |plan|
      invariant tokenized == CountAction(plan[..i], Tokenize) && redacted == CountAction(plan[..i], Redact)
      invariant pseudonymized == CountAction(plan[..i], Pseudonymize) && allowed == CountAction(plan[..i], Allow)
      invariant entityTypes == TypeCounts(plan[..i])
    {
      assert plan[..i + 1][..i] == plan[..i];
      var t := plan[i].entity.entityType;
      entityTypes := entityTypes[t := (if t in entityTypes then entityTypes[t] else 0) + 1];
      match plan[i].action
      case Tokenize => tokenized := tokenized + 1;
      case Redact => redacted := redacted + 1;
      case Pseudonymize => pseudonymized := pseudonymized + 1;
      case Allow => allowed := allowed + 1;
      case Block =>
    }
    assert plan[..|plan|] == plan;
    s := PrivacySummary(|plan|, tokenized, redacted, pseudonymized, allowed, entityTypes);
  }

  /** The total over a dictionary of counts. */
  ghost function Total(counts: map<string, nat>): nat
    decreases |counts|
  {
    if counts == map[] then 0
    else
      var t :| t in counts;
      counts[t] + Total(counts - {t})
  }

  lemma {:induction false} TotalWithout(counts: map<string, nat>, t: string)
    requires t in counts
    ensures Total(counts) == counts[t] + Total(counts - {t})
    decreases |counts|
  {
    var u :| u in counts && Total(counts) == counts[u] + Total(counts - {u});
    if u != t {
      TotalWithout(counts - {u}, t);
      TotalWithout(counts - {t}, u);
      assert counts - {u} - {t} == counts - {t} - {u};
    }
  }

  lemma {:induction false} TypeCountsTotal(plan: seq<Planned>)
    ensures Total(TypeCounts(plan)) == |plan|
    ensures forall t :: t in TypeCounts(plan) <==> CountType(plan, t) > 0
    ensures forall t :: t in TypeCounts(plan) ==> TypeCounts(plan)[t] == CountType(plan, t)
  {
    if plan != [] {
      var front := plan[..|plan| - 1];
      TypeCountsTotal(front);
      var before, after := TypeCounts(front), TypeCounts(plan);
      var t := plan[|plan| - 1].entity.entityType;
      TotalWithout(after, t);
      if t in before {
        TotalWithout(before, t);
      }
      assert after - {t} == before - {t};
      assert t !in before ==> before - {t} == before;
    }
  }

  lemma {:induction false} ActionsPartition(plan: seq<Planned>)
    ensures CountAction(plan, Tokenize) + CountAction(plan, Redact) + CountAction(plan, Pseudonymize)
          + CountAction(plan, Allow) + CountAction(plan, Block) == |plan|
    ensures !HasBlock(plan) ==> CountAction(plan, Block) == 0
  {
    if plan != [] {
      ActionsPartition(plan[..|plan| - 1]);
    }
  }

  /** The positions of the spans with one action, and of those with one type. */
  function Acted(plan: seq<Planned>, action: EntityAction): set<nat> {
    set i: nat | i < |plan| && plan[i].action == action
  }

  function OfType(plan: seq<Planned>, t: string): set<nat> {
    set i: nat | i < |plan| && plan[i].entity.entityType == t
  }

  lemma ActedStep(plan: seq<Planned>, action: EntityAction)
    requires plan != []
    ensures var n := |plan| - 1;
            |Acted(plan, action)| == |Acted(plan[..n], action)| + if plan[n].action == action then 1 else 0
  {
    var n := |plan| - 1;
    var before, after := Acted(plan[..n], action), Acted(plan, action);
    forall i: nat
      ensures i in after <==> i in before || (i == n && plan[n].action == action)
    {
      assert i < n ==> plan[..n][i] == plan[i];
    }
    hide *;
    OneMore(before, after, n, plan[n].action == action);
  }

  lemma OneMore(before: set<nat>, after: set<nat>, n: nat, more: bool)
    requires n !in before && forall i :: i in after <==> i in before || (i == n && more)
    ensures |after| == |before| + if more then 1 else 0
  {
    assert after == if more then before + {n} else before;
  }

  lemma OfTypeStep(plan: seq<Planned>, t: string)
    requires plan != []
    ensures var n := |plan| - 1;
            |OfType(plan, t)| == |OfType(plan[..n], t)| + if plan[n].entity.entityType == t then 1 else 0
  {
    var n := |plan| - 1;
    var before, after := OfType(plan[..n], t), OfType(plan, t);
    forall i: nat
      ensures i in after <==> i in before || (i == n && plan[n].entity.entityType == t)
    {
      assert i < n ==> plan[..n][i] == plan[i];
    }
    hide *;
    OneMore(before, after, n, plan[n].entity.entityType == t);
  }

  lemma {:induction false} CountsArePositions(plan: seq<Planned>, action: EntityAction, t: string)
    ensures CountAction(plan, action) == |Acted(plan, action)| && CountType(plan, t) == |OfType(plan, t)|
  {
    if plan != [] {
      hide Acted, OfType;
      CountsArePositions(plan[..|plan| - 1], action, t);
      ActedStep(plan, action);
      OfTypeStep(plan, t);
    }
  }

  /** The summary counts the spans by action and by type, and every span once in either way. */
  lemma SummaryConserves(plan: seq<Planned>)
    requires !HasBlock(plan)
    ensures var s := SummaryOf(plan);
            s.detected == |plan|
            && s.tokenized == |Acted(plan, Tokenize)| && s.redacted == |Acted(plan, Redact)|
            && s.pseudonymized == |Acted(plan, Pseudonymize)| && s.allowed == |Acted(plan, Allow)|
            && s.detected == s.tokenized + s.redacted + s.pseudonymized + s.allowed
            && s.detected == Total(s.entityTypes)
            && forall t :: (t in s.entityTypes <==> OfType(plan, t) != {})
                        && (t in s.entityTypes ==> s.entityTypes[t] == |OfType(plan, t)|)
  {
    hide Acted, OfType;
    ActionsPartition(plan);
    TypeCountsTotal(plan);
    CountsArePositions(plan, Tokenize, "");
    CountsArePositions(plan, Redact, "");
    CountsArePositions(plan, Pseudonymize, "");
    CountsArePositions(plan, Allow, "");
    forall t
      ensures CountType(plan, t) == |OfType(plan, t)|
    {
      CountsArePositions(plan, Allow, t);
    }
  }

  // ---------------------------------------------------------------------------
  // The whole transformation
  // ---------------------------------------------------------------------------

  /** The protected text with its mappings and counts, once every mapping exists. */
  function Spliced(surrogate: Surrogate, text: string, plan: seq<Planned>, mappings: seq<EntityMapping>)
    : Result<TransformedText, GatewayError>
    requires PlanFits(plan, |text|)
  {
    var cuts := CutsFrom(surrogate, text, plan, mappings, 0);
    if cuts.None? then Err(ValueError)
    else
      CutsFit(surrogate, text, plan, mappings, 0);
      Ok(TransformedText(Splice(text, cuts.value, 0), MappingsFrom(plan, mappings, 0), SummaryOf(plan)))
  }

  lemma PlanOfSelectedFits(text: string, entities: seq<Entity>, policy: Policy)
    requires Selection.Selected(text, entities, policy).Ok?
    ensures PlanFits(PlanOf(Selection.Selected(text, entities, policy).value, policy), |text|)
    ensures |Selection.Selected(text, entities, policy).value| <= |entities|
  {
    Selection.SelectedIsUsable(text, entities, policy);
    SelectedCount(text, entities, policy);
    var selected := Selection.Selected(text, entities, policy).value;
    var plan := PlanOf(selected, policy);
    forall i | 0 <= i < |plan|
      ensures plan[i].entity.end <= |text|
    {
      assert selected[i] in selected;
    }
  }

  lemma SelectedCount(text: string, entities: seq<Entity>, policy: Policy)
    requires Selection.Selected(text, entities, policy).Ok?
    ensures |Selection.Selected(text, entities, policy).value| <= |entities|
  {
    var confident := Selection.Confident(entities, policy);
    Selection.ConfidentCount(entities, policy);
    Ordering.SortContents(Selection.OrderedBefore, confident);
    SweepCount(Ordering.Sort(Selection.OrderedBefore, confident), 0);
  }

  lemma {:induction false} SweepCount(ordered: seq<Entity>, boundary: int)
    ensures |Selection.Sweep(ordered, boundary)| <= |ordered|
  {
    if ordered != [] {
      SweepCount(ordered[1..], if ordered[0].start < boundary then boundary else ordered[0].end);
    }
  }

  /** The store after protecting one message, and the result. Checks that can refuse the message come
      before the one vault call. */
  function Transformed(st: Store, scope: Scope, digest: Digester, fp: Fingerprinter, surrogate: Surrogate, now: int,
                       text: string, entities: seq<Entity>, policy: Policy, ids: seq<TokenId>)
    : (Store, Result<TransformedText, GatewayError>)
    requires |entities| <= |ids|
  {
    var selected := Selection.Selected(text, entities, policy);
    if selected.Err? then (st, Err(selected.error))
    else if |selected.value| > policy.maxEntities then (st, Err(EntityLimitExceeded))
    else
      var plan := PlanOf(selected.value, policy);
      PlanOfSelectedFits(text, entities, policy);
      if HasBlock(plan) then (st, Err(PolicyViolation))
      else
        var requests := Requests(fp, scope, text, plan);
        if requests == [] then (st, Spliced(surrogate, text, plan, []))
        else
          var (after, tokens) := Written(st, scope, digest, now, requests, policy.sessionTtlSeconds, ids);
          if tokens.Err? then (after, Err(tokens.error))
          else if !AllCoerce(requests, tokens.value) then (after, Err(InternalError))
          else (after, Spliced(surrogate, text, plan, Mappings(requests, tokens.value)))
  }

  lemma {:induction false} RequestAt(fp: Fingerprinter, scope: Scope, text: string, plan: seq<Planned>, i: nat)
    requires i < |plan|
    ensures |Requests(fp, scope, text, plan)| == Rank(plan, |plan|)
    ensures NeedsMapping(plan[i].action) ==>
              Rank(plan, i) < Rank(plan, |plan|)
              && Requests(fp, scope, text, plan)[Rank(plan, i)] == RequestFor(fp, scope, text, plan[i])
  {
    var n := |plan| - 1;
    var front := plan[..n];
    RankPrefix(plan, n, n);
    RankPrefix(plan, n, if i < n then i else n);
    if i < n {
      RequestAt(fp, scope, text, front, i);
    } else if n > 0 {
      RequestAt(fp, scope, text, front, 0);
    }
  }

  lemma {:induction false} RankPrefix(plan: seq<Planned>, n: nat, i: nat)
    requires i <= n <= |plan|
    ensures Rank(plan[..n], i) == Rank(plan, i)
  {
    if i > 0 {
      RankPrefix(plan, n, i - 1);
    }
  }

  lemma RequestCount(fp: Fingerprinter, scope: Scope, text: string, plan: seq<Planned>)
    ensures |Requests(fp, scope, text, plan)| == Rank(plan, |plan|)
  {
    if plan != [] {
      RequestAt(fp, scope, text, plan, 0);
    }
  }

  /** `indexes` are the positions before `n` that need a mapping, in order. */
  ghost predicate PendingBefore(plan: seq<Planned>, indexes: seq<nat>, n: nat)
    requires n <= |plan|
  {
    && |indexes| == Rank(plan, n)
    && (forall j :: 0 <= j < |indexes| ==>
          indexes[j] < n && NeedsMapping(plan[indexes[j]].action) && Rank(plan, indexes[j]) == j)
    && (forall k: nat :: k < n && NeedsMapping(plan[k].action) ==>
          Rank(plan, k) < |indexes| && indexes[Rank(plan, k)] == k)
  }

  lemma PendingStep(plan: seq<Planned>, indexes: seq<nat>, n: nat)
    requires n < |plan| && PendingBefore(plan, indexes, n)
    ensures PendingBefore(plan, if NeedsMapping(plan[n].action) then indexes + [n] else indexes, n + 1)
  {
    hide NeedsMapping, Rank;
    RankStep(plan, n);
    var all := if NeedsMapping(plan[n].action) then indexes + [n] else indexes;
    forall k: nat | k < n + 1 && NeedsMapping(plan[k].action)
      ensures Rank(plan, k) < |all| && all[Rank(plan, k)] == k
    {
      if k < n {
        assert indexes[Rank(plan, k)] == k;
      }
    }
  }

  lemma RankStep(plan: seq<Planned>, n: nat)
    requires n < |plan|
    ensures Rank(plan, n + 1) == Rank(plan, n) + if NeedsMapping(plan[n].action) then 1 else 0
  {
  }

  /** The dictionary of minted mappings, keyed by position in the plan. */
  ghost predicate MintedIs(plan: seq<Planned>, mappings: seq<EntityMapping>, minted: map<nat, EntityMapping>) {
    forall i :: 0 <= i < |plan| ==> MintedAt(plan, mappings, i) == if i in minted then Some(minted[i]) else None
  }

  lemma PendingDistinct(plan: seq<Planned>, indexes: seq<nat>)
    requires PendingBefore(plan, indexes, |plan|)
    ensures forall j, k :: 0 <= j < k < |indexes| ==> indexes[j] != indexes[k]
  {
  }

  lemma MintedByIndex(plan: seq<Planned>, indexes: seq<nat>, mappings: seq<EntityMapping>,
                      minted: map<nat, EntityMapping>)
    requires PendingBefore(plan, indexes, |plan|) && |mappings| == |indexes|
    requires minted.Keys == set k: nat | k < |indexes| :: indexes[k]
    requires forall k: nat :: k < |indexes| ==> minted[indexes[k]] == mappings[k]
    ensures MintedIs(plan, mappings, minted)
  {
    forall i | 0 <= i < |plan|
      ensures MintedAt(plan, mappings, i) == if i in minted then Some(minted[i]) else None
    {
      if NeedsMapping(plan[i].action) {
        assert indexes[Rank(plan, i)] == i;
      }
    }
  }

  lemma NothingPending(plan: seq<Planned>)
    ensures PendingBefore(plan, [], 0)
  {
  }

  lemma NothingMinted(plan: seq<Planned>)
    requires Rank(plan, |plan|) == 0
    ensures MintedIs(plan, [], map[])
  {
  }

  class Tokenizer {
    const vault: RedisTokenVault
    const fingerprinter: Fingerprinter
    const surrogate: Surrogate

    constructor (vault: RedisTokenVault, fingerprinter: Fingerprinter, surrogate: Surrogate)
      ensures this.vault == vault && this.fingerprinter == fingerprinter && this.surrogate == surrogate
    {
      this.vault := vault;
      this.fingerprinter := fingerprinter;
      this.surrogate := surrogate;
    }

    /** The spans that need a mapping: their positions in the plan, and their vault entries. */
    method CollectPending(scope: Scope, text: string, plan: seq<Planned>)
      returns (indexes: seq<nat>, requests: seq<VaultWriteRequest>)
      ensures requests == Requests(fingerprinter, scope, text, plan)
      ensures PendingBefore(plan, indexes, |plan|) && |indexes| == |requests|
    {
      hide RequestFor, PendingBefore, NeedsMapping;
      indexes, requests := [], [];
      NothingPending(plan);
      for i := 0 to |plan|
        invariant requests == Requests(fingerprinter, scope, text, plan[..i])
        invariant PendingBefore(plan, indexes, i) && |indexes| == |requests|
      {
        assert plan[..i + 1][..i] == plan[..i];
        PendingStep(plan, indexes, i);
        if NeedsMapping(plan[i].action) {
          indexes := indexes + [i];
          requests := requests + [RequestFor(fingerprinter, scope, text, plan[i])];
        }
      }
      assert plan[..|plan|] == plan;
    }

    /** Each pending span's mapping, from the token at the same position in the vault's answer. */
    method MapTokens(plan: seq<Planned>, indexes: seq<nat>, requests: seq<VaultWriteRequest>, tokens: seq<string>)
      returns (r: Result<map<nat, EntityMapping>, GatewayError>, ghost mappings: seq<EntityMapping>)
      requires PendingBefore(plan, indexes, |plan|) && |indexes| == |requests|
      ensures if AllCoerce(requests, tokens) then r.Ok? && mappings == Mappings(requests, tokens)
              else r == Err(InternalError)
      ensures r.Ok? ==> |mappings| == |requests| && MintedIs(plan, mappings, r.value)
    {
      hide CoerceVaultToken, MappingFor, MintedIs, PendingBefore;
      mappings := [];
      if |tokens| != |requests| {
        return Err(InternalError), [];
      }
      var minted: map<nat, EntityMapping> := map[];
      PendingDistinct(plan, indexes);
      for j := 0 to |requests|
        invariant forall k :: 0 <= k < j ==> CoerceVaultToken(tokens[k], requests[k].entityType).Ok?
        invariant |mappings| == j
        invariant forall k :: 0 <= k < j ==>
                    mappings[k] == MappingFor(requests[k], CoerceVaultToken(tokens[k], requests[k].entityType).value)
        invariant minted.Keys == set k: nat | k < j :: indexes[k]
        invariant forall k: nat :: k < j ==> minted[indexes[k]] == mappings[k]
      {
        var token := CoerceVaultToken(tokens[j], requests[j].entityType);
        if token.Err? {
          CoerceError(tokens[j], requests[j].entityType);
          assert !Coerces(requests, tokens, j);
          return Err(InternalError), [];
        }
        minted := minted[indexes[j] := MappingFor(requests[j], token.value)];
        mappings := mappings + [MappingFor(requests[j], token.value)];
      }
      assert mappings == Mappings(requests, tokens);
      MintedByIndex(plan, indexes, mappings, minted);
      r := Ok(minted);
    }

    /** Create every mapping the plan needs, in one vault call, keyed by position in the plan. */
    method Mint(scope: Scope, text: string, plan: seq<Planned>, ttl: int, now: int, ids: seq<TokenId>)
      returns (r: Result<map<nat, EntityMapping>, GatewayError>, ghost mappings: seq<EntityMapping>)
      requires vault.Valid() && |plan| <= |ids|
      modifies vault.redis
      ensures vault.Valid()
      ensures var requests := Requests(fingerprinter, scope, text, plan);
              if requests == [] then vault.redis.store == old(vault.redis.store) && r.Ok? && mappings == []
              else
                var (after, tokens) := Written(old(vault.redis.store), scope, vault.digest, now, requests, ttl, ids);
                vault.redis.store == after
                && if tokens.Err? then r == Err(tokens.error)
                   else if !AllCoerce(requests, tokens.value) then r == Err(InternalError)
                   else r.Ok? && mappings == Mappings(requests, tokens.value)
      ensures r.Ok? ==> |mappings| == Rank(plan, |plan|) && MintedIs(plan, mappings, r.value)
    {
      hide Written, AllCoerce, Mappings, Requests, MintedIs, PendingBefore;
      mappings := [];
      var indexes, requests := CollectPending(scope, text, plan);
      RequestCount(fingerprinter, scope, text, plan);
      if requests == [] {
        NothingMinted(plan);
        return Ok(map[]), [];
      }
      var tokens := vault.GetOrCreateMany(scope, requests, ttl, now, ids);
      if tokens.Err? {
        return Err(tokens.error), [];
      }
      r, mappings := MapTokens(plan, indexes, requests, tokens.value);
    }

    /** Select, check, mint, then splice from right to left, while every offset still holds. The plan
        is ascending, so walking it by descending start is walking it backwards. */
    method Transform(scope: Scope, text: string, entities: seq<Entity>, policy: Policy, now: int, ids: seq<TokenId>)
      returns (r: Result<TransformedText, GatewayError>)
      requires vault.Valid() && |entities| <= |ids|
      modifies vault.redis
      ensures vault.Valid()
      ensures (vault.redis.store, r)
           == Transformed(old(vault.redis.store), scope, vault.digest, fingerprinter, surrogate, now,
                          text, entities, policy, ids)
    {
      hide Written, Selection.Selected, ReplacementFor, SummaryOf;
      var selected := Selection.SelectEntities(text, entities, policy);
      if selected.Err? {
        return Err(selected.error);
      }
      if |selected.value| > policy.maxEntities {
        return Err(EntityLimitExceeded);
      }
      var plan := PlanOf(selected.value, policy);
      PlanOfSelectedFits(text, entities, policy);
      if HasBlock(plan) {
        return Err(PolicyViolation);
      }
      var minted, mappings := Mint(scope, text, plan, policy.sessionTtlSeconds, now, ids);
      if minted.Err? {
        return Err(minted.error);
      }
      r := SpliceText(text, plan, minted.value, mappings);
    }

    method SpliceText(text: string, plan: seq<Planned>, minted: map<nat, EntityMapping>,
                      ghost mappings: seq<EntityMapping>)
      returns (r: Result<TransformedText, GatewayError>)
      requires PlanFits(plan, |text|) && !HasBlock(plan) && |mappings| == Rank(plan, |plan|)
      requires MintedIs(plan, mappings, minted)
      ensures r == Spliced(surrogate, text, plan, mappings)
    {
      hide ReplacementFor, SummaryOf, CutsFrom, MintedAt, Splice, Reversed, MappingsFrom;
      var pieces: seq<string> := [];
      var found: seq<EntityMapping> := [];
      var cursor: nat := |text|;
      NothingCut(surrogate, text, plan, mappings);
      for i := |plan| downto 0
        invariant CutsFrom(surrogate, text, plan, mappings, i).Some?
        invariant var cuts := CutsFrom(surrogate, text, plan, mappings, i).value;
                  cursor == FirstStart(cuts, |text|) && Fits(cuts, cursor, |text|)
                  && Join(Reversed(pieces)) == Splice(text, cuts, cursor)
        invariant Reversed(found) == MappingsFrom(plan, mappings, i)
      {
        var p := plan[i];
        var mapping := if i in minted then Some(minted[i]) else None;
        CutsStep(surrogate, text, plan, mappings, i);
        if mapping.Some? {
          ReversedSnoc(found, mapping.value);
          found := found + [mapping.value];
        }
        var replacement := ReplacementFor(surrogate, text, p, mapping);
        if replacement.Err? {
          OnlyValueError(surrogate, text, plan, mappings, i);
          CutsFailBelow(surrogate, text, plan, mappings, i);
          return Err(replacement.error);
        }
        if replacement.value.None? {
          continue;
        }
        ghost var cuts := CutsFrom(surrogate, text, plan, mappings, i + 1).value;
        CutsFit(surrogate, text, plan, mappings, i);
        SpliceCons(text, Cut(p.entity.start, p.entity.end, replacement.value.value), cuts);
        JoinReversedSnoc(pieces, text[p.entity.end..cursor]);
        pieces := pieces + [text[p.entity.end..cursor]];
        JoinReversedSnoc(pieces, replacement.value.value);
        pieces := pieces + [replacement.value.value];
        cursor := p.entity.start;
      }
      CutsFit(surrogate, text, plan, mappings, 0);
      SpliceFrom(text, CutsFrom(surrogate, text, plan, mappings, 0).value, 0);
      JoinReversedSnoc(pieces, text[..cursor]);
      pieces := pieces + [text[..cursor]];
      var summary := Summarize(plan);
      r := Ok(TransformedText(Join(Reversed(pieces)), Reversed(found), summary));
    }
  }

  lemma NothingCut(surrogate: Surrogate, text: string, plan: seq<Planned>, mappings: seq<EntityMapping>)
    ensures CutsFrom(surrogate, text, plan, mappings, |plan|) == Some([])
    ensures Splice(text, [], |text|) == "" == Join(Reversed([]))
    ensures MappingsFrom(plan, mappings, |plan|) == [] == Reversed<EntityMapping>([])
  {
  }

  lemma CutsStep(surrogate: Surrogate, text: string, plan: seq<Planned>, mappings: seq<EntityMapping>, i: nat)
    requires i < |plan| && CutsFrom(surrogate, text, plan, mappings, i + 1).Some?
    ensures var rest := CutsFrom(surrogate, text, plan, mappings, i + 1).value;
            var replacement := ReplacementFor(surrogate, text, plan[i], MintedAt(plan, mappings, i));
            CutsFrom(surrogate, text, plan, mappings, i) ==
            if replacement.Err? then None
            else if replacement.value.None? then Some(rest)
            else Some([Cut(plan[i].entity.start, plan[i].entity.end, replacement.value.value)] + rest)
    ensures var m := MintedAt(plan, mappings, i);
            MappingsFrom(plan, mappings, i) ==
            (if m.Some? then [m.value] else []) + MappingsFrom(plan, mappings, i + 1)
  {
    hide ReplacementFor, MintedAt;
  }

  lemma CoerceError(raw: string, entityType: string)
    requires CoerceVaultToken(raw, entityType).Err?
    ensures CoerceVaultToken(raw, entityType) == Err(InternalError)
  {
  }

  lemma {:induction false} RankGrows(plan: seq<Planned>, i: nat, j: nat)
    requires i <= j <= |plan|
    ensures Rank(plan, i) <= Rank(plan, j)
    decreases j - i
  {
    if i < j {
      RankGrows(plan, i, j - 1);
    }
  }

  /** With every mapping in place, only a redaction the grammar rejects can fail. */
  lemma OnlyValueError(surrogate: Surrogate, text: string, plan: seq<Planned>, mappings: seq<EntityMapping>, i: nat)
    requires i < |plan| && !HasBlock(plan) && |mappings| == Rank(plan, |plan|)
    requires ReplacementFor(surrogate, text, plan[i], MintedAt(plan, mappings, i)).Err?
    ensures ReplacementFor(surrogate, text, plan[i], MintedAt(plan, mappings, i)) == Err(ValueError)
  {
    RankGrows(plan, i + 1, |plan|);
  }

  lemma {:induction false} CutsFailBelow(surrogate: Surrogate, text: string, plan: seq<Planned>,
                                         mappings: seq<EntityMapping>, i: nat)
    requires i <= |plan| && CutsFrom(surrogate, text, plan, mappings, i).None?
    ensures CutsFrom(surrogate, text, plan, mappings, 0).None?
  {
    if i > 0 {
      CutsFailBelow(surrogate, text, plan, mappings, i - 1);
    }
  }
}
