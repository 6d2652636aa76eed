/** Protecting a message and restoring it: what comes back, and when it is what went in. */
module RoundTrip {
  import opened Wrappers
  import opened Domain
  import opened VaultKeys
  import opened RedisStore
  import opened VaultLaws
  import opened RedisVault
  import opened VaultBookkeeping
  import opened VaultRefinement
  import opened Splicing
  import opened Tokenizer
  import opened Restoration
  import opened Protection
  import opened Resolving
  import Selection
  import Grammar = TokenGrammar

  // ---------------------------------------------------------------------------
  // Restoring any splice of bracketed pieces
  // ---------------------------------------------------------------------------

  /** The tokens of an untouched piece stay as they are: none is live, and dead ones are preserved. */
  ghost predicate Quiet(st: Store, scope: Scope, now: int, action: UnknownTokenAction, gap: string) {
    forall t :: t in TextsOf(Grammar.Tokens(gap, 0)) ==> LookUp(st, scope, now, t).NotFound? && action == Preserve
  }

  ghost predicate AllQuiet(st: Store, scope: Scope, now: int, action: UnknownTokenAction, gaps: seq<string>) {
    forall i :: 0 <= i < |gaps| ==> Quiet(st, scope, now, action, gaps[i])
  }

  /** `r` is put in the text where `v` is to come back: a token leading to `v`, or a placeholder. */
  predicate Stands(st: Store, scope: Scope, until: int, r: string, v: string) {
    Grammar.IsBracketed(r) && if Grammar.IsToken(r) then Resolvable(st, scope, r, v, until) else v == r
  }

  ghost predicate AllStand(st: Store, scope: Scope, until: int, pieces: seq<string>, values: seq<string>) {
    |pieces| == |values| && forall i :: 0 <= i < |pieces| ==> Stands(st, scope, until, pieces[i], values[i])
  }

  /** A token as it will be handled: left alone, or answered with its value. */
  lemma CandidateFate(st: Store, scope: Scope, until: int, now: int, action: UnknownTokenAction,
                      gaps: seq<string>, pieces: seq<string>, values: seq<string>, t: string)
    requires |gaps| == |pieces| + 1 && AllStand(st, scope, until, pieces, values) && now < until
    requires AllQuiet(st, scope, now, action, gaps)
    requires t in TextsOf(Grammar.Tokens(Interleave(gaps, pieces), 0))
    ensures (LookUp(st, scope, now, t).NotFound? && action == Preserve)
            || (exists i :: 0 <= i < |pieces| && t == pieces[i] && LookUp(st, scope, now, t) == Found(values[i]))
  {
    hide Grammar.ParseToken, Grammar.Tokens, TextsOf, LookUp, Resolvable, Interleave, Quiet;
    assert forall i :: 0 <= i < |pieces| ==> Stands(st, scope, until, pieces[i], values[i]);
    TextsInterleaved(gaps, pieces, t, 0);
    if i :| 0 <= i < |gaps| && t in TextsOf(Grammar.Tokens(gaps[i], 0)) {
      QuietToken(st, scope, now, action, gaps[i], t);
    } else {
      var i :| 0 <= i < |pieces| && Grammar.IsToken(pieces[i]) && t == pieces[i];
      assert Stands(st, scope, until, pieces[i], values[i]);
      ResolvableFound(st, scope, t, values[i], until, now);
    }
  }

  lemma QuietToken(st: Store, scope: Scope, now: int, action: UnknownTokenAction, gap: string, t: string)
    requires Quiet(st, scope, now, action, gap) && t in TextsOf(Grammar.Tokens(gap, 0))
    ensures LookUp(st, scope, now, t).NotFound? && action == Preserve
  {
  }

  /** So no lookup is refused, and nothing unknown is found unless it is to be preserved. */
  lemma ResolutionSucceeds(st: Store, scope: Scope, until: int, now: int, action: UnknownTokenAction,
                           gaps: seq<string>, pieces: seq<string>, values: seq<string>)
    requires |gaps| == |pieces| + 1 && AllStand(st, scope, until, pieces, values) && now < until
    requires AllQuiet(st, scope, now, action, gaps)
    ensures var candidates := TextsOf(Grammar.Tokens(Interleave(gaps, pieces), 0));
            var resolved := Resolution(st, scope, now, candidates);
            resolved.Ok? && (action == Fail ==> candidates - resolved.value.Keys == {})
  {
    hide LookUp, TextsOf, Grammar.Tokens, Interleave, AllStand, AllQuiet;
    var candidates := TextsOf(Grammar.Tokens(Interleave(gaps, pieces), 0));
    forall t | t in candidates
      ensures !LookUp(st, scope, now, t).Refused? && (action == Fail ==> LookUp(st, scope, now, t).Found?)
    {
      CandidateFate(st, scope, until, now, action, gaps, pieces, values, t);
    }
  }

  ghost predicate Identical(f: Grammar.Token -> string, matches: seq<Grammar.TokenMatch>) {
    forall i :: 0 <= i < |matches| ==> f(matches[i].token) == TextOf(matches[i].token)
  }

  lemma {:induction false} RestoreIdentical(f: Grammar.Token -> string, x: string, offset: nat)
    requires Identical(f, Grammar.Tokens(x, offset))
    ensures RestoreText(f, x) == x
    decreases |x|
  {
    hide Grammar.TokenPrefix, Grammar.ParseToken, RestoreText;
    if x == "" {
      NothingToRestore(f, "");
    } else {
      var n := Grammar.TokenPrefix(x);
      RestoreStep(f, x);
      var all := Grammar.Tokens(x, offset);
      if n.Some? {
        var rest := Grammar.Tokens(x[n.value..], offset + n.value);
        assert all[0].token == Grammar.ParseToken(x[..n.value]).value;
        assert forall i :: 0 <= i < |rest| ==> rest[i] == all[i + 1];
        RestoreIdentical(f, x[n.value..], offset + n.value);
        Grammar.ParsedWasFormatted(x[..n.value]);
        assert x == x[..n.value] + x[n.value..];
      } else {
        RestoreIdentical(f, x[1..], offset + 1);
        assert x == [x[0]] + x[1..];
      }
    }
  }

  lemma QuietGapUnchanged(st: Store, scope: Scope, now: int, action: UnknownTokenAction,
                          resolved: map<string, string>, gap: string)
    requires Quiet(st, scope, now, action, gap)
    requires forall t :: t in resolved ==> LookUp(st, scope, now, t).Found?
    ensures RestoreText(Resolver(resolved, action), gap) == gap
  {
    hide Grammar.Tokens, LookUp, RestoreText;
    var f := Resolver(resolved, action);
    var matches := Grammar.Tokens(gap, 0);
    forall i | 0 <= i < |matches|
      ensures f(matches[i].token) == TextOf(matches[i].token)
    {
      assert matches[i] in matches;
      assert TextOf(matches[i].token) in TextsOf(matches);
    }
    RestoreIdentical(f, gap, 0);
  }

  lemma PieceComesBack(st: Store, scope: Scope, until: int, now: int, action: UnknownTokenAction,
                       candidates: set<string>, r: string, v: string)
    requires Stands(st, scope, until, r, v) && now < until && Resolution(st, scope, now, candidates).Ok?
    requires Grammar.IsToken(r) ==> r in candidates
    ensures RestoredPiece(Resolver(Resolution(st, scope, now, candidates).value, action), r) == v
  {
    hide Grammar.ParseToken, LookUp, Resolvable, Grammar.IsBracketed;
    if Grammar.IsToken(r) {
      ResolvableFound(st, scope, r, v, until, now);
      Grammar.ParsedWasFormatted(r);
    }
  }

  /** Restoring a text made of quiet pieces and standing pieces brings every value back. */
  lemma PiecesComeBack(st: Store, scope: Scope, until: int, now: int, action: UnknownTokenAction,
                       gaps: seq<string>, pieces: seq<string>, values: seq<string>)
    requires |gaps| == |pieces| + 1 && AllStand(st, scope, until, pieces, values) && now < until
    requires AllQuiet(st, scope, now, action, gaps)
    ensures var text := Interleave(gaps, pieces);
            var candidates := TextsOf(Grammar.Tokens(text, 0));
            Resolution(st, scope, now, candidates).Ok?
            && RestoreText(Resolver(Resolution(st, scope, now, candidates).value, action), text)
            == Interleave(gaps, values)
  {
    hide Grammar.ParseToken, Grammar.Tokens, TextsOf, LookUp, Resolvable, Interleave, Quiet, RestoreText, Resolver,
         RestoredPiece, Grammar.IsBracketed;
    ResolutionSucceeds(st, scope, until, now, action, gaps, pieces, values);
    var candidates := TextsOf(Grammar.Tokens(Interleave(gaps, pieces), 0));
    var resolved := Resolution(st, scope, now, candidates).value;
    var f := Resolver(resolved, action);
    assert forall i :: 0 <= i < |pieces| ==> Stands(st, scope, until, pieces[i], values[i]);
    RestoreInterleaved(f, gaps, pieces);
    forall i | 0 <= i < |gaps|
      ensures RestoredGaps(f, gaps)[i] == gaps[i]
    {
      QuietGapUnchanged(st, scope, now, action, resolved, gaps[i]);
    }
    forall i | 0 <= i < |pieces|
      ensures RestoredPieces(f, pieces)[i] == values[i]
    {
      if Grammar.IsToken(pieces[i]) {
        TextsInterleaved(gaps, pieces, pieces[i], 0);
      }
      PieceComesBack(st, scope, until, now, action, candidates, pieces[i], values[i]);
    }
    assert RestoredGaps(f, gaps) == gaps && RestoredPieces(f, pieces) == values;
  }

  lemma RestoredWhole(st: Store, scope: Scope, until: int, now: int, limit: nat, isBlank: string -> bool,
                      model: string, action: UnknownTokenAction,
                      gaps: seq<string>, pieces: seq<string>, values: seq<string>)
    requires |gaps| == |pieces| + 1 && AllStand(st, scope, until, pieces, values) && now < until
    requires AllQuiet(st, scope, now, action, gaps)
    requires |Interleave(gaps, pieces)| <= limit && !isBlank(model)
    ensures var response := ProviderResponse(Interleave(gaps, pieces), model);
            var r := Restored(st, scope, now, limit, isBlank, response, action);
            r.Ok? && r.value.text == Interleave(gaps, values) && r.value.model == model
  {
    hide Grammar.Tokens, TextsOf, Resolution, Interleave, AllStand, AllQuiet, RestoreText, Replacement;
    PiecesComeBack(st, scope, until, now, action, gaps, pieces, values);
    ResolutionSucceeds(st, scope, until, now, action, gaps, pieces, values);
    var text := Interleave(gaps, pieces);
    var matches := Grammar.Tokens(text, 0);
    NoMatchesNoTexts(matches);
    if matches == [] {
      RestoreIdentical(Resolver(Resolution(st, scope, now, TextsOf(matches)).value, action), text, 0);
    }
  }

  // ---------------------------------------------------------------------------
  // Protect, then restore
  // ---------------------------------------------------------------------------

  function SpanKey(c: Call, p: Planned): IndexName {
    KeyOf(c.scope, c.digest, RequestFor(c.fp, c.scope, c.text, p))
  }

  /** What a tokenised span stands for: the first value the session stored for its identity. */
  function FirstStored(c: Call, p: Planned): Option<string> {
    StandsFor(c.store, c.scope, c.digest, c.now, Asked(c), SpanKey(c, p))
  }

  /** What should come back: first values for tokenised spans, placeholders for redacted ones. */
  function ReturnCuts(c: Call, plan: seq<Planned>, i: nat): seq<Cut>
    requires i <= |plan|
    decreases |plan| - i
  {
    if i == |plan| then []
    else
      var p := plan[i];
      var rest := ReturnCuts(c, plan, i + 1);
      match p.action
      case Allow => rest
      case Redact =>
        [Cut(p.entity.start, p.entity.end, Grammar.Bracket(Grammar.REDACTED_MARKER, p.entity.entityType))] + rest
      case _ =>
        var v := FirstStored(c, p);
        [Cut(p.entity.start, p.entity.end, if v.Some? then v.value else "")] + rest
  }

  lemma ReturnCutsStep(c: Call, plan: seq<Planned>, i: nat)
    requires i < |plan|
    ensures var p := plan[i];
            var rest := ReturnCuts(c, plan, i + 1);
            var v := FirstStored(c, p);
            ReturnCuts(c, plan, i) ==
            match p.action
              case Allow => rest
              case Redact =>
                [Cut(p.entity.start, p.entity.end, Grammar.Bracket(Grammar.REDACTED_MARKER, p.entity.entityType))]
                + rest
              case _ => [Cut(p.entity.start, p.entity.end, if v.Some? then v.value else "")] + rest
  {
    hide FirstStored;
  }

  lemma {:induction false} ReturnCutsSpans(c: Call, plan: seq<Planned>, i: nat)
    requires i <= |plan|
    ensures SameSpans(SpanCuts(plan, i), ReturnCuts(c, plan, i))
    decreases |plan| - i
  {
    hide FirstStored;
    if i < |plan| {
      ReturnCutsSpans(c, plan, i + 1);
    }
  }

  /** The text that should come back. */
  function Returned(c: Call): string
    requires PlanFits(Plan(c), |c.text|)
  {
    SpanCutsFit(Plan(c), |c.text|, 0);
    ReturnCutsSpans(c, Plan(c), 0);
    SameGaps(c.text, SpanCuts(Plan(c), 0), ReturnCuts(c, Plan(c), 0), 0);
    Splice(c.text, ReturnCuts(c, Plan(c), 0), 0)
  }

  lemma TokenResolves(c: Call, after: Store, mappings: seq<EntityMapping>, i: nat)
    requires |c.entities| <= |c.ids| && Minted(c, after, mappings) && i < |Plan(c)| && NeedsMapping(Plan(c)[i].action)
    requires Consistent(c.store) && IsDigester(c.digest) && Fresh(c.store, c.scope, c.ids)
    ensures var m := MintedAt(Plan(c), mappings, i);
            var v := FirstStored(c, Plan(c)[i]);
            m.Some? && v.Some?
            && Resolvable(after, c.scope, m.value.token, v.value, c.now + c.policy.sessionTtlSeconds)
  {
    hide Grammar.ParseToken, Grammar.Bracket, Grammar.IsValidTokenId, Grammar.IsValidEntityType, Plan, Written,
         Consistent, NeedsMapping, Rank, Requests, RequestFor, StandsFor, Resolvable, Fresh, IsDigester, KeyOf;
    var plan := Plan(c);
    RequestCount(c.fp, c.scope, c.text, plan);
    RequestAt(c.fp, c.scope, c.text, plan, i);
    var j := Rank(plan, i);
    var ttl := c.policy.sessionTtlSeconds;
    WrittenResolves(c.store, c.scope, c.digest, c.now, Asked(c), ttl, c.ids, j);
    WrittenToken(c.store, c.scope, c.digest, c.now, Asked(c), ttl, c.ids, j);
  }

  lemma StandsCons(st: Store, scope: Scope, until: int, a: Cut, front: seq<Cut>, b: Cut, back: seq<Cut>)
    requires Stands(st, scope, until, a.replacement, b.replacement)
    requires AllStand(st, scope, until, Replacements(front), Replacements(back))
    ensures AllStand(st, scope, until, Replacements([a] + front), Replacements([b] + back))
  {
    hide Stands;
    var xs, ys := Replacements([a] + front), Replacements([b] + back);
    forall i | 0 <= i < |xs|
      ensures Stands(st, scope, until, xs[i], ys[i])
    {
      if i > 0 {
        assert xs[i] == Replacements(front)[i - 1] && ys[i] == Replacements(back)[i - 1];
      }
    }
  }

  lemma NothingStands(st: Store, scope: Scope, until: int)
    ensures AllStand(st, scope, until, Replacements([]), Replacements([]))
  {
  }

  /** Everything the splice puts in stands for what should come back. */
  lemma {:induction false} CutsStand(c: Call, after: Store, mappings: seq<EntityMapping>, i: nat)
    requires |c.entities| <= |c.ids| && Minted(c, after, mappings) && i <= |Plan(c)|
    requires Typed(Plan(c), mappings) && NoPseudonyms(Plan(c)) && !HasBlock(Plan(c))
    requires Consistent(c.store) && IsDigester(c.digest) && Fresh(c.store, c.scope, c.ids)
    requires CutsFrom(c.surrogate, c.text, Plan(c), mappings, i).Some?
    ensures var cuts := CutsFrom(c.surrogate, c.text, Plan(c), mappings, i).value;
            AllStand(after, c.scope, c.now + c.policy.sessionTtlSeconds, Replacements(cuts),
                     Replacements(ReturnCuts(c, Plan(c), i)))
    decreases |Plan(c)| - i
  {
    hide Grammar.ParseToken, Grammar.Bracket, CutsFrom, Grammar.IsValidEntityType, Rank, TypedAt, MintedAt, Minted,
         Plan, ReturnCuts, FirstStored, Stands, AllStand, Consistent, IsDigester, Fresh;
    var plan := Plan(c);
    var until := c.now + c.policy.sessionTtlSeconds;
    if i == |plan| {
      NothingCut(c.surrogate, c.text, plan, mappings);
      NothingReturns(c, plan);
      NothingStands(after, c.scope, until);
    } else {
      CutsStepDown(c.surrogate, c.text, plan, mappings, i);
      CutsStand(c, after, mappings, i + 1);
      CutsStep(c.surrogate, c.text, plan, mappings, i);
      ReturnCutsStep(c, plan, i);
      var rest := CutsFrom(c.surrogate, c.text, plan, mappings, i + 1).value;
      var p := plan[i];
      if p.action == Redact {
        var placeholder := Grammar.FormatRedaction(p.entity.entityType).value;
        RedactionStands(after, c.scope, until, p.entity.entityType);
        StandsCons(after, c.scope, until, Cut(p.entity.start, p.entity.end, placeholder), rest,
                   ReturnCuts(c, plan, i)[0], ReturnCuts(c, plan, i + 1));
      } else if p.action == Tokenize {
        TokenResolves(c, after, mappings, i);
        assert TypedAt(plan, mappings, i);
        TypedText(plan, mappings, i);
        TokenStands(after, c.scope, until, MintedAt(plan, mappings, i).value.token, FirstStored(c, p).value);
        var token := MintedAt(plan, mappings, i).value.token;
        StandsCons(after, c.scope, until, Cut(p.entity.start, p.entity.end, token), rest,
                   ReturnCuts(c, plan, i)[0], ReturnCuts(c, plan, i + 1));
      }
    }
  }

  lemma NothingReturns(c: Call, plan: seq<Planned>)
    ensures ReturnCuts(c, plan, |plan|) == []
  {
  }

  lemma RedactionStands(st: Store, scope: Scope, until: int, entityType: string)
    requires Grammar.IsValidEntityType(entityType)
    ensures var r := Grammar.Bracket(Grammar.REDACTED_MARKER, entityType); Stands(st, scope, until, r, r)
  {
    hide Grammar.ParseToken, Grammar.IsBracketed, Grammar.IsValidEntityType, Resolvable;
    Grammar.RedactionIsNoToken(entityType);
  }

  lemma TokenStands(st: Store, scope: Scope, until: int, token: string, value: string)
    requires Grammar.IsToken(token) && Resolvable(st, scope, token, value, until)
    ensures Stands(st, scope, until, token, value)
  {
    hide Grammar.ParseToken, Grammar.IsBracketed, Resolvable;
    Grammar.TokenIsBracketed(token);
  }

  lemma RunKeepsStanding(st: Store, now: int, ops: seq<VaultOp>, scope: Scope, until: int,
                         pieces: seq<string>, values: seq<string>)
    requires LegalRun(st, now, ops) && Undisturbed(now, ops, scope, until)
    requires AllStand(st, scope, until, pieces, values)
    ensures AllStand(Run(st, now, ops).0, scope, until, pieces, values)
  {
    hide Grammar.ParseToken, Grammar.IsBracketed, Resolvable, Run, LegalRun, Undisturbed;
    forall i | 0 <= i < |pieces|
      ensures Stands(Run(st, now, ops).0, scope, until, pieces[i], values[i])
    {
      assert Stands(st, scope, until, pieces[i], values[i]);
      if Grammar.IsToken(pieces[i]) {
        RunKeepsResolvable(st, now, ops, scope, pieces[i], values[i], until);
      }
    }
  }

  /** The gateway's promise. Protect a message without surrogates; let any callers do anything in any
      session, short of deleting this one or renewing its keys for less; and restore the protected
      text before a TTL has passed. Then the message comes back with every tokenised span holding the
      first value its session stored for that identity, and every redacted span its placeholder. */
  lemma ProtectThenRestore(c: Call, after: Store, out: TransformedText, ops: seq<VaultOp>,
                           limit: nat, isBlank: string -> bool, model: string, action: UnknownTokenAction)
    requires Succeeds(c, after, out) && NoPseudonyms(Plan(c)) && PlanFits(Plan(c), |c.text|)
    requires Consistent(c.store) && IsDigester(c.digest) && Fresh(c.store, c.scope, c.ids)
    requires LegalRun(after, c.now, ops) && Undisturbed(c.now, ops, c.scope, c.now + c.policy.sessionTtlSeconds)
    requires Run(after, c.now, ops).1 < c.now + c.policy.sessionTtlSeconds
    requires |out.text| <= limit && !isBlank(model)
    requires AllQuiet(Run(after, c.now, ops).0, c.scope, Run(after, c.now, ops).1, action, Untouched(c.text, Plan(c)))
    ensures var (st, later) := Run(after, c.now, ops);
            var r := Restored(st, c.scope, later, limit, isBlank, ProviderResponse(out.text, model), action);
            r.Ok? && r.value.text == Returned(c) && r.value.model == model
  {
    hide Plan, Minted, Succeeds, Typed, CutsFrom, HasBlock, NoPseudonyms, PlanFits, Splice, SpanCuts, ReturnCuts,
         AllStand, AllQuiet, Consistent, IsDigester, Fresh, Run, LegalRun, Undisturbed, Restored, Interleave;
    var mappings := Decompose(c, after, out);
    var plan := Plan(c);
    var until := c.now + c.policy.sessionTtlSeconds;
    MintedAreTyped(c, after, mappings);
    var cuts := CutsFrom(c.surrogate, c.text, plan, mappings, 0).value;
    var back := ReturnCuts(c, plan, 0);
    CutsFit(c.surrogate, c.text, plan, mappings, 0);
    CutsHaveSpans(c.surrogate, c.text, plan, mappings);
    SameGaps(c.text, cuts, SpanCuts(plan, 0), 0);
    ReturnCutsSpans(c, plan, 0);
    SameGaps(c.text, SpanCuts(plan, 0), back, 0);
    SpliceIsInterleave(c.text, cuts, 0);
    SpliceIsInterleave(c.text, back, 0);
    CutsStand(c, after, mappings, 0);
    RunKeepsStanding(after, c.now, ops, c.scope, until, Replacements(cuts), Replacements(back));
    var (st, later) := Run(after, c.now, ops);
    RestoredWhole(st, c.scope, until, later, limit, isBlank, model, action,
                  Untouched(c.text, plan), Replacements(cuts), Replacements(back));
  }

  lemma CutsHaveSpans(surrogate: Surrogate, text: string, plan: seq<Planned>, mappings: seq<EntityMapping>)
    requires Typed(plan, mappings) && NoPseudonyms(plan) && !HasBlock(plan)
    requires CutsFrom(surrogate, text, plan, mappings, 0).Some?
    ensures SameSpans(CutsFrom(surrogate, text, plan, mappings, 0).value, SpanCuts(plan, 0))
  {
    hide CutsFrom, SpanCuts, SameSpans, Pieces;
    CutsArePieces(surrogate, text, plan, mappings, 0);
  }
}
