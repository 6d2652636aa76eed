/** What a protected text is made of, read from left to right. */
module Protection {
  import opened Wrappers
  import opened Domain
  import opened VaultKeys
  import opened RedisStore
  import opened RedisVault
  import opened Splicing
  import opened Tokenizer
  import Selection
  import Restoration
  import Grammar = TokenGrammar

  /** One message to protect: everything `transform` reads. */
  datatype Call = Call(
    store: Store, scope: Scope, digest: Digester, fp: Fingerprinter, surrogate: Surrogate, now: int,
    text: string, entities: seq<Entity>, policy: Policy, ids: seq<TokenId>)

  function Outcome(c: Call): (Store, Result<TransformedText, GatewayError>)
    requires |c.entities| <= |c.ids|
  {
    Transformed(c.store, c.scope, c.digest, c.fp, c.surrogate, c.now, c.text, c.entities, c.policy, c.ids)
  }

  /** The call ends normally, with `out`, leaving the store `after`. */
  predicate Succeeds(c: Call, after: Store, out: TransformedText) {
    |c.entities| <= |c.ids| && Outcome(c) == (after, Ok(out))
  }

  function Plan(c: Call): seq<Planned> {
    var selected := Selection.Selected(c.text, c.entities, c.policy);
    if selected.Ok? then PlanOf(selected.value, c.policy) else []
  }

  function Asked(c: Call): seq<VaultWriteRequest> {
    Requests(c.fp, c.scope, c.text, Plan(c))
  }

  predicate NoPseudonyms(plan: seq<Planned>) {
    forall i :: 0 <= i < |plan| ==> plan[i].action != Pseudonymize
  }

  // ---------------------------------------------------------------------------
  // Taking a successful call apart
  // ---------------------------------------------------------------------------

  /** The mapping of span `i` is a token of its type. */
  predicate TypedAt(plan: seq<Planned>, mappings: seq<EntityMapping>, i: nat)
    requires i < |plan|
  {
    var m := MintedAt(plan, mappings, i);
    m.Some? && Grammar.ParseToken(m.value.token) == Some(Grammar.Token(plan[i].entity.entityType, m.value.tokenId))
  }

  ghost predicate Typed(plan: seq<Planned>, mappings: seq<EntityMapping>) {
    && |mappings| == Rank(plan, |plan|)
    && forall i :: 0 <= i < |plan| && NeedsMapping(plan[i].action) ==> TypedAt(plan, mappings, i)
  }

  /** Where the mappings came from: one vault write, or none when no span needs one. */
  predicate Minted(c: Call, after: Store, mappings: seq<EntityMapping>)
    requires |c.entities| <= |c.ids|
  {
    if Asked(c) == [] then after == c.store && mappings == []
    else
      |Asked(c)| <= |c.ids| &&
      var (written, tokens) := Written(c.store, c.scope, c.digest, c.now, Asked(c), c.policy.sessionTtlSeconds, c.ids);
      after == written && tokens.Ok? && AllCoerce(Asked(c), tokens.value)
      && mappings == Mappings(Asked(c), tokens.value)
  }

  lemma Decompose(c: Call, after: Store, out: TransformedText) returns (mappings: seq<EntityMapping>)
    requires Succeeds(c, after, out)
    ensures PlanFits(Plan(c), |c.text|) && !HasBlock(Plan(c))
    ensures |c.entities| <= |c.ids| && Minted(c, after, mappings)
    ensures Spliced(c.surrogate, c.text, Plan(c), mappings) == Ok(out)
  {
    hide Selection.Selected, Requests, Written, AllCoerce, Mappings, Spliced, HasBlock, PlanFits;
    PlanOfSelectedFits(c.text, c.entities, c.policy);
    if Asked(c) == [] {
      mappings := [];
    } else {
      var (written, tokens) := Written(c.store, c.scope, c.digest, c.now, Asked(c), c.policy.sessionTtlSeconds, c.ids);
      mappings := Mappings(Asked(c), tokens.value);
    }
  }

  /** A token a successful write returns is a token of the type asked for. */
  lemma WrittenToken(st: Store, scope: Scope, digest: Digester, now: int, entries: seq<VaultWriteRequest>,
                     ttl: int, ids: seq<TokenId>, i: nat)
    requires |entries| <= |ids| && i < |entries|
    requires Written(st, scope, digest, now, entries, ttl, ids).1.Ok?
    ensures var tokens := Written(st, scope, digest, now, entries, ttl, ids).1.value;
            var t := entries[i].entityType;
            |tokens| == |entries|
            && Grammar.ParseToken(tokens[i]).Some?
            && tokens[i] == Grammar.Bracket(t, Grammar.ParseToken(tokens[i]).value.tokenId)
            && Grammar.ParseToken(tokens[i]).value.entityType == t
  {
    hide Grammar.ParseToken, Grammar.Bracket, Grammar.IsValidEntityType, Grammar.IsValidTokenId, Script, Unique, Find,
         Identity, Candidates;
    var unique := Unique(entries);
    var offered := Candidates(scope, digest, unique, ids);
    var replies := Script(st, scope, now, ttl, offered).1;
    ScriptAnswersAll(st, scope, now, ttl, offered);
    UniqueFinds(entries, i);
    var id := replies[Find(unique, Identity(entries[i]))].0;
    Grammar.FormattedParses(entries[i].entityType, id);
  }

  lemma MintedAreTyped(c: Call, after: Store, mappings: seq<EntityMapping>)
    requires |c.entities| <= |c.ids| && Minted(c, after, mappings)
    ensures Typed(Plan(c), mappings)
  {
    hide Grammar.ParseToken, Grammar.Bracket, Grammar.IsValidTokenId, Grammar.IsValidEntityType, Plan, Written,
         NeedsMapping, Rank, Requests, RequestFor;
    var plan := Plan(c);
    RequestCount(c.fp, c.scope, c.text, plan);
    forall i | 0 <= i < |plan| && NeedsMapping(plan[i].action)
      ensures TypedAt(plan, mappings, i)
    {
      RequestAt(c.fp, c.scope, c.text, plan, i);
      var j := Rank(plan, i);
      RequestType(c.fp, c.scope, c.text, plan[i]);
      WrittenToken(c.store, c.scope, c.digest, c.now, Asked(c), c.policy.sessionTtlSeconds, c.ids, j);
    }
  }

  lemma RequestType(fp: Fingerprinter, scope: Scope, text: string, p: Planned)
    ensures RequestFor(fp, scope, text, p).entityType == p.entity.entityType
  {
  }

  lemma MappingsStep(plan: seq<Planned>, mappings: seq<EntityMapping>, i: nat)
    requires i < |plan|
    ensures var m := MintedAt(plan, mappings, i);
            MappingsFrom(plan, mappings, i) == (if m.Some? then [m.value] else []) + MappingsFrom(plan, mappings, i + 1)
    ensures !NeedsMapping(plan[i].action) ==> MintedAt(plan, mappings, i).None?
  {
  }

  lemma {:induction false} AllMappingsListed(plan: seq<Planned>, mappings: seq<EntityMapping>, i: nat)
    requires i <= |plan| && Typed(plan, mappings)
    ensures Rank(plan, i) <= |mappings|
    ensures MappingsFrom(plan, mappings, i) == mappings[Rank(plan, i)..]
    decreases |plan| - i
  {
    hide Grammar.ParseToken, MappingsFrom, Rank, MintedAt;
    if i == |plan| {
      NoMappingsFrom(plan, mappings);
    } else {
      AllMappingsListed(plan, mappings, i + 1);
      RankStep(plan, i);
      MappingsStep(plan, mappings, i);
      if NeedsMapping(plan[i].action) {
        assert TypedAt(plan, mappings, i);
        MintedHere(plan, mappings, i);
      } else {
        assert [] + mappings[Rank(plan, i)..] == mappings[Rank(plan, i)..];
      }
    }
  }

  lemma NoMappingsFrom(plan: seq<Planned>, mappings: seq<EntityMapping>)
    ensures MappingsFrom(plan, mappings, |plan|) == []
  {
  }

  lemma MintedHere(plan: seq<Planned>, mappings: seq<EntityMapping>, i: nat)
    requires i < |plan| && MintedAt(plan, mappings, i).Some?
    ensures Rank(plan, i) < |mappings| && MintedAt(plan, mappings, i).value == mappings[Rank(plan, i)]
  {
  }

  // ---------------------------------------------------------------------------
  // Left to right
  // ---------------------------------------------------------------------------

  /** The spans that are replaced. */
  function SpanCuts(plan: seq<Planned>, i: nat): seq<Cut>
    requires i <= |plan|
    decreases |plan| - i
  {
    if i == |plan| then []
    else if plan[i].action == Allow then SpanCuts(plan, i + 1)
    else [Cut(plan[i].entity.start, plan[i].entity.end, "")] + SpanCuts(plan, i + 1)
  }

  predicate SameSpans(a: seq<Cut>, b: seq<Cut>) {
    |a| == |b| && forall i :: 0 <= i < |a| ==> a[i].start == b[i].start && a[i].end == b[i].end
  }

  lemma {:induction false} SpanCutsFit(plan: seq<Planned>, length: nat, i: nat)
    requires i <= |plan| && PlanFits(plan, length)
    ensures Fits(SpanCuts(plan, i), if i == 0 then 0 else plan[i - 1].entity.end, length)
    ensures i < |plan| ==> Fits(SpanCuts(plan, i), plan[i].entity.start, length)
    decreases |plan| - i
  {
    if i < |plan| {
      SpanCutsFit(plan, length, i + 1);
      assert i > 0 ==> plan[i - 1].entity.end <= plan[i].entity.start;
      FitsEarlier(SpanCuts(plan, i + 1), plan[i].entity.end, plan[i].entity.start, length);
      FitsEarlier(SpanCuts(plan, i), plan[i].entity.start, if i == 0 then 0 else plan[i - 1].entity.end, length);
    }
  }

  lemma {:induction false} SameGaps(text: string, a: seq<Cut>, b: seq<Cut>, cursor: nat)
    requires Fits(a, cursor, |text|) && SameSpans(a, b)
    ensures Fits(b, cursor, |text|)
    ensures Gaps(text, a, cursor) == Gaps(text, b, cursor)
  {
    if a != [] {
      FitsWithin(a, cursor, |text|);
      assert SameSpans(a[1..], b[1..]) by {
        assert forall i :: 0 <= i < |a| - 1 ==> a[1..][i] == a[i + 1] && b[1..][i] == b[i + 1];
      }
      SameGaps(text, a[1..], b[1..], a[0].end);
    }
  }

  /** The pieces of the message that protection leaves as they are. */
  function Untouched(text: string, plan: seq<Planned>): seq<string>
    requires PlanFits(plan, |text|)
  {
    SpanCutsFit(plan, |text|, 0);
    Gaps(text, SpanCuts(plan, 0), 0)
  }

  /** What protection may depend on: types and actions, never values or lengths. */
  function Shape(plan: seq<Planned>): (s: seq<(string, EntityAction)>)
    ensures |s| == |plan|
    ensures forall i :: 0 <= i < |s| ==> s[i] == (plan[i].entity.entityType, plan[i].action)
  {
    seq(|plan|, i requires 0 <= i < |plan| => (plan[i].entity.entityType, plan[i].action))
  }

  /** What is put in the place of each replaced span. */
  function Pieces(shape: seq<(string, EntityAction)>, ids: seq<string>): seq<string> {
    if shape == [] then []
    else match shape[0].1
      case Redact => [Grammar.Bracket(Grammar.REDACTED_MARKER, shape[0].0)] + Pieces(shape[1..], ids)
      case Tokenize => if ids == [] then [] else [Grammar.Bracket(shape[0].0, ids[0])] + Pieces(shape[1..], ids[1..])
      case _ => Pieces(shape[1..], ids)
  }

  function TokenIds(mappings: seq<EntityMapping>): (ids: seq<string>)
    ensures |ids| == |mappings|
    ensures forall i :: 0 <= i < |ids| ==> ids[i] == mappings[i].tokenId
  {
    seq(|mappings|, i requires 0 <= i < |mappings| => mappings[i].tokenId)
  }

  lemma PiecesStep(plan: seq<Planned>, ids: seq<string>, i: nat)
    requires i < |plan|
    ensures var shape := Shape(plan)[i..];
            var rest := Shape(plan)[i + 1..];
            var t := plan[i].entity.entityType;
            Pieces(shape, ids) == match plan[i].action
              case Redact => [Grammar.Bracket(Grammar.REDACTED_MARKER, t)] + Pieces(rest, ids)
              case Tokenize => if ids == [] then [] else [Grammar.Bracket(t, ids[0])] + Pieces(rest, ids[1..])
              case _ => Pieces(rest, ids)
  {
    assert Shape(plan)[i..][1..] == Shape(plan)[i + 1..];
  }

  lemma TypedText(plan: seq<Planned>, mappings: seq<EntityMapping>, i: nat)
    requires i < |plan| && TypedAt(plan, mappings, i)
    ensures var m := MintedAt(plan, mappings, i).value;
            m.token == Grammar.Bracket(plan[i].entity.entityType, m.tokenId) && Grammar.IsToken(m.token)
  {
    hide Grammar.ParseToken;
    var m := MintedAt(plan, mappings, i).value;
    Grammar.ParsedWasFormatted(m.token);
  }

  /** The id that a tokenised span takes is the next one. */
  lemma NextId(plan: seq<Planned>, mappings: seq<EntityMapping>, i: nat)
    requires i < |plan| && Typed(plan, mappings) && plan[i].action == Tokenize
    ensures Rank(plan, i) < |mappings| && Rank(plan, i + 1) == Rank(plan, i) + 1
    ensures var ids := TokenIds(mappings)[Rank(plan, i)..];
            var m := MintedAt(plan, mappings, i);
            m.Some? && m.value.token == Grammar.Bracket(plan[i].entity.entityType, ids[0])
            && ids[1..] == TokenIds(mappings)[Rank(plan, i + 1)..]
  {
    hide Grammar.ParseToken, Grammar.Bracket, Rank, MintedAt;
    RankStep(plan, i);
    assert TypedAt(plan, mappings, i);
    TypedText(plan, mappings, i);
    MintedHere(plan, mappings, i);
  }

  lemma ConsReplaced(c: Cut, cuts: seq<Cut>, d: Cut, spans: seq<Cut>)
    requires SameSpans(cuts, spans) && c.start == d.start && c.end == d.end
    ensures SameSpans([c] + cuts, [d] + spans)
    ensures Replacements([c] + cuts) == [c.replacement] + Replacements(cuts)
  {
  }

  lemma SpanCutsStep(plan: seq<Planned>, i: nat)
    requires i < |plan|
    ensures SpanCuts(plan, i) ==
            if plan[i].action == Allow then SpanCuts(plan, i + 1)
            else [Cut(plan[i].entity.start, plan[i].entity.end, "")] + SpanCuts(plan, i + 1)
    ensures SpanCuts(plan, |plan|) == []
  {
  }

  lemma NothingReplaced(plan: seq<Planned>)
    ensures SameSpans([], SpanCuts(plan, |plan|)) && Replacements([]) == []
  {
  }

  lemma {:induction false} CutsArePieces(surrogate: Surrogate, text: string, plan: seq<Planned>,
                                         mappings: seq<EntityMapping>, i: nat)
    requires i <= |plan| && Typed(plan, mappings) && NoPseudonyms(plan) && !HasBlock(plan)
    requires CutsFrom(surrogate, text, plan, mappings, i).Some? && Rank(plan, i) <= |mappings|
    ensures var cuts := CutsFrom(surrogate, text, plan, mappings, i).value;
            SameSpans(cuts, SpanCuts(plan, i))
            && Replacements(cuts) == Pieces(Shape(plan)[i..], TokenIds(mappings)[Rank(plan, i)..])
    decreases |plan| - i
  {
    hide Grammar.ParseToken, Grammar.Bracket, Pieces, CutsFrom, Grammar.IsValidEntityType, Rank, TypedAt, MintedAt,
         SameSpans, SpanCuts, Typed;
    if i == |plan| {
      NothingCut(surrogate, text, plan, mappings);
      NothingReplaced(plan);
      NoPieces(TokenIds(mappings)[Rank(plan, i)..]);
      assert Shape(plan)[i..] == [];
    } else {
      var p := plan[i];
      RankStep(plan, i);
      if p.action == Tokenize {
        NextId(plan, mappings, i);
      }
      CutsStepDown(surrogate, text, plan, mappings, i);
      CutsArePieces(surrogate, text, plan, mappings, i + 1);
      CutsStep(surrogate, text, plan, mappings, i);
      SpanCutsStep(plan, i);
      PiecesStep(plan, TokenIds(mappings)[Rank(plan, i)..], i);
      if p.action != Allow {
        var rest := CutsFrom(surrogate, text, plan, mappings, i + 1).value;
        ConsReplaced(CutsFrom(surrogate, text, plan, mappings, i).value[0], rest,
                     Cut(p.entity.start, p.entity.end, ""), SpanCuts(plan, i + 1));
      }
    }
  }

  lemma NoPieces(ids: seq<string>)
    ensures Pieces([], ids) == []
  {
  }

  lemma CutsStepDown(surrogate: Surrogate, text: string, plan: seq<Planned>, mappings: seq<EntityMapping>, i: nat)
    requires i < |plan| && CutsFrom(surrogate, text, plan, mappings, i).Some?
    ensures CutsFrom(surrogate, text, plan, mappings, i + 1).Some?
  {
  }

  /** The right-to-left splice, read from left to right: the untouched pieces of the message with,
      between them, pieces that depend only on types, actions and minted ids. */
  lemma ProtectedText(c: Call, after: Store, out: TransformedText)
    requires Succeeds(c, after, out) && NoPseudonyms(Plan(c)) && PlanFits(Plan(c), |c.text|)
    ensures var gaps := Untouched(c.text, Plan(c));
            var pieces := Pieces(Shape(Plan(c)), TokenIds(out.mappings));
            |gaps| == |pieces| + 1 && out.text == Interleave(gaps, pieces)
  {
    hide Plan, Minted, Succeeds, Typed, Pieces, CutsFrom, HasBlock, NoPseudonyms, PlanFits, Splice, SpanCuts;
    var mappings := Decompose(c, after, out);
    var plan := Plan(c);
    MintedAreTyped(c, after, mappings);
    AllMappingsListed(plan, mappings, 0);
    assert mappings[0..] == mappings;
    var cuts := CutsFrom(c.surrogate, c.text, plan, mappings, 0).value;
    CutsFit(c.surrogate, c.text, plan, mappings, 0);
    CutsArePieces(c.surrogate, c.text, plan, mappings, 0);
    assert Shape(plan)[0..] == Shape(plan) && TokenIds(mappings)[0..] == TokenIds(mappings);
    SpliceIsInterleave(c.text, cuts, 0);
    SameGaps(c.text, cuts, SpanCuts(plan, 0), 0);
  }

  /** Messages that differ only in the values replaced, of whatever length, protect to the same text. */
  lemma NonInterference(a: Call, afterA: Store, outA: TransformedText, b: Call, afterB: Store, outB: TransformedText)
    requires Succeeds(a, afterA, outA) && NoPseudonyms(Plan(a)) && PlanFits(Plan(a), |a.text|)
    requires Succeeds(b, afterB, outB) && NoPseudonyms(Plan(b)) && PlanFits(Plan(b), |b.text|)
    requires Untouched(a.text, Plan(a)) == Untouched(b.text, Plan(b))
    requires Shape(Plan(a)) == Shape(Plan(b)) && TokenIds(outA.mappings) == TokenIds(outB.mappings)
    ensures outA.text == outB.text
  {
    hide Plan, Succeeds, PlanFits, Untouched;
    ProtectedText(a, afterA, outA);
    ProtectedText(b, afterB, outB);
  }

  // ---------------------------------------------------------------------------
  // Scanning
  // ---------------------------------------------------------------------------

  ghost predicate AllBracketed(pieces: seq<string>) {
    forall j :: 0 <= j < |pieces| ==> Grammar.IsBracketed(pieces[j])
  }

  function TokensAmong(pieces: seq<string>): seq<string> {
    if pieces == [] then []
    else (if Grammar.IsToken(pieces[0]) then [pieces[0]] else []) + TokensAmong(pieces[1..])
  }

  function TokenTexts(mappings: seq<EntityMapping>): (r: seq<string>)
    ensures |r| == |mappings|
    ensures forall i :: 0 <= i < |r| ==> r[i] == mappings[i].token
  {
    seq(|mappings|, i requires 0 <= i < |mappings| => mappings[i].token)
  }

  lemma PiecesCons(c: Cut, rest: seq<Cut>)
    ensures Replacements([c] + rest) == [c.replacement] + Replacements(rest)
    ensures AllBracketed(Replacements([c] + rest)) <==>
            Grammar.IsBracketed(c.replacement) && AllBracketed(Replacements(rest))
    ensures TokensAmong(Replacements([c] + rest)) ==
            (if Grammar.IsToken(c.replacement) then [c.replacement] else []) + TokensAmong(Replacements(rest))
  {
    hide Grammar.ParseToken, Grammar.IsBracketed;
    var all, tail := Replacements([c] + rest), Replacements(rest);
    assert all == [c.replacement] + tail && all[1..] == tail && all[0] == c.replacement;
    assert forall j :: 1 <= j < |all| ==> all[j] == tail[j - 1];
    assert forall j :: 0 <= j < |tail| ==> tail[j] == all[j + 1];
  }

  lemma TokenTextsCons(mappings: seq<EntityMapping>, n: nat)
    requires n < |mappings|
    ensures TokenTexts(mappings[n..]) == [mappings[n].token] + TokenTexts(mappings[n + 1..])
  {
  }

  /** Every piece put in is bracketed, and those that are tokens are the mappings' tokens, in order. */
  lemma {:induction false} CutsScan(surrogate: Surrogate, text: string, plan: seq<Planned>,
                                    mappings: seq<EntityMapping>, i: nat)
    requires i <= |plan| && Typed(plan, mappings) && NoPseudonyms(plan) && !HasBlock(plan)
    requires CutsFrom(surrogate, text, plan, mappings, i).Some? && Rank(plan, i) <= |mappings|
    ensures var pieces := Replacements(CutsFrom(surrogate, text, plan, mappings, i).value);
            AllBracketed(pieces) && TokensAmong(pieces) == TokenTexts(mappings[Rank(plan, i)..])
    decreases |plan| - i
  {
    hide Grammar.ParseToken, Grammar.Bracket, CutsFrom, Grammar.IsValidEntityType, Rank, TypedAt, MintedAt,
         AllBracketed, TokensAmong, Grammar.IsBracketed, Grammar.IsToken;
    if i == |plan| {
      NothingCut(surrogate, text, plan, mappings);
      assert mappings[Rank(plan, i)..] == [];
      NothingAmong();
    } else {
      RankStep(plan, i);
      RankGrows(plan, i + 1, |plan|);
      CutsStepDown(surrogate, text, plan, mappings, i);
      CutsScan(surrogate, text, plan, mappings, i + 1);
      CutsStep(surrogate, text, plan, mappings, i);
      var rest := CutsFrom(surrogate, text, plan, mappings, i + 1).value;
      var p := plan[i];
      if p.action == Redact {
        var placeholder := Grammar.FormatRedaction(p.entity.entityType);
        PiecesCons(Cut(p.entity.start, p.entity.end, placeholder.value), rest);
        Grammar.RedactionIsNoToken(p.entity.entityType);
      } else if p.action == Tokenize {
        assert TypedAt(plan, mappings, i);
        TypedText(plan, mappings, i);
        MintedHere(plan, mappings, i);
        var m := mappings[Rank(plan, i)];
        Grammar.TokenIsBracketed(m.token);
        PiecesCons(Cut(p.entity.start, p.entity.end, m.token), rest);
        TokenTextsCons(mappings, Rank(plan, i));
      }
    }
  }

  lemma NothingAmong()
    ensures AllBracketed(Replacements([])) && TokensAmong(Replacements([])) == [] == TokenTexts([])
  {
  }

  /** What the scanner finds in a protected text, range by range: the tokens that already lay whole in an
      untouched piece, and between them the pieces put in that are tokens, which are the minted tokens in
      order and nothing else, whatever the placeholders look like. */
  lemma ScannedTokens(c: Call, after: Store, out: TransformedText)
    requires Succeeds(c, after, out) && NoPseudonyms(Plan(c)) && PlanFits(Plan(c), |c.text|)
    ensures var gaps := Untouched(c.text, Plan(c));
            var pieces := Pieces(Shape(Plan(c)), TokenIds(out.mappings));
            |gaps| == |pieces| + 1
            && Grammar.Tokens(out.text, 0) == Restoration.Scanned(gaps, pieces, 0)
            && TokensAmong(pieces) == TokenTexts(out.mappings)
  {
    hide Plan, Minted, Succeeds, Typed, Pieces, CutsFrom, HasBlock, NoPseudonyms, PlanFits, Splice, SpanCuts,
         Grammar.Tokens, Grammar.IsToken, Grammar.IsBracketed, TokensAmong;
    ProtectedText(c, after, out);
    var mappings := Decompose(c, after, out);
    var plan := Plan(c);
    MintedAreTyped(c, after, mappings);
    AllMappingsListed(plan, mappings, 0);
    assert mappings[0..] == mappings;
    CutsArePieces(c.surrogate, c.text, plan, mappings, 0);
    CutsScan(c.surrogate, c.text, plan, mappings, 0);
    assert Shape(plan)[0..] == Shape(plan) && TokenIds(mappings)[0..] == TokenIds(mappings);
    Restoration.TokensInterleaved(Untouched(c.text, plan), Pieces(Shape(plan), TokenIds(mappings)), 0);
  }
}
