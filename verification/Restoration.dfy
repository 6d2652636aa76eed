/** Turning the tokens in a provider's reply back into original values. */
module Restoration {
  import opened Wrappers
  import opened Bytes
  import opened Domain
  import opened VaultKeys
  import opened RedisStore
  import opened VaultLaws
  import opened RedisVault
  import opened Splicing
  import Grammar = TokenGrammar

  datatype ProviderResponse = ProviderResponse(content: string, model: string)

  datatype RestoredOutput = RestoredOutput(text: string, restored: nat, unknownTokens: nat, model: string)

  function TextOf(t: Grammar.Token): string {
    Grammar.Bracket(t.entityType, t.tokenId)
  }

  /** The distinct token texts found. */
  function TextsOf(matches: seq<Grammar.TokenMatch>): set<string> {
    set m | m in matches :: TextOf(m.token)
  }

  /** What stands in for one token: its value if it resolved, else what the policy says. FAIL has
      raised before this is asked. */
  function Replacement(t: Grammar.Token, resolved: map<string, string>, action: UnknownTokenAction): string {
    if TextOf(t) in resolved then resolved[TextOf(t)]
    else if action == RedactUnknown then Grammar.Bracket(Grammar.REDACTED_MARKER, t.entityType)
    else TextOf(t)
  }

  function Resolver(resolved: map<string, string>, action: UnknownTokenAction): Grammar.Token -> string {
    t => Replacement(t, resolved, action)
  }

  function MatchCuts(f: Grammar.Token -> string, matches: seq<Grammar.TokenMatch>): (cuts: seq<Cut>)
    ensures |cuts| == |matches|
    ensures forall i :: 0 <= i < |cuts| ==> cuts[i] == Cut(matches[i].start, matches[i].end, f(matches[i].token))
  {
    seq(|matches|, i requires 0 <= i < |matches| => Cut(matches[i].start, matches[i].end, f(matches[i].token)))
  }

  // ---------------------------------------------------------------------------
  // One pass
  // ---------------------------------------------------------------------------

  /** What restoration means: walk the text once, put `f` of each token in its place, and never look
      at what was put there. */
  function RestoreText(f: Grammar.Token -> string, x: string): string
    decreases |x|
  {
    if x == "" then ""
    else
      var n := Grammar.TokenPrefix(x);
      if n.Some? then f(Grammar.ParseToken(x[..n.value]).value) + RestoreText(f, x[n.value..])
      else [x[0]] + RestoreText(f, x[1..])
  }

  lemma {:induction false} CutsOfTokensFit(f: Grammar.Token -> string, x: string, offset: nat, length: nat)
    requires offset + |x| == length
    ensures Fits(MatchCuts(f, Grammar.Tokens(x, offset)), offset, length)
    decreases |x|
  {
    hide Grammar.TokenPrefix, Grammar.ParseToken;
    if x != "" {
      var n := Grammar.TokenPrefix(x);
      var k := if n.Some? then n.value else 1;
      CutsOfTokensFit(f, x[k..], offset + k, length);
      var rest := MatchCuts(f, Grammar.Tokens(x[k..], offset + k));
      if n.Some? {
        assert MatchCuts(f, Grammar.Tokens(x, offset))[1..] == rest;
      } else {
        FitsEarlier(rest, offset + 1, offset, length);
      }
    }
  }

  lemma CutsOfStep(f: Grammar.Token -> string, x: string, offset: nat)
    requires x != ""
    ensures var n := Grammar.TokenPrefix(x);
            MatchCuts(f, Grammar.Tokens(x, offset)) ==
            if n.Some? then
              [Cut(offset, offset + n.value, f(Grammar.ParseToken(x[..n.value]).value))]
              + MatchCuts(f, Grammar.Tokens(x[n.value..], offset + n.value))
            else MatchCuts(f, Grammar.Tokens(x[1..], offset + 1))
  {
    hide Grammar.TokenPrefix, Grammar.ParseToken;
  }

  lemma RestoreStep(f: Grammar.Token -> string, x: string)
    requires x != ""
    ensures var n := Grammar.TokenPrefix(x);
            RestoreText(f, x) ==
            if n.Some? then f(Grammar.ParseToken(x[..n.value]).value) + RestoreText(f, x[n.value..])
            else [x[0]] + RestoreText(f, x[1..])
  {
    hide Grammar.TokenPrefix, Grammar.ParseToken;
  }

  /** Cutting at the scanner's matches is the one pass. */
  lemma {:induction false} SpliceIsRestore(f: Grammar.Token -> string, text: string, pos: nat)
    requires pos <= |text|
    ensures Fits(MatchCuts(f, Grammar.Tokens(text[pos..], pos)), pos, |text|)
    ensures Splice(text, MatchCuts(f, Grammar.Tokens(text[pos..], pos)), pos) == RestoreText(f, text[pos..])
    decreases |text| - pos
  {
    hide Grammar.TokenPrefix, Grammar.ParseToken, Grammar.Tokens, RestoreText, Splice, Fits;
    var x := text[pos..];
    CutsOfTokensFit(f, x, pos, |text|);
    if x == "" {
      NothingToRestore(f, text);
    } else {
      var n := Grammar.TokenPrefix(x);
      var k := if n.Some? then n.value else 1;
      assert x[k..] == text[pos + k..];
      SpliceIsRestore(f, text, pos + k);
      RestoreStep(f, x);
      CutsOfStep(f, x, pos);
      var rest := MatchCuts(f, Grammar.Tokens(x[k..], pos + k));
      if n.Some? {
        SpliceHere(text, Cut(pos, pos + k, f(Grammar.ParseToken(x[..k]).value)), rest);
      } else {
        SpliceFurther(text, rest, pos);
      }
    }
  }

  lemma NothingToRestore(f: Grammar.Token -> string, text: string)
    ensures MatchCuts(f, Grammar.Tokens("", |text|)) == []
    ensures Splice(text, [], |text|) == "" == RestoreText(f, "")
  {
  }

  method Substitute(text: string, matches: seq<Grammar.TokenMatch>, resolved: map<string, string>,
                    action: UnknownTokenAction)
    returns (result: string)
    requires matches == Grammar.Tokens(text, 0)
    ensures result == RestoreText(Resolver(resolved, action), text)
  {
    hide Grammar.Tokens, RestoreText, Replacement, Splice;
    ghost var f := Resolver(resolved, action);
    ghost var cuts := MatchCuts(f, matches);
    assert text[0..] == text;
    SpliceIsRestore(f, text, 0);
    FitsWithin(cuts, 0, |text|);
    var pieces: seq<string> := [];
    var cursor: nat := 0;
    assert cuts[0..] == cuts;
    for i := 0 to |matches|
      invariant Fits(cuts[i..], cursor, |text|)
      invariant Splice(text, cuts, 0) == Join(pieces) + Splice(text, cuts[i..], cursor)
    {
      var m := matches[i];
      assert cuts[i..][0] == cuts[i] && cuts[i..][1..] == cuts[i + 1..];
      SpliceHead(text, cuts[i..], cursor);
      JoinSnoc(pieces, text[cursor..m.start]);
      pieces := pieces + [text[cursor..m.start]];
      JoinSnoc(pieces, Replacement(m.token, resolved, action));
      pieces := pieces + [Replacement(m.token, resolved, action)];
      cursor := m.end;
    }
    assert cuts[|matches|..] == [];
    SpliceNil(text, cursor);
    JoinSnoc(pieces, text[cursor..]);
    pieces := pieces + [text[cursor..]];
    result := Join(pieces);
  }

  // ---------------------------------------------------------------------------
  // The whole restoration
  // ---------------------------------------------------------------------------

  /** `isBlank` is `not model.strip()`. */
  function ValidatedContent(response: ProviderResponse, limit: nat, isBlank: string -> bool)
    : Result<string, GatewayError>
  {
    if isBlank(response.model) then Err(ProviderResponseInvalid)
    else if |response.content| > limit then Err(ProviderResponseInvalid)
    else Ok(response.content)
  }

  function Restored(st: Store, scope: Scope, now: int, limit: nat, isBlank: string -> bool,
                    response: ProviderResponse, action: UnknownTokenAction): Result<RestoredOutput, GatewayError>
  {
    var content := ValidatedContent(response, limit, isBlank);
    if content.Err? then Err(content.error)
    else
      var candidates := TextsOf(Grammar.Tokens(content.value, 0));
      if candidates == {} then Ok(RestoredOutput(content.value, 0, 0, response.model))
      else
        var resolved := Resolution(st, scope, now, candidates);
        if resolved.Err? then Err(resolved.error)
        else
          var unknown := candidates - resolved.value.Keys;
          if unknown != {} && action == Fail then Err(RestorationFailed)
          else Ok(RestoredOutput(RestoreText(Resolver(resolved.value, action), content.value),
                                 |resolved.value|, |unknown|, response.model))
  }

  class OutputPipeline {
    const vault: RedisTokenVault
    const maxOutputChars: nat
    const isBlank: string -> bool

    constructor (vault: RedisTokenVault, maxOutputChars: nat, isBlank: string -> bool)
      requires maxOutputChars >= 1
      ensures this.vault == vault && this.maxOutputChars == maxOutputChars && this.isBlank == isBlank
    {
      this.vault := vault;
      this.maxOutputChars := maxOutputChars;
      this.isBlank := isBlank;
    }

    /** Fails closed: a vault error propagates and no partly restored text is returned. */
    method Restore(scope: Scope, response: ProviderResponse, action: UnknownTokenAction, now: int)
      returns (r: Result<RestoredOutput, GatewayError>)
      ensures r == Restored(vault.redis.store, scope, now, maxOutputChars, isBlank, response, action)
    {
      hide Grammar.Tokens, Resolution, RestoreText, Replacement;
      var content := ValidatedContent(response, maxOutputChars, isBlank);
      if content.Err? {
        return Err(content.error);
      }
      var text := content.value;
      var matches := Grammar.FindTokens(text);
      NoMatchesNoTexts(matches);
      if matches == [] {
        return Ok(RestoredOutput(text, 0, 0, response.model));
      }
      var candidates := TextsOf(matches);
      var resolved := vault.ResolveMany(scope, candidates, now);
      if resolved.Err? {
        return Err(resolved.error);
      }
      var unknown := candidates - resolved.value.Keys;
      if unknown != {} && action == Fail {
        return Err(RestorationFailed);
      }
      var restored := Substitute(text, matches, resolved.value, action);
      r := Ok(RestoredOutput(restored, |resolved.value|, |unknown|, response.model));
    }
  }

  lemma NoMatchesNoTexts(matches: seq<Grammar.TokenMatch>)
    ensures TextsOf(matches) == {} <==> matches == []
  {
    if matches != [] {
      assert matches[0] in matches;
      assert TextOf(matches[0].token) in TextsOf(matches);
    }
  }

  // ---------------------------------------------------------------------------
  // Any reply whatever
  // ---------------------------------------------------------------------------

  /** What a token in a reply becomes: its value, or else its redaction placeholder or itself. */
  function Fate(st: Store, scope: Scope, now: int, action: UnknownTokenAction, t: Grammar.Token): string {
    match LookUp(st, scope, now, TextOf(t))
    case Found(value) => value
    case _ => if action == RedactUnknown then Grammar.Bracket("REDACTED", t.entityType) else TextOf(t)
  }

  function Fated(st: Store, scope: Scope, now: int, action: UnknownTokenAction): Grammar.Token -> string {
    t => Fate(st, scope, now, action, t)
  }

  lemma SameFates(f: Grammar.Token -> string, g: Grammar.Token -> string, matches: seq<Grammar.TokenMatch>)
    requires forall m :: m in matches ==> f(m.token) == g(m.token)
    ensures MatchCuts(f, matches) == MatchCuts(g, matches)
  {
    forall i | 0 <= i < |matches|
      ensures f(matches[i].token) == g(matches[i].token)
    {
      assert matches[i] in matches;
    }
  }

  lemma ResolvedIsFated(st: Store, scope: Scope, now: int, action: UnknownTokenAction,
                        matches: seq<Grammar.TokenMatch>, m: Grammar.TokenMatch)
    requires m in matches && Resolution(st, scope, now, TextsOf(matches)).Ok?
    ensures Resolver(Resolution(st, scope, now, TextsOf(matches)).value, action)(m.token)
         == Fated(st, scope, now, action)(m.token)
  {
    hide LookUp;
    assert TextOf(m.token) in TextsOf(matches);
  }

  /** How restoring ends, for every reply, store and policy. A reply without a model or over the limit is
      invalid. A token whose lookup is refused fails the call. Under FAIL a token that is not found does
      too. Otherwise each token found is replaced by its value, each one not found is left or, under
      REDACT, becomes its placeholder, the rest of the text is as it was, and the two counts are those
      of the distinct tokens found and not found. */
  lemma RestoreExact(st: Store, scope: Scope, now: int, limit: nat, isBlank: string -> bool,
                     response: ProviderResponse, action: UnknownTokenAction)
    ensures var r := Restored(st, scope, now, limit, isBlank, response, action);
            var matches := Grammar.Tokens(response.content, 0);
            var found := set t | t in TextsOf(matches) && LookUp(st, scope, now, t).Found?;
            var unknown := set t | t in TextsOf(matches) && LookUp(st, scope, now, t).NotFound?;
            var cuts := MatchCuts(Fated(st, scope, now, action), matches);
            if isBlank(response.model) || |response.content| > limit then r == Err(ProviderResponseInvalid)
            else if exists t :: t in TextsOf(matches) && LookUp(st, scope, now, t).Refused? then
              r == Err(VaultEncryption)
            else if action == Fail && unknown != {} then r == Err(RestorationFailed)
            else
              Fits(cuts, 0, |response.content|)
              && r == Ok(RestoredOutput(Splice(response.content, cuts, 0), |found|, |unknown|, response.model))
  {
    hide Grammar.Tokens, TextsOf, LookUp, RestoreText, Resolver, Fate, Splice, Fits;
    var content := response.content;
    var matches := Grammar.Tokens(content, 0);
    var candidates := TextsOf(matches);
    var resolved := Resolution(st, scope, now, candidates);
    NoMatchesNoTexts(matches);
    assert content[0..] == content;
    if resolved.Ok? {
      var f, g := Resolver(resolved.value, action), Fated(st, scope, now, action);
      forall m | m in matches
        ensures f(m.token) == g(m.token)
      {
        ResolvedIsFated(st, scope, now, action, matches, m);
      }
      SameFates(f, g, matches);
      SpliceIsRestore(f, content, 0);
      var found := set t | t in candidates && LookUp(st, scope, now, t).Found?;
      assert resolved.value.Keys == found;
      assert |resolved.value| == |resolved.value.Keys|;
      assert candidates - resolved.value.Keys == set t | t in candidates && LookUp(st, scope, now, t).NotFound?;
      if candidates == {} {
        SpliceNil(content, 0);
        assert MatchCuts(g, matches) == [];
        assert found == {};
      }
    }
  }

  // ---------------------------------------------------------------------------
  // Composition
  // ---------------------------------------------------------------------------

  lemma NoTokenHere(x: string)
    requires x != "" && x[0] != Grammar.LEFT
    ensures Grammar.TokenPrefix(x).None?
  {
    hide Grammar.ParseToken;
  }

  lemma {:induction false} RestorePlain(f: Grammar.Token -> string, a: string, b: string)
    requires Grammar.Lacks(a, Grammar.LEFT)
    ensures RestoreText(f, a + b) == a + RestoreText(f, b)
    decreases |a|
  {
    hide Grammar.TokenPrefix, Grammar.ParseToken, RestoreText;
    var x := a + b;
    if a == "" {
      assert x == b;
    } else {
      assert x[0] == a[0] && x[1..] == a[1..] + b;
      NoTokenHere(x);
      RestoreStep(f, x);
      RestorePlain(f, a[1..], b);
      assert a == [a[0]] + a[1..];
    }
  }

  /** What restoration makes of a bracketed piece on its own. */
  function RestoredPiece(f: Grammar.Token -> string, r: string): string {
    if Grammar.IsToken(r) then f(Grammar.ParseToken(r).value) else r
  }

  lemma RestoreBracketed(f: Grammar.Token -> string, r: string, b: string)
    requires Grammar.IsBracketed(r)
    ensures RestoreText(f, r + b) == RestoredPiece(f, r) + RestoreText(f, b)
  {
    hide Grammar.TokenPrefix, Grammar.ParseToken;
    var x := r + b;
    Grammar.TokenPrefixOfBracketed(r, b);
    assert x[..|r|] == r && x[|r|..] == b;
    if !Grammar.IsToken(r) {
      var inner := r[1..];
      assert Grammar.Lacks(inner, Grammar.LEFT);
      assert x[1..] == inner + b;
      RestorePlain(f, inner, b);
      assert r == [r[0]] + inner;
    }
  }

  /** Restoring text around a bracketed piece restores its three parts separately. */
  lemma {:induction false} RestoreAround(f: Grammar.Token -> string, a: string, r: string, b: string)
    requires Grammar.IsBracketed(r)
    ensures RestoreText(f, a + r + b) == RestoreText(f, a) + RestoredPiece(f, r) + RestoreText(f, b)
    decreases |a|
  {
    hide Grammar.TokenPrefix, Grammar.ParseToken, Grammar.IsBracketed, RestoredPiece, RestoreText;
    var x := a + r + b;
    if a == "" {
      assert x == r + b;
      RestoreBracketed(f, r, b);
      NothingToRestore(f, "");
    } else {
      RestoreStep(f, a);
      RestoreStep(f, x);
      Grammar.TokenPrefixStaysInside(a, r, b);
      var n := Grammar.TokenPrefix(a);
      var k := if n.Some? then n.value else 1;
      assert x[..k] == a[..k] && x[k..] == a[k..] + r + b;
      RestoreAround(f, a[k..], r, b);
    }
  }

  function RestoredGaps(f: Grammar.Token -> string, gaps: seq<string>): (r: seq<string>)
    ensures |r| == |gaps|
    ensures forall i :: 0 <= i < |r| ==> r[i] == RestoreText(f, gaps[i])
  {
    seq(|gaps|, i requires 0 <= i < |gaps| => RestoreText(f, gaps[i]))
  }

  function RestoredPieces(f: Grammar.Token -> string, pieces: seq<string>): (r: seq<string>)
    ensures |r| == |pieces|
    ensures forall i :: 0 <= i < |r| ==> r[i] == RestoredPiece(f, pieces[i])
  {
    seq(|pieces|, i requires 0 <= i < |pieces| => RestoredPiece(f, pieces[i]))
  }

  /** Restoring a protected text restores each untouched gap and each inserted piece separately:
      nothing can form across the joins. */
  lemma {:induction false} RestoreInterleaved(f: Grammar.Token -> string, gaps: seq<string>, pieces: seq<string>)
    requires |gaps| == |pieces| + 1
    requires forall i :: 0 <= i < |pieces| ==> Grammar.IsBracketed(pieces[i])
    ensures RestoreText(f, Interleave(gaps, pieces)) == Interleave(RestoredGaps(f, gaps), RestoredPieces(f, pieces))
  {
    hide Grammar.IsBracketed, RestoredPiece, RestoreText;
    if pieces != [] {
      RestoreAround(f, gaps[0], pieces[0], Interleave(gaps[1..], pieces[1..]));
      RestoreInterleaved(f, gaps[1..], pieces[1..]);
      assert RestoredGaps(f, gaps)[1..] == RestoredGaps(f, gaps[1..]);
      assert RestoredPieces(f, pieces)[1..] == RestoredPieces(f, pieces[1..]);
    }
  }

  /** The piece put in at `at`, if it is a token. */
  function OwnToken(r: string, at: nat): seq<Grammar.TokenMatch> {
    if Grammar.IsToken(r) then [Grammar.TokenMatch(Grammar.ParseToken(r).value, at, at + |r|)] else []
  }

  /** Gap, piece, gap, and so on: the tokens of each, where they come to lie. */
  function Scanned(gaps: seq<string>, pieces: seq<string>, offset: nat): seq<Grammar.TokenMatch>
    requires |gaps| == |pieces| + 1
  {
    var left := Grammar.Tokens(gaps[0], offset);
    if pieces == [] then left
    else
      var at := offset + |gaps[0]|;
      left + OwnToken(pieces[0], at) + Scanned(gaps[1..], pieces[1..], at + |pieces[0]|)
  }

  lemma TokensOfPiece(r: string, at: nat)
    requires Grammar.IsBracketed(r)
    ensures Grammar.Tokens(r, at) == OwnToken(r, at)
  {
    hide Grammar.ParseToken, Grammar.IsBracketed;
    assert r + "" == r;
    Grammar.TokensOfBracketed(r, "", at);
    assert Grammar.Tokens("", at + |r|) == [];
  }

  /** The scanner finds in interleaved pieces, range by range and in order, the tokens of each gap and
      each inserted piece that is a token: none forms across a join, and none is found twice. */
  lemma {:induction false} TokensInterleaved(gaps: seq<string>, pieces: seq<string>, offset: nat)
    requires |gaps| == |pieces| + 1
    requires forall i :: 0 <= i < |pieces| ==> Grammar.IsBracketed(pieces[i])
    ensures Grammar.Tokens(Interleave(gaps, pieces), offset) == Scanned(gaps, pieces, offset)
  {
    hide Grammar.IsBracketed, Grammar.Tokens, OwnToken;
    if pieces != [] {
      var at := offset + |gaps[0]|;
      Grammar.TokensAround(gaps[0], pieces[0], Interleave(gaps[1..], pieces[1..]), offset);
      TokensOfPiece(pieces[0], at);
      TokensInterleaved(gaps[1..], pieces[1..], at + |pieces[0]|);
    }
  }

  ghost predicate InGap(gaps: seq<string>, t: string) {
    exists i :: 0 <= i < |gaps| && t in TextsOf(Grammar.Tokens(gaps[i], 0))
  }

  predicate IsPiece(pieces: seq<string>, t: string) {
    Grammar.IsToken(t) && exists i :: 0 <= i < |pieces| && t == pieces[i]
  }

  lemma InGapCons(gaps: seq<string>, t: string)
    requires gaps != []
    ensures InGap(gaps, t) <==> t in TextsOf(Grammar.Tokens(gaps[0], 0)) || InGap(gaps[1..], t)
  {
    hide Grammar.Tokens, TextsOf;
    assert forall i :: 0 <= i < |gaps[1..]| ==> gaps[1..][i] == gaps[i + 1];
    assert forall i :: 0 < i < |gaps| ==> gaps[i] == gaps[1..][i - 1];
  }

  lemma IsPieceCons(pieces: seq<string>, t: string)
    requires pieces != []
    ensures IsPiece(pieces, t) <==> (Grammar.IsToken(pieces[0]) && t == pieces[0]) || IsPiece(pieces[1..], t)
  {
    hide Grammar.ParseToken;
    assert forall i :: 0 <= i < |pieces[1..]| ==> pieces[1..][i] == pieces[i + 1];
    assert forall i :: 0 < i < |pieces| ==> pieces[i] == pieces[1..][i - 1];
  }

  lemma OneGap(gap: string, t: string)
    ensures InGap([gap], t) <==> t in TextsOf(Grammar.Tokens(gap, 0))
  {
    hide Grammar.Tokens, TextsOf;
    assert [gap][0] == gap;
  }

  /** By their text alone. */
  lemma {:induction false} TextsInterleaved(gaps: seq<string>, pieces: seq<string>, t: string, offset: nat)
    requires |gaps| == |pieces| + 1
    requires forall i :: 0 <= i < |pieces| ==> Grammar.IsBracketed(pieces[i])
    ensures t in TextsOf(Grammar.Tokens(Interleave(gaps, pieces), offset)) <==> InGap(gaps, t) || IsPiece(pieces, t)
  {
    hide Grammar.IsBracketed, Grammar.Tokens, Grammar.ParseToken, Grammar.IsToken, TextsOf, InGap, IsPiece;
    TextsShift(gaps[0], offset);
    if pieces == [] {
      OneGap(gaps[0], t);
      assert gaps == [gaps[0]];
      NoPiece(t);
    } else {
      var rest := Interleave(gaps[1..], pieces[1..]);
      var middle := offset + |gaps[0]|;
      Grammar.TokensAround(gaps[0], pieces[0], rest, offset);
      TextsConcat(Grammar.Tokens(gaps[0], offset), Grammar.Tokens(pieces[0], middle),
                  Grammar.Tokens(rest, middle + |pieces[0]|), t);
      TextsOfPiece(pieces[0], middle);
      TextsInterleaved(gaps[1..], pieces[1..], t, middle + |pieces[0]|);
      InGapCons(gaps, t);
      IsPieceCons(pieces, t);
    }
  }

  lemma NoPiece(t: string)
    ensures !IsPiece([], t)
  {
  }

  lemma TextsConcat(a: seq<Grammar.TokenMatch>, b: seq<Grammar.TokenMatch>, c: seq<Grammar.TokenMatch>, t: string)
    ensures t in TextsOf(a + b + c) <==> t in TextsOf(a) || t in TextsOf(b) || t in TextsOf(c)
  {
    assert forall m :: m in a + b + c <==> m in a || m in b || m in c;
  }

  lemma TextsOfPiece(r: string, offset: nat)
    requires Grammar.IsBracketed(r)
    ensures TextsOf(Grammar.Tokens(r, offset)) == if Grammar.IsToken(r) then {r} else {}
  {
    hide Grammar.ParseToken, Grammar.IsBracketed;
    TokensOfPiece(r, offset);
    if Grammar.IsToken(r) {
      Grammar.ParsedWasFormatted(r);
    }
  }

  lemma {:induction false} TextsShift(x: string, offset: nat)
    ensures TextsOf(Grammar.Tokens(x, offset)) == TextsOf(Grammar.Tokens(x, 0))
  {
    SameTokensShifted(x, offset, 0);
    var a, b := Grammar.Tokens(x, offset), Grammar.Tokens(x, 0);
    forall t
      ensures t in TextsOf(a) <==> t in TextsOf(b)
    {
      if t in TextsOf(a) {
        var m :| m in a && TextOf(m.token) == t;
        var i :| 0 <= i < |a| && a[i] == m;
        assert b[i] in b;
      }
      if t in TextsOf(b) {
        var m :| m in b && TextOf(m.token) == t;
        var i :| 0 <= i < |b| && b[i] == m;
        assert a[i] in a;
      }
    }
  }

  lemma {:induction false} SameTokensShifted(x: string, p: nat, q: nat)
    ensures |Grammar.Tokens(x, p)| == |Grammar.Tokens(x, q)|
    ensures forall i :: 0 <= i < |Grammar.Tokens(x, p)| ==>
              Grammar.Tokens(x, p)[i].token == Grammar.Tokens(x, q)[i].token
    decreases |x|
  {
    hide Grammar.TokenPrefix, Grammar.ParseToken;
    if x != "" {
      var n := Grammar.TokenPrefix(x);
      var k := if n.Some? then n.value else 1;
      SameTokensShifted(x[k..], p + k, q + k);
    }
  }
}
