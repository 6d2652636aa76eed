/** The gateway token grammar: builder, strict parser, and scanner. */
module TokenGrammar {
  import opened Wrappers

  /** U+27E6 and U+27E7, the mathematical white square brackets. */
  const LEFT: char := '\U{27E6}'
  const RIGHT: char := '\U{27E7}'
  const NAMESPACE := "SGW"
  const SEPARATOR := ':'
  const REDACTED_MARKER := "REDACTED"
  const TOKEN_ID_LENGTH := 26
  const MAX_ENTITY_TYPE_LENGTH := 64
  const MINIMUM_TOKEN_LENGTH := 1 + 3 + 2 + 1 + TOKEN_ID_LENGTH + 1

  datatype Token = Token(entityType: string, tokenId: string)

  predicate IsTypeChar(c: char) {
    'A' <= c <= 'Z' || '0' <= c <= '9' || c == '_'
  }

  /** Crockford base32: digits and upper-case letters other than I, L, O and U. */
  predicate IsIdChar(c: char) {
    '0' <= c <= '9' || ('A' <= c <= 'Z' && c != 'I' && c != 'L' && c != 'O' && c != 'U')
  }

  predicate IsValidEntityType(s: string) {
    && 1 <= |s| <= MAX_ENTITY_TYPE_LENGTH
    && s != REDACTED_MARKER
    && forall i :: 0 <= i < |s| ==> IsTypeChar(s[i])
  }

  predicate IsValidTokenId(s: string) {
    |s| == TOKEN_ID_LENGTH && forall i :: 0 <= i < |s| ==> IsIdChar(s[i])
  }

  /** Two fields between the delimiters, after the namespace. */
  function Bracket(second: string, third: string): string {
    [LEFT] + (NAMESPACE + [SEPARATOR] + (second + [SEPARATOR] + third)) + [RIGHT]
  }

  /** `None` stands for ValueError. */
  function FormatToken(entityType: string, tokenId: string): Option<string> {
    if IsValidEntityType(entityType) && IsValidTokenId(tokenId) then Some(Bracket(entityType, tokenId)) else None
  }

  function FormatRedaction(entityType: string): Option<string> {
    if IsValidEntityType(entityType) then Some(Bracket(REDACTED_MARKER, entityType)) else None
  }

  /** `s.split(separator)` */
  function Split(s: string, separator: char): (fields: seq<string>)
    ensures fields != []
  {
    if s == "" then [""]
    else
      var rest := Split(s[1..], separator);
      if s[0] == separator then [""] + rest else [[s[0]] + rest[0]] + rest[1..]
  }

  /** The whole candidate must be exactly one token. */
  function ParseToken(candidate: string): Option<Token> {
    if |candidate| < MINIMUM_TOKEN_LENGTH then None
    else if candidate[0] != LEFT || candidate[|candidate| - 1] != RIGHT then None
    else
      var fields := Split(candidate[1..|candidate| - 1], SEPARATOR);
      if |fields| != 3 then None
      else if fields[0] != NAMESPACE then None
      else if !IsValidEntityType(fields[1]) then None
      else if !IsValidTokenId(fields[2]) then None
      else Some(Token(fields[1], fields[2]))
  }

  predicate IsToken(s: string) {
    ParseToken(s).Some?
  }

  // ---------------------------------------------------------------------------
  // Printing and parsing undo each other
  // ---------------------------------------------------------------------------

  predicate Lacks(s: string, c: char) {
    forall i :: 0 <= i < |s| ==> s[i] != c
  }

  lemma {:induction false} SplitFirst(a: string, rest: string, separator: char)
    requires Lacks(a, separator)
    ensures Split(a + [separator] + rest, separator) == [a] + Split(rest, separator)
    ensures Split(a, separator) == [a]
  {
    var s := a + [separator] + rest;
    if a == "" {
      assert s[1..] == rest;
    } else {
      assert s[1..] == a[1..] + [separator] + rest;
      SplitFirst(a[1..], rest, separator);
      assert [a[0]] + a[1..] == a;
    }
  }

  /** `separator.join(fields)` */
  function Rejoin(fields: seq<string>, separator: char): string
    requires fields != []
  {
    if |fields| == 1 then fields[0] else fields[0] + [separator] + Rejoin(fields[1..], separator)
  }

  lemma {:induction false} SplitRejoins(s: string, separator: char)
    ensures Rejoin(Split(s, separator), separator) == s
  {
    if s != "" {
      SplitRejoins(s[1..], separator);
      var rest := Split(s[1..], separator);
      assert s == [s[0]] + s[1..];
      if s[0] == separator {
        assert ([""] + rest)[1..] == rest;
      } else {
        var fields := [[s[0]] + rest[0]] + rest[1..];
        assert fields[1..] == rest[1..];
      }
    }
  }

  lemma ParsedWasFormatted(candidate: string)
    requires ParseToken(candidate).Some?
    ensures var t := ParseToken(candidate).value; FormatToken(t.entityType, t.tokenId) == Some(candidate)
  {
    hide IsValidEntityType, IsValidTokenId, Split;
    var body := candidate[1..|candidate| - 1];
    SplitRejoins(body, SEPARATOR);
    var fields := Split(body, SEPARATOR);
    assert fields[1..][1..] == [fields[2]];
    assert Rejoin(fields[1..], SEPARATOR) == fields[1] + [SEPARATOR] + fields[2];
    assert body == fields[0] + [SEPARATOR] + (fields[1] + [SEPARATOR] + fields[2]);
    assert candidate == [LEFT] + body + [RIGHT];
  }

  lemma ValidFieldsLackSeparator(entityType: string, tokenId: string)
    ensures IsValidEntityType(entityType) ==> Lacks(entityType, SEPARATOR) && |entityType| >= 1
    ensures IsValidTokenId(tokenId) ==> Lacks(tokenId, SEPARATOR) && |tokenId| == TOKEN_ID_LENGTH
  {
  }

  lemma BracketSplits(second: string, third: string)
    requires Lacks(second, SEPARATOR) && Lacks(third, SEPARATOR)
    ensures var c := Bracket(second, third);
            |c| == |second| + |third| + 7 && c[0] == LEFT && c[|c| - 1] == RIGHT
            && Split(c[1..|c| - 1], SEPARATOR) == [NAMESPACE, second, third]
  {
    hide Split;
    var c := Bracket(second, third);
    assert c[1..|c| - 1] == NAMESPACE + [SEPARATOR] + (second + [SEPARATOR] + third);
    SplitFirst(NAMESPACE, second + [SEPARATOR] + third, SEPARATOR);
    SplitFirst(second, third, SEPARATOR);
    SplitFirst(third, "", SEPARATOR);
  }

  lemma FormattedParses(entityType: string, tokenId: string)
    requires FormatToken(entityType, tokenId).Some?
    ensures ParseToken(FormatToken(entityType, tokenId).value) == Some(Token(entityType, tokenId))
  {
    hide IsValidEntityType, IsValidTokenId, Split, Bracket, Lacks;
    ValidFieldsLackSeparator(entityType, tokenId);
    BracketSplits(entityType, tokenId);
  }

  /** A candidate parses to a token exactly when it is that token's canonical text. */
  lemma ParseIffFormat(candidate: string, token: Token)
    ensures ParseToken(candidate) == Some(token)
       <==> FormatToken(token.entityType, token.tokenId) == Some(candidate)
  {
    hide ParseToken, FormatToken;
    if ParseToken(candidate).Some? {
      ParsedWasFormatted(candidate);
    }
    if FormatToken(token.entityType, token.tokenId).Some? {
      FormattedParses(token.entityType, token.tokenId);
    }
  }

  /** One of 0123456789ABCDEFGHJKMNPQRSTVWXYZ. */
  predicate IsCrockford(c: char) {
    '0' <= c <= '9' || 'A' <= c <= 'H' || 'J' <= c <= 'K' || 'M' <= c <= 'N' || 'P' <= c <= 'T' || 'V' <= c <= 'Z'
  }

  /** What a token is, letter by letter: the white square brackets around SGW, a type of 1 to 64 capitals, digits
      and underscores other than REDACTED, and an id of 26 Crockford characters, with colons between. */
  lemma TokenShape(s: string, entityType: string, tokenId: string)
    ensures ParseToken(s) == Some(Token(entityType, tokenId)) <==>
            s == "\U{27E6}SGW:" + entityType + ":" + tokenId + "\U{27E7}"
            && 1 <= |entityType| <= 64 && entityType != "REDACTED" && |tokenId| == 26
            && (forall i :: 0 <= i < |entityType| ==>
                  'A' <= entityType[i] <= 'Z' || '0' <= entityType[i] <= '9' || entityType[i] == '_')
            && forall i :: 0 <= i < |tokenId| ==> IsCrockford(tokenId[i])
  {
    hide ParseToken;
    ParseIffFormat(s, Token(entityType, tokenId));
    BracketShape(entityType, tokenId);
  }

  /** A placeholder names its type. */
  lemma RedactionShape(entityType: string)
    requires IsValidEntityType(entityType)
    ensures FormatRedaction(entityType) == Some("\U{27E6}SGW:REDACTED:" + entityType + "\U{27E7}")
  {
    BracketShape(REDACTED_MARKER, entityType);
    assert "\U{27E6}SGW:" + REDACTED_MARKER + ":" + entityType + "\U{27E7}"
        == "\U{27E6}SGW:REDACTED:" + entityType + "\U{27E7}";
  }

  lemma BracketShape(second: string, third: string)
    ensures Bracket(second, third) == "\U{27E6}SGW:" + second + ":" + third + "\U{27E7}"
  {
  }

  /** What every token and every redaction placeholder looks like from outside: delimiters at its
      two ends and nowhere else. */
  predicate IsBracketed(s: string) {
    |s| >= 2 && s[0] == LEFT && s[|s| - 1] == RIGHT
    && forall i :: 1 <= i < |s| - 1 ==> s[i] != LEFT && s[i] != RIGHT
  }

  lemma TokenIsBracketed(s: string)
    requires IsToken(s)
    ensures IsBracketed(s)
  {
    ParsedWasFormatted(s);
  }

  /** A redaction placeholder is never a token, even when its entity type has the shape of a token
      id, so restoration can never try to resolve it. */
  lemma RedactionIsNoToken(entityType: string)
    requires IsValidEntityType(entityType)
    ensures IsBracketed(FormatRedaction(entityType).value)
    ensures !IsToken(FormatRedaction(entityType).value)
  {
    hide Split;
    ValidFieldsLackSeparator(entityType, "");
    BracketSplits(REDACTED_MARKER, entityType);
  }

  // ---------------------------------------------------------------------------
  // The regular expression
  // ---------------------------------------------------------------------------

  /** The strings the scanner's pattern matches: it knows the two character classes but not that
      REDACTED is reserved. */
  predicate InPattern(second: string, third: string) {
    && 1 <= |second| <= MAX_ENTITY_TYPE_LENGTH
    && (forall i :: 0 <= i < |second| ==> IsTypeChar(second[i]))
    && IsValidTokenId(third)
  }

  ghost predicate MatchesPattern(s: string) {
    exists second, third :: InPattern(second, third) && s == Bracket(second, third)
  }

  /** The number of leading entity-type characters, at most `most`. */
  function TypeRun(x: string, most: nat): (n: nat)
    ensures n <= most && n <= |x|
    ensures forall i :: 0 <= i < n ==> IsTypeChar(x[i])
    ensures n < most && n < |x| ==> !IsTypeChar(x[n])
  {
    if most == 0 || x == "" || !IsTypeChar(x[0]) then 0 else 1 + TypeRun(x[1..], most - 1)
  }

  /** The length of the match that begins `x`, if the pattern matches there. The greedy run of type
      characters is the only one a separator can follow. */
  function PatternPrefix(x: string): (n: Option<nat>)
    ensures n.Some? ==> 2 <= n.value <= |x|
  {
    if |x| < 5 || x[..5] != [LEFT] + NAMESPACE + [SEPARATOR] then None
    else
      var run := TypeRun(x[5..], MAX_ENTITY_TYPE_LENGTH);
      var end := 5 + run + 1 + TOKEN_ID_LENGTH + 1;
      if run >= 1 && end <= |x| && x[5 + run] == SEPARATOR
         && IsValidTokenId(x[5 + run + 1..end - 1]) && x[end - 1] == RIGHT
      then Some(end) else None
  }

  lemma PatternPrefixIff(x: string, n: nat)
    ensures PatternPrefix(x) == Some(n) <==> n <= |x| && MatchesPattern(x[..n])
  {
    if PatternPrefix(x) == Some(n) {
      var run := TypeRun(x[5..], MAX_ENTITY_TYPE_LENGTH);
      var second, third := x[5..5 + run], x[5 + run + 1..n - 1];
      assert InPattern(second, third);
      assert x[..n] == x[..5] + second + [x[5 + run]] + third + [x[n - 1]];
      assert x[..n] == Bracket(second, third);
    }
    if n <= |x| && MatchesPattern(x[..n]) {
      var second, third :| InPattern(second, third) && x[..n] == Bracket(second, third);
      PatternOfBracket(x, second, third);
    }
  }

  lemma PatternOfBracket(x: string, second: string, third: string)
    requires InPattern(second, third) && Bracket(second, third) <= x
    ensures PatternPrefix(x) == Some(|Bracket(second, third)|)
  {
    var b := Bracket(second, third);
    var k := 5 + |second|;
    assert b[..5] == [LEFT] + NAMESPACE + [SEPARATOR] && x[..5] == b[..5];
    forall i | 0 <= i < |second|
      ensures x[5..][i] == second[i]
    {
      assert b[5 + i] == second[i];
    }
    assert x[5..][|second|] == b[k] == SEPARATOR;
    assert TypeRun(x[5..], MAX_ENTITY_TYPE_LENGTH) == |second|;
    assert x[k + 1..k + 1 + TOKEN_ID_LENGTH] == b[k + 1..k + 1 + TOKEN_ID_LENGTH] == third;
    assert x[|b| - 1] == b[|b| - 1] == RIGHT;
  }

  // ---------------------------------------------------------------------------
  // The scanner
  // ---------------------------------------------------------------------------

  datatype TokenMatch = TokenMatch(token: Token, start: nat, end: nat)

  /** The length of the token that begins `x`, if one does. */
  function TokenPrefix(x: string): (n: Option<nat>)
    ensures n.Some? ==> 2 <= n.value <= |x| && IsToken(x[..n.value])
  {
    var n := PatternPrefix(x);
    if n.Some? && IsToken(x[..n.value]) then n else None
  }

  lemma TokenPrefixIff(x: string, n: nat)
    ensures TokenPrefix(x) == Some(n) <==> n <= |x| && IsToken(x[..n])
  {
    hide ParseToken, PatternPrefix;
    if n <= |x| && IsToken(x[..n]) {
      var token := ParseToken(x[..n]).value;
      ParseIffFormat(x[..n], token);
      assert InPattern(token.entityType, token.tokenId) && x[..n] == Bracket(token.entityType, token.tokenId);
      PatternPrefixIff(x, n);
    }
  }

  /** The tokens of `x` in order of appearance, `x` standing at `offset` in the scanned text. */
  function Tokens(x: string, offset: nat): seq<TokenMatch>
    decreases |x|
  {
    if x == "" then []
    else
      var n := TokenPrefix(x);
      if n.Some? then
        [TokenMatch(ParseToken(x[..n.value]).value, offset, offset + n.value)]
        + Tokens(x[n.value..], offset + n.value)
      else Tokens(x[1..], offset + 1)
  }

  lemma {:induction false} NoTokenWithoutDelimiter(a: string, b: string, offset: nat)
    requires Lacks(a, LEFT)
    ensures Tokens(a + b, offset) == Tokens(b, offset + |a|)
    decreases |a|
  {
    hide ParseToken;
    if a == "" {
      assert a + b == b;
    } else {
      assert (a + b)[0] == a[0] && (a + b)[1..] == a[1..] + b;
      assert TokenPrefix(a + b).None?;
      NoTokenWithoutDelimiter(a[1..], b, offset + 1);
    }
  }

  /** The source's loop: `finditer`, then `parse_token` on every hit. */
  method FindTokens(text: string) returns (matches: seq<TokenMatch>)
    ensures matches == Tokens(text, 0)
  {
    hide ParseToken, PatternPrefix;
    matches := [];
    var pos: nat := 0;
    assert text[0..] == text;
    while pos < |text|
      invariant pos <= |text|
      invariant Tokens(text, 0) == matches + Tokens(text[pos..], pos)
    {
      var x := text[pos..];
      var n := PatternPrefix(x);
      if n.None? {
        assert x[1..] == text[pos + 1..];
        pos := pos + 1;
      } else {
        var end := pos + n.value;
        assert x[..n.value] == text[pos..end] && x[n.value..] == text[end..];
        var token := ParseToken(text[pos..end]);
        if token.Some? {
          matches := matches + [TokenMatch(token.value, pos, end)];
        } else {
          RejectedHitHidesNothing(x, n.value, pos);
        }
        pos := end;
      }
    }
  }

  /** Skipping a hit that the parser rejects loses no token. */
  lemma RejectedHitHidesNothing(x: string, n: nat, offset: nat)
    requires PatternPrefix(x) == Some(n) && !IsToken(x[..n])
    ensures Tokens(x, offset) == Tokens(x[n..], offset + n)
  {
    hide ParseToken, PatternPrefix;
    PatternPrefixIff(x, n);
    var second, third :| InPattern(second, third) && x[..n] == Bracket(second, third);
    var inner := x[1..n];
    assert forall i :: 0 <= i < |inner| ==> inner[i] == x[..n][i + 1];
    assert x[1..] == inner + x[n..];
    NoTokenWithoutDelimiter(inner, x[n..], offset + 1);
  }

  /** Each match is where its token's text is, and matches come in order without overlapping. */
  ghost predicate OrderedMatches(matches: seq<TokenMatch>, x: string, offset: nat) {
    matches == [] ||
    (var m := matches[0];
     && offset <= m.start <= m.end <= offset + |x|
     && ParseToken(x[m.start - offset..m.end - offset]) == Some(m.token)
     && OrderedMatches(matches[1..], x[m.end - offset..], m.end))
  }

  lemma {:induction false} OrderedFurther(matches: seq<TokenMatch>, x: string, offset: nat)
    requires x != "" && OrderedMatches(matches, x[1..], offset + 1)
    ensures OrderedMatches(matches, x, offset)
  {
    if matches != [] {
      var m := matches[0];
      assert x[1..][m.start - offset - 1..m.end - offset - 1] == x[m.start - offset..m.end - offset];
      assert x[1..][m.end - offset - 1..] == x[m.end - offset..];
    }
  }

  lemma {:induction false} TokensOrdered(x: string, offset: nat)
    ensures OrderedMatches(Tokens(x, offset), x, offset)
    decreases |x|
  {
    hide ParseToken, PatternPrefix;
    if x != "" {
      var n := TokenPrefix(x);
      if n.Some? {
        TokensOrdered(x[n.value..], offset + n.value);
        assert Tokens(x, offset)[1..] == Tokens(x[n.value..], offset + n.value);
        assert x[0..n.value] == x[..n.value];
      } else {
        TokensOrdered(x[1..], offset + 1);
        OrderedFurther(Tokens(x, offset), x, offset);
      }
    }
  }

  ghost predicate IsListed(matches: seq<TokenMatch>, start: nat, end: nat) {
    exists i :: 0 <= i < |matches| && matches[i].start == start && matches[i].end == end
  }

  lemma ListedCons(first: TokenMatch, rest: seq<TokenMatch>, start: nat, end: nat)
    ensures IsListed([first] + rest, start, end)
       <==> (first.start == start && first.end == end) || IsListed(rest, start, end)
  {
    var all := [first] + rest;
    if IsListed(all, start, end) {
      var i :| 0 <= i < |all| && all[i].start == start && all[i].end == end;
      assert i == 0 || rest[i - 1] == all[i];
    }
    if first.start == start && first.end == end {
      assert all[0] == first;
    }
    if IsListed(rest, start, end) {
      var i :| 0 <= i < |rest| && rest[i].start == start && rest[i].end == end;
      assert all[i + 1] == rest[i];
    }
  }

  lemma NilListsNothing(start: nat, end: nat)
    ensures !IsListed([], start, end)
  {
  }

  /** No other token begins within the token that begins `x`. */
  lemma OnlyTokenAtHead(x: string, n: nat, start: nat, end: nat)
    requires TokenPrefix(x) == Some(n) && start < n && start <= end <= |x|
    ensures IsToken(x[start..end]) <==> start == 0 && end == n
  {
    hide TokenPrefix, ParseToken;
    TokenIsBracketed(x[..n]);
    assert x[..n][start] == x[start];
    assert start < end ==> x[start..end][0] == x[start];
    if IsToken(x[start..end]) {
      TokenIsBracketed(x[start..end]);
    }
    TokenPrefixIff(x, end);
    assert x[0..end] == x[..end];
  }

  /** Sound and complete: the scanner lists a range exactly when the parser accepts its text. */
  lemma {:induction false} ListedIffToken(x: string, offset: nat, start: nat, end: nat)
    requires start <= end <= |x|
    ensures IsListed(Tokens(x, offset), offset + start, offset + end) <==> IsToken(x[start..end])
    decreases |x|
  {
    hide TokenPrefix, ParseToken, IsListed;
    var n := TokenPrefix(x);
    if x == "" {
      NilListsNothing(offset + start, offset + end);
      TokenPrefixIff(x, 0);
    } else if n.Some? {
      var k := n.value;
      var rest := Tokens(x[k..], offset + k);
      ListedCons(TokenMatch(ParseToken(x[..k]).value, offset, offset + k), rest, offset + start, offset + end);
      if start >= k {
        ListedIffToken(x[k..], offset + k, start - k, end - k);
        assert x[k..][start - k..end - k] == x[start..end];
      } else {
        NothingListedBefore(x[k..], offset + k, offset + start, offset + end);
        OnlyTokenAtHead(x, k, start, end);
      }
    } else if start == 0 {
      NothingListedBefore(x[1..], offset + 1, offset + start, offset + end);
      TokenPrefixIff(x, end);
      assert x[0..end] == x[..end];
    } else {
      ListedIffToken(x[1..], offset + 1, start - 1, end - 1);
      assert x[1..][start - 1..end - 1] == x[start..end];
    }
  }

  lemma {:induction false} NothingListedBefore(x: string, offset: nat, start: nat, end: nat)
    requires start < offset
    ensures !IsListed(Tokens(x, offset), start, end)
    decreases |x|
  {
    hide TokenPrefix, ParseToken;
    if x != "" {
      var n := TokenPrefix(x);
      if n.Some? {
        var rest := Tokens(x[n.value..], offset + n.value);
        ListedCons(TokenMatch(ParseToken(x[..n.value]).value, offset, offset + n.value), rest, start, end);
        NothingListedBefore(x[n.value..], offset + n.value, start, end);
      } else {
        NothingListedBefore(x[1..], offset + 1, start, end);
      }
    }
  }

  // ---------------------------------------------------------------------------
  // Text around a bracketed piece
  // ---------------------------------------------------------------------------

  /** A token never reaches into or out of a bracketed piece: the token that begins `a + r + b`
      begins `a`, or there is none. */
  lemma TokenPrefixStaysInside(a: string, r: string, b: string)
    requires a != "" && IsBracketed(r)
    ensures TokenPrefix(a + r + b) == TokenPrefix(a)
  {
    hide TokenPrefix, ParseToken;
    var x := a + r + b;
    var n := TokenPrefix(x);
    if n.Some? {
      TokenIsBracketed(x[..n.value]);
      assert x[|a|] == LEFT;
      assert x[..n.value] == a[..n.value];
      TokenPrefixIff(a, n.value);
    } else if TokenPrefix(a).Some? {
      var m := TokenPrefix(a).value;
      assert x[..m] == a[..m];
      TokenPrefixIff(a, m);
      TokenPrefixIff(x, m);
    }
  }

  /** The token that begins `r + b` is `r` itself, or there is none. */
  lemma TokenPrefixOfBracketed(r: string, b: string)
    requires IsBracketed(r)
    ensures TokenPrefix(r + b) == if IsToken(r) then Some(|r|) else None
  {
    hide TokenPrefix, ParseToken;
    var x := r + b;
    var n := TokenPrefix(x);
    if n.Some? {
      TokenIsBracketed(x[..n.value]);
      assert x[|r| - 1] == RIGHT && x[n.value - 1] == RIGHT;
      assert n.value <= |r| ==> r[n.value - 1] == x[n.value - 1];
      assert n.value >= |r| ==> x[..n.value][|r| - 1] == RIGHT;
      assert x[..n.value] == r;
    } else if IsToken(r) {
      assert x[..|r|] == r;
      TokenPrefixIff(x, |r|);
    }
  }

  lemma TokensOfBracketed(r: string, b: string, offset: nat)
    requires IsBracketed(r)
    ensures Tokens(r + b, offset)
         == (if IsToken(r) then [TokenMatch(ParseToken(r).value, offset, offset + |r|)] else [])
          + Tokens(b, offset + |r|)
  {
    hide TokenPrefix, ParseToken;
    var x := r + b;
    TokenPrefixOfBracketed(r, b);
    assert x[..|r|] == r && x[|r|..] == b;
    if !IsToken(r) {
      var inner := r[1..];
      assert Lacks(inner, LEFT);
      assert x[1..] == inner + b;
      NoTokenWithoutDelimiter(inner, b, offset + 1);
    }
  }

  /** Scanning text around a bracketed piece finds the tokens on its left, the piece if it is a
      token, and the tokens on its right. */
  lemma {:induction false} TokensAround(a: string, r: string, b: string, offset: nat)
    requires IsBracketed(r)
    ensures Tokens(a + r + b, offset)
         == Tokens(a, offset) + Tokens(r, offset + |a|) + Tokens(b, offset + |a| + |r|)
    decreases |a|
  {
    hide TokenPrefix, ParseToken, IsBracketed;
    var x := a + r + b;
    if a == "" {
      assert x == r + b && r + "" == r;
      TokensOfBracketed(r, b, offset);
      TokensOfBracketed(r, "", offset);
    } else {
      TokenPrefixStaysInside(a, r, b);
      var n := TokenPrefix(a);
      var k := if n.Some? then n.value else 1;
      assert x[..k] == a[..k] && x[k..] == a[k..] + r + b;
      TokensAround(a[k..], r, b, offset + k);
    }
  }
}
