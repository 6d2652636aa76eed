/** What a whole request sends to the provider, message by message, and what comes back. */
module RequestLaws {
  import opened Wrappers
  import opened Domain
  import opened VaultKeys
  import opened RedisStore
  import opened VaultLaws
  import opened RedisVault
  import opened VaultBookkeeping
  import opened Splicing
  import opened Tokenizer
  import opened Restoration
  import opened Protection
  import opened Resolving
  import opened RoundTrip
  import opened Lossless
  import opened Framing
  import opened Pipeline
  import Selection
  import Grammar = TokenGrammar

  // ---------------------------------------------------------------------------
  // Every message is the protected text of its own
  // ---------------------------------------------------------------------------

  /** The store that message `i` finds: what protecting the messages before it left. */
  function Before(st: Store, s: Setting, parts: seq<Part>, i: nat): Store
    requires EnoughIds(parts) && i <= |parts|
  {
    if i == 0 then st else Outcome(CallOf(Before(st, s, parts, i - 1), s, parts[i - 1])).0
  }

  /** Protecting message `i`, as the request does it. */
  function MessageCall(st: Store, s: Setting, parts: seq<Part>, i: nat): Call
    requires EnoughIds(parts) && i < |parts|
  {
    CallOf(Before(st, s, parts, i), s, parts[i])
  }

  /** `m` is message `i` with its own protected text for content. */
  predicate IsProtected(st: Store, s: Setting, parts: seq<Part>, i: nat, m: ChatMessage)
    requires EnoughIds(parts) && i < |parts|
  {
    var (after, out) := Outcome(MessageCall(st, s, parts, i));
    out.Ok? && after == Before(st, s, parts, i + 1) && m.role == parts[i].message.role && m.content == out.value.text
  }

  lemma {:induction false} RestMessages(st: Store, s: Setting, parts: seq<Part>, k: nat, done: ProtectedRequest)
    requires EnoughIds(parts) && k <= |parts| && |done.messages| == k && EnoughIds(parts[k..])
    requires ProtectedFrom(Before(st, s, parts, k), s, done, parts[k..]).1.Ok?
    ensures var (after, r) := ProtectedFrom(Before(st, s, parts, k), s, done, parts[k..]);
            after == Before(st, s, parts, |parts|)
            && |r.value.messages| == |parts| && done.messages <= r.value.messages
            && forall i :: k <= i < |parts| ==> IsProtected(st, s, parts, i, r.value.messages[i])
    decreases |parts| - k
  {
    hide Outcome, MergedWith;
    var st' := Before(st, s, parts, k);
    if k < |parts| {
      var c := MessageCall(st, s, parts, k);
      var (after, one) := Outcome(c);
      assert parts[k..][0] == parts[k] && parts[k..][1..] == parts[k + 1..];
      var next := ProtectedRequest(done.messages + [ChatMessage(parts[k].message.role, one.value.text)],
                                   MergedWith(done.summary, one.value.summary));
      assert Before(st, s, parts, k + 1) == after;
      RestMessages(st, s, parts, k + 1, next);
      var r := ProtectedFrom(st', s, done, parts[k..]).1.value;
      assert r.messages[k] == next.messages[k];
    }
  }

  /** A request that goes out has one message for each that came in, in order, with its role and its own
      protected text, protected on the store that the messages before it left. */
  lemma RequestMessages(st: Store, s: Setting, parts: seq<Part>, r: ProtectedRequest)
    requires EnoughIds(parts) && Protected(st, s, parts).1 == Ok(r)
    ensures Protected(st, s, parts).0 == Before(st, s, parts, |parts|)
    ensures |r.messages| == |parts|
    ensures forall i :: 0 <= i < |parts| ==> IsProtected(st, s, parts, i, r.messages[i])
  {
    hide Verdict, IsProtected;
    assert parts[0..] == parts;
    RestMessages(st, s, parts, 0, ProtectedRequest([], NOTHING_FOUND));
  }

  /** The first message that cannot be protected, if any. */
  predicate FailsAt(st: Store, s: Setting, parts: seq<Part>, i: nat)
    requires EnoughIds(parts) && i < |parts|
  {
    Outcome(MessageCall(st, s, parts, i)).1.Err?
    && forall j :: 0 <= j < i ==> Outcome(MessageCall(st, s, parts, j)).1.Ok?
  }

  lemma {:induction false} RestFails(st: Store, s: Setting, parts: seq<Part>, k: nat, done: ProtectedRequest)
    returns (i: nat)
    requires EnoughIds(parts) && k <= |parts| && EnoughIds(parts[k..])
    requires forall j :: 0 <= j < k ==> Outcome(MessageCall(st, s, parts, j)).1.Ok?
    requires ProtectedFrom(Before(st, s, parts, k), s, done, parts[k..]).1.Err?
    ensures i < |parts| && FailsAt(st, s, parts, i)
    ensures ProtectedFrom(Before(st, s, parts, k), s, done, parts[k..])
         == (Before(st, s, parts, i + 1), Err(Outcome(MessageCall(st, s, parts, i)).1.error))
    decreases |parts| - k
  {
    hide Outcome, MergedWith;
    var c := MessageCall(st, s, parts, k);
    var (after, one) := Outcome(c);
    assert parts[k..][0] == parts[k] && parts[k..][1..] == parts[k + 1..];
    assert Before(st, s, parts, k + 1) == after;
    if one.Err? {
      i := k;
    } else {
      i := RestFails(st, s, parts, k + 1,
                     ProtectedRequest(done.messages + [ChatMessage(parts[k].message.role, one.value.text)],
                                      MergedWith(done.summary, one.value.summary)));
    }
  }

  /** A request that the guards pass and that still fails ends with the error of its first message that cannot
      be protected, and the vault holds what that message and those before it left. */
  lemma RequestFails(st: Store, s: Setting, parts: seq<Part>) returns (i: nat)
    requires EnoughIds(parts) && Verdict(parts, s.policy, s.deploymentMax).None? && Protected(st, s, parts).1.Err?
    ensures i < |parts| && FailsAt(st, s, parts, i)
    ensures Protected(st, s, parts)
         == (Before(st, s, parts, i + 1), Err(Outcome(MessageCall(st, s, parts, i)).1.error))
  {
    hide Verdict, FailsAt, Outcome;
    assert parts[0..] == parts;
    i := RestFails(st, s, parts, 0, ProtectedRequest([], NOTHING_FOUND));
  }

  lemma MessageSucceeds(st: Store, s: Setting, parts: seq<Part>, r: ProtectedRequest, i: nat)
    returns (out: TransformedText)
    requires EnoughIds(parts) && Protected(st, s, parts).1 == Ok(r) && i < |parts|
    ensures Succeeds(MessageCall(st, s, parts, i), Before(st, s, parts, i + 1), out)
    ensures i < |r.messages| && r.messages[i] == ChatMessage(parts[i].message.role, out.text)
  {
    hide Outcome, Protected;
    RequestMessages(st, s, parts, r);
    assert IsProtected(st, s, parts, i, r.messages[i]);
    out := Outcome(MessageCall(st, s, parts, i)).1.value;
  }

  /** What message `i` was made into. */
  function Made(st: Store, s: Setting, parts: seq<Part>, i: nat): TransformedText
    requires EnoughIds(parts) && i < |parts|
  {
    var out := Outcome(MessageCall(st, s, parts, i)).1;
    if out.Ok? then out.value else TransformedText("", [], NOTHING_FOUND)
  }

  /** In every message sent, the scanner finds the tokens that lay whole in an untouched piece and the minted
      ones, range by range, and nothing else. */
  lemma RequestScanned(st: Store, s: Setting, parts: seq<Part>, r: ProtectedRequest, i: nat)
    requires EnoughIds(parts) && Protected(st, s, parts).1 == Ok(r) && i < |parts|
    requires var c := MessageCall(st, s, parts, i); NoPseudonyms(Plan(c)) && PlanFits(Plan(c), |c.text|)
    ensures i < |r.messages|
    ensures var c := MessageCall(st, s, parts, i);
            var gaps := Untouched(c.text, Plan(c));
            var pieces := Pieces(Shape(Plan(c)), TokenIds(Made(st, s, parts, i).mappings));
            |gaps| == |pieces| + 1
            && Grammar.Tokens(r.messages[i].content, 0) == Scanned(gaps, pieces, 0)
            && TokensAmong(pieces) == TokenTexts(Made(st, s, parts, i).mappings)
  {
    hide Protected, Plan, NoPseudonyms, PlanFits, Untouched, Pieces, TokensAmong, Grammar.Tokens, Scanned, MessageCall;
    var out := MessageSucceeds(st, s, parts, r, i);
    ScannedTokens(MessageCall(st, s, parts, i), Before(st, s, parts, i + 1), out);
  }

  /** Two messages that differ in nothing but the values replaced. */
  ghost predicate SameButValues(a: Call, outA: TransformedText, b: Call, outB: TransformedText) {
    && NoPseudonyms(Plan(a)) && PlanFits(Plan(a), |a.text|) && NoPseudonyms(Plan(b)) && PlanFits(Plan(b), |b.text|)
    && Untouched(a.text, Plan(a)) == Untouched(b.text, Plan(b)) && Shape(Plan(a)) == Shape(Plan(b))
    && TokenIds(outA.mappings) == TokenIds(outB.mappings)
  }

  /** Requests whose messages differ in nothing but the values replaced send the same messages: no value
      shows in any of them, nor does its length. */
  lemma RequestNonInterference(stA: Store, sA: Setting, a: seq<Part>, rA: ProtectedRequest,
                               stB: Store, sB: Setting, b: seq<Part>, rB: ProtectedRequest)
    requires EnoughIds(a) && EnoughIds(b) && |a| == |b|
    requires Protected(stA, sA, a).1 == Ok(rA) && Protected(stB, sB, b).1 == Ok(rB)
    requires forall i :: 0 <= i < |a| ==>
               a[i].message.role == b[i].message.role
               && SameButValues(MessageCall(stA, sA, a, i), Made(stA, sA, a, i),
                                MessageCall(stB, sB, b, i), Made(stB, sB, b, i))
    ensures rA.messages == rB.messages
  {
    hide Protected, Plan, NoPseudonyms, PlanFits, Untouched, Shape, MessageCall;
    RequestMessages(stA, sA, a, rA);
    RequestMessages(stB, sB, b, rB);
    forall i | 0 <= i < |a|
      ensures rA.messages[i] == rB.messages[i]
    {
      var outA := MessageSucceeds(stA, sA, a, rA, i);
      var outB := MessageSucceeds(stB, sB, b, rB, i);
      assert SameButValues(MessageCall(stA, sA, a, i), Made(stA, sA, a, i),
                           MessageCall(stB, sB, b, i), Made(stB, sB, b, i));
      NonInterference(MessageCall(stA, sA, a, i), Before(stA, sA, a, i + 1), outA,
                      MessageCall(stB, sB, b, i), Before(stB, sB, b, i + 1), outB);
    }
  }

  // ---------------------------------------------------------------------------
  // What the guards refuse
  // ---------------------------------------------------------------------------

  /** How many spans are selected in the first `n` messages. */
  function SelectedIn(parts: seq<Part>, policy: Policy, n: nat): nat
    requires n <= |parts|
  {
    if n == 0 then 0
    else
      var selected := Selection.Selected(parts[n - 1].message.content, parts[n - 1].entities, policy);
      SelectedIn(parts, policy, n - 1) + if selected.Ok? then |selected.value| else 0
  }

  predicate OutOfText(p: Part) {
    exists k :: 0 <= k < |p.entities| && p.entities[k].end > |p.message.content|
  }

  predicate SelectsBlocked(p: Part, policy: Policy) {
    var selected := Selection.Selected(p.message.content, p.entities, policy);
    selected.Ok? && exists j :: 0 <= j < |selected.value| && policy.actionFor(selected.value[j].entityType) == Block
  }

  lemma {:induction false} SelectedInIsCount(parts: seq<Part>, policy: Policy, n: nat)
    requires n <= |parts|
    ensures Count(SelectionsOf(parts, policy)[..n]) == SelectedIn(parts, policy, n)
  {
    hide Selection.Selected;
    if n > 0 {
      SelectedInIsCount(parts, policy, n - 1);
      assert SelectionsOf(parts, policy)[..n][..n - 1] == SelectionsOf(parts, policy)[..n - 1];
    }
  }

  lemma BlockedHere(policy: Policy, selected: seq<Entity>)
    ensures AnyBlocked(policy, [selected]) <==>
            exists j :: 0 <= j < |selected| && policy.actionFor(selected[j].entityType) == Block
  {
    if j :| 0 <= j < |selected| && policy.actionFor(selected[j].entityType) == Block {
      assert policy.actionFor([selected][0][j].entityType) == Block;
    }
  }

  lemma BlockedSomewhere(policy: Policy, selections: seq<seq<Entity>>)
    ensures AnyBlocked(policy, selections) <==>
            exists i :: 0 <= i < |selections| && AnyBlocked(policy, [selections[i]])
  {
    if AnyBlocked(policy, selections) {
      var i, j :| 0 <= i < |selections| && 0 <= j < |selections[i]|
                  && policy.actionFor(selections[i][j].entityType) == Block;
      BlockedHere(policy, selections[i]);
    }
    if i :| 0 <= i < |selections| && AnyBlocked(policy, [selections[i]]) {
      BlockedHere(policy, selections[i]);
    }
  }

  /** The guards' verdict: a span outside its message, else more spans over all messages than the policy or
      the deployment allows, else a selected span of a blocked type. */
  lemma VerdictExact(parts: seq<Part>, policy: Policy, deploymentMax: int)
    ensures Verdict(parts, policy, deploymentMax) ==
            if exists i :: 0 <= i < |parts| && OutOfText(parts[i]) then Some(InvalidRequest)
            else if SelectedIn(parts, policy, |parts|) > policy.maxEntities
                    || SelectedIn(parts, policy, |parts|) > deploymentMax then Some(EntityLimitExceeded)
            else if exists i :: 0 <= i < |parts| && SelectsBlocked(parts[i], policy) then Some(PolicyViolation)
            else None
  {
    hide Selection.Sweep, Selection.Confident, Count;
    SelectedInIsCount(parts, policy, |parts|);
    var selections := SelectionsOf(parts, policy);
    assert selections[..|parts|] == selections;
    forall i | 0 <= i < |parts|
      ensures OutOfText(parts[i]) <==> !Selection.InBounds(parts[i].message.content, parts[i].entities)
      ensures SelectsBlocked(parts[i], policy) <==> AnyBlocked(policy, [selections[i]])
    {
      BlockedHere(policy, selections[i]);
    }
    BlockedSomewhere(policy, selections);
  }

  // ---------------------------------------------------------------------------
  // The counts of the whole request
  // ---------------------------------------------------------------------------

  function PlanFor(s: Setting, p: Part): seq<Planned> {
    var selected := Selection.Selected(p.message.content, p.entities, s.policy);
    if selected.Ok? then PlanOf(selected.value, s.policy) else []
  }

  /** How many spans of the first `n` messages have one action, and how many one type. */
  function ActedIn(s: Setting, parts: seq<Part>, n: nat, action: EntityAction): nat
    requires n <= |parts|
  {
    if n == 0 then 0 else ActedIn(s, parts, n - 1, action) + |Acted(PlanFor(s, parts[n - 1]), action)|
  }

  function OfTypeIn(s: Setting, parts: seq<Part>, n: nat, t: string): nat
    requires n <= |parts|
  {
    if n == 0 then 0 else OfTypeIn(s, parts, n - 1, t) + |OfType(PlanFor(s, parts[n - 1]), t)|
  }

  ghost predicate Tallies(s: Setting, parts: seq<Part>, n: nat, summary: PrivacySummary)
    requires n <= |parts|
  {
    && summary.tokenized == ActedIn(s, parts, n, Tokenize) && summary.redacted == ActedIn(s, parts, n, Redact)
    && summary.pseudonymized == ActedIn(s, parts, n, Pseudonymize) && summary.allowed == ActedIn(s, parts, n, Allow)
    && forall t :: CountFor(summary.entityTypes, t) == OfTypeIn(s, parts, n, t)
  }

  lemma OneTallied(s: Setting, parts: seq<Part>, n: nat, done: PrivacySummary, c: Call, after: Store,
                   out: TransformedText)
    requires n < |parts| && Tallies(s, parts, n, done) && Succeeds(c, after, out)
    requires Plan(c) == PlanFor(s, parts[n])
    ensures Tallies(s, parts, n + 1, MergedWith(done, out.summary))
  {
    hide Plan, PlanFor, Minted, HasBlock, PlanFits, CutsFrom, Splice, MappingsFrom, SummaryOf, Acted, OfType, Succeeds;
    var mappings := Decompose(c, after, out);
    var plan := Plan(c);
    assert out.summary == SummaryOf(plan);
    SummaryConserves(plan);
    var merged := MergedWith(done, out.summary);
    forall t
      ensures CountFor(merged.entityTypes, t) == CountFor(done.entityTypes, t) + |OfType(plan, t)|
    {
      MergedFor(done.entityTypes, out.summary.entityTypes, t);
    }
  }

  lemma MergedFor(a: map<string, nat>, b: map<string, nat>, t: string)
    ensures CountFor(MergedTypes(a, b), t) == CountFor(a, t) + CountFor(b, t)
  {
  }

  lemma {:induction false} RestTallied(st: Store, s: Setting, parts: seq<Part>, k: nat, done: ProtectedRequest)
    requires EnoughIds(parts) && k <= |parts| && EnoughIds(parts[k..])
    requires ProtectedFrom(Before(st, s, parts, k), s, done, parts[k..]).1.Ok? && Tallies(s, parts, k, done.summary)
    ensures Tallies(s, parts, |parts|, ProtectedFrom(Before(st, s, parts, k), s, done, parts[k..]).1.value.summary)
    decreases |parts| - k
  {
    hide Outcome, MergedWith, Tallies, Selection.Selected;
    if k < |parts| {
      var c := MessageCall(st, s, parts, k);
      var (after, one) := Outcome(c);
      assert parts[k..][0] == parts[k] && parts[k..][1..] == parts[k + 1..];
      OneTallied(s, parts, k, done.summary, c, after, one.value);
      RestTallied(st, s, parts, k + 1,
                  ProtectedRequest(done.messages + [ChatMessage(parts[k].message.role, one.value.text)],
                                   MergedWith(done.summary, one.value.summary)));
    }
  }

  /** The counts of a request are, action by action and type by type, those of the spans of all its
      messages. */
  lemma RequestTallied(st: Store, s: Setting, parts: seq<Part>, r: ProtectedRequest)
    requires EnoughIds(parts) && Protected(st, s, parts).1 == Ok(r)
    ensures Tallies(s, parts, |parts|, r.summary)
  {
    hide Verdict;
    assert parts[0..] == parts;
    RestTallied(st, s, parts, 0, ProtectedRequest([], NOTHING_FOUND));
  }

  // ---------------------------------------------------------------------------
  // A request is a run of vault operations
  // ---------------------------------------------------------------------------

  /** What protecting message `i` and the later ones does to the vault. */
  function OpsFrom(st: Store, s: Setting, parts: seq<Part>, i: nat): seq<VaultOp>
    requires EnoughIds(parts) && i <= |parts|
    decreases |parts| - i
  {
    if i == |parts| then []
    else
      var c := MessageCall(st, s, parts, i);
      [Wait(parts[i].now)]
      + (if Asked(c) == [] || |Asked(c)| > |c.ids| then []
         else [WriteBatch(s.scope, s.policy.sessionTtlSeconds, Candidates(s.scope, s.digest, Unique(Asked(c)), c.ids))])
      + OpsFrom(st, s, parts, i + 1)
  }

  /** Messages are protected one after another. */
  ghost predicate InTime(parts: seq<Part>) {
    forall i, j :: 0 <= i < j < |parts| ==> parts[i].now <= parts[j].now
  }

  lemma {:induction false} RunConcat(st: Store, now: int, a: seq<VaultOp>, b: seq<VaultOp>)
    ensures Run(st, now, a + b) == Run(Run(st, now, a).0, Run(st, now, a).1, b)
    ensures LegalRun(st, now, a) && LegalRun(Run(st, now, a).0, Run(st, now, a).1, b) ==> LegalRun(st, now, a + b)
    decreases |a|
  {
    hide Apply, LegalOp;
    if a == [] {
      assert a + b == b;
    } else {
      assert (a + b)[0] == a[0] && (a + b)[1..] == a[1..] + b;
      var (st', now') := Apply(st, now, a[0]);
      RunConcat(st', now', a[1..], b);
    }
  }

  lemma {:induction false} UndisturbedConcat(st: Store, now: int, a: seq<VaultOp>, b: seq<VaultOp>, scope: Scope,
                                             until: int)
    requires Undisturbed(now, a, scope, until) && Undisturbed(Run(st, now, a).1, b, scope, until)
    ensures Undisturbed(now, a + b, scope, until)
    decreases |a|
  {
    hide Script, Deleted;
    if a == [] {
      assert a + b == b;
    } else {
      assert (a + b)[0] == a[0] && (a + b)[1..] == a[1..] + b;
      var (st', now') := Apply(st, now, a[0]);
      UndisturbedConcat(st', now', a[1..], b, scope, until);
    }
  }

  /** The ids of the messages still to come are unused in the store they find. */
  lemma {:induction false} FreshBefore(st: Store, s: Setting, parts: seq<Part>, i: nat, j: nat)
    requires EnoughIds(parts) && i <= j < |parts|
    requires Consistent(st) && IsDigester(s.digest) && AllFresh(st, s.scope, parts)
    ensures Consistent(Before(st, s, parts, i)) && Fresh(Before(st, s, parts, i), s.scope, parts[j].ids)
  {
    hide Consistent, IsDigester, Fresh, Outcome, Apart;
    if i > 0 {
      FreshBefore(st, s, parts, i - 1, i - 1);
      FreshBefore(st, s, parts, i - 1, j);
      OutcomeKeepsFresh(CallOf(Before(st, s, parts, i - 1), s, parts[i - 1]), parts[j].ids);
    }
  }

  /** One message: a legal run of at most one write that ends where the message left the store. */
  lemma MessageIsRun(c: Call, after: Store, out: TransformedText, t: int)
    requires Succeeds(c, after, out) && t <= c.now
    requires IsDigester(c.digest) && Fresh(c.store, c.scope, c.ids)
    ensures var write := if Asked(c) == [] || |Asked(c)| > |c.ids| then []
                         else [WriteBatch(c.scope, c.policy.sessionTtlSeconds,
                                          Candidates(c.scope, c.digest, Unique(Asked(c)), c.ids))];
            var ops := [Wait(c.now)] + write;
            LegalRun(c.store, t, ops) && Run(c.store, t, ops) == (after, c.now)
            && forall until :: until <= c.now + c.policy.sessionTtlSeconds ==> Undisturbed(t, ops, c.scope, until)
  {
    hide Plan, Spliced, HasBlock, PlanFits, Requests, Fold, AllCoerce, Mappings, IsDigester, Fresh, LegalBatch, Unique,
         Candidates, ExpireMeta, WellFormedReplies, RedisVault.Tokens, Grammar.IsValidEntityType, Asked;
    var mappings := Decompose(c, after, out);
    var ttl := c.policy.sessionTtlSeconds;
    if Asked(c) == [] {
      assert [Wait(c.now)][1..] == [];
    } else {
      var batch := WriteBatch(c.scope, ttl, Candidates(c.scope, c.digest, Unique(Asked(c)), c.ids));
      FreshBatchIsLegal(c.store, c.scope, c.digest, Asked(c), ttl, c.ids);
      var ops := [Wait(c.now)] + [batch];
      assert ops[1..] == [batch] && ops[1..][1..] == [];
      assert Run(c.store, c.now, [batch]) == Run(Apply(c.store, c.now, batch).0, c.now, []);
      assert LegalRun(c.store, c.now, [batch]);
      forall until | until <= c.now + ttl
        ensures Undisturbed(t, ops, c.scope, until)
      {
        assert Undisturbed(c.now, [], c.scope, until) && [batch][1..] == [];
        assert Undisturbed(c.now, [batch], c.scope, until);
      }
    }
  }

  lemma {:induction false} RestIsRun(st: Store, s: Setting, parts: seq<Part>, r: ProtectedRequest, i: nat, t: int,
                                     until: int)
    requires EnoughIds(parts) && i <= |parts| && Protected(st, s, parts).1 == Ok(r)
    requires Consistent(st) && IsDigester(s.digest) && AllFresh(st, s.scope, parts) && InTime(parts)
    requires i < |parts| ==> t <= parts[i].now && until <= parts[i].now + s.policy.sessionTtlSeconds
    ensures var ops := OpsFrom(st, s, parts, i);
            LegalRun(Before(st, s, parts, i), t, ops)
            && Run(Before(st, s, parts, i), t, ops)
            == (Before(st, s, parts, |parts|), if i < |parts| then parts[|parts| - 1].now else t)
            && Undisturbed(t, ops, s.scope, until)
    decreases |parts| - i
  {
    hide Consistent, IsDigester, AllFresh, Protected, Run, LegalRun, Undisturbed, Fresh, Asked, Candidates, Unique,
         Before, MessageCall;
    if i == |parts| {
      NothingRuns(Before(st, s, parts, i), t, s.scope, until);
    } else {
      var c := MessageCall(st, s, parts, i);
      CallIs(st, s, parts, i);
      var out := MessageSucceeds(st, s, parts, r, i);
      var after := Before(st, s, parts, i + 1);
      FreshBefore(st, s, parts, i, i);
      MessageIsRun(c, after, out, t);
      RestIsRun(st, s, parts, r, i + 1, parts[i].now, until);
      var write := if Asked(c) == [] || |Asked(c)| > |c.ids| then []
                   else [WriteBatch(s.scope, s.policy.sessionTtlSeconds,
                                    Candidates(s.scope, s.digest, Unique(Asked(c)), c.ids))];
      var own, rest := [Wait(parts[i].now)] + write, OpsFrom(st, s, parts, i + 1);
      assert OpsFrom(st, s, parts, i) == own + rest;
      RunConcat(Before(st, s, parts, i), t, own, rest);
      UndisturbedConcat(Before(st, s, parts, i), t, own, rest, s.scope, until);
    }
  }

  lemma CallIs(st: Store, s: Setting, parts: seq<Part>, i: nat)
    requires EnoughIds(parts) && i < |parts|
    ensures var c := MessageCall(st, s, parts, i);
            c.store == Before(st, s, parts, i) && c.scope == s.scope && c.digest == s.digest && c.now == parts[i].now
            && c.text == parts[i].message.content && c.ids == parts[i].ids && c.policy == s.policy && c.fp == s.fp
  {
  }

  lemma NothingRuns(st: Store, t: int, scope: Scope, until: int)
    ensures LegalRun(st, t, []) && Run(st, t, []) == (st, t) && Undisturbed(t, [], scope, until)
  {
  }

  // ---------------------------------------------------------------------------
  // Every message comes back
  // ---------------------------------------------------------------------------

  /** When the request ends. */
  function EndOf(parts: seq<Part>): int
    requires parts != []
  {
    parts[|parts| - 1].now
  }

  lemma RestOfRequest(st: Store, s: Setting, parts: seq<Part>, r: ProtectedRequest, i: nat, ops: seq<VaultOp>)
    requires EnoughIds(parts) && i < |parts| && Protected(st, s, parts).1 == Ok(r)
    requires Consistent(st) && IsDigester(s.digest) && AllFresh(st, s.scope, parts) && InTime(parts)
    requires LegalRun(Protected(st, s, parts).0, EndOf(parts), ops)
    requires Undisturbed(EndOf(parts), ops, s.scope, parts[i].now + s.policy.sessionTtlSeconds)
    ensures var all := OpsFrom(st, s, parts, i + 1) + ops;
            var from := Before(st, s, parts, i + 1);
            LegalRun(from, parts[i].now, all)
            && Run(from, parts[i].now, all) == Run(Protected(st, s, parts).0, EndOf(parts), ops)
            && Undisturbed(parts[i].now, all, s.scope, parts[i].now + s.policy.sessionTtlSeconds)
  {
    hide Consistent, IsDigester, AllFresh, Protected, Run, LegalRun, Undisturbed, Before;
    var until := parts[i].now + s.policy.sessionTtlSeconds;
    RequestMessages(st, s, parts, r);
    RestIsRun(st, s, parts, r, i + 1, parts[i].now, until);
    RunConcat(Before(st, s, parts, i + 1), parts[i].now, OpsFrom(st, s, parts, i + 1), ops);
    UndisturbedConcat(Before(st, s, parts, i + 1), parts[i].now, OpsFrom(st, s, parts, i + 1), ops, s.scope, until);
  }

  /** Any message of a request, sent back within a TTL of its own protection, restores to its own text with
      each tokenised span holding the first value its session stored for that identity, whatever the other
      messages of the request and any other callers do meanwhile. */
  lemma RequestRestores(st: Store, s: Setting, parts: seq<Part>, r: ProtectedRequest, i: nat, ops: seq<VaultOp>,
                        limit: nat, isBlank: string -> bool, model: string, action: UnknownTokenAction)
    requires EnoughIds(parts) && i < |parts| && Protected(st, s, parts).1 == Ok(r)
    requires Consistent(st) && IsDigester(s.digest) && AllFresh(st, s.scope, parts) && InTime(parts)
    requires LegalRun(Protected(st, s, parts).0, EndOf(parts), ops)
    requires Undisturbed(EndOf(parts), ops, s.scope, parts[i].now + s.policy.sessionTtlSeconds)
    requires Run(Protected(st, s, parts).0, EndOf(parts), ops).1 < parts[i].now + s.policy.sessionTtlSeconds
    requires i < |r.messages| && |r.messages[i].content| <= limit && !isBlank(model)
    requires var c := MessageCall(st, s, parts, i);
             var (now, later) := Run(Protected(st, s, parts).0, EndOf(parts), ops);
             NoPseudonyms(Plan(c)) && PlanFits(Plan(c), |c.text|)
             && AllQuiet(now, s.scope, later, action, Untouched(c.text, Plan(c)))
    ensures var c := MessageCall(st, s, parts, i);
            var (now, later) := Run(Protected(st, s, parts).0, EndOf(parts), ops);
            var back := Restored(now, s.scope, later, limit, isBlank,
                                 ProviderResponse(r.messages[i].content, model), action);
            back.Ok? && back.value.text == Returned(c) && back.value.model == model
            && (TokensOnly(c) && OneValuePerKey(c) ==> back.value.text == parts[i].message.content)
  {
    hide Consistent, IsDigester, AllFresh, Fresh, Protected, Run, LegalRun, Undisturbed, Plan, NoPseudonyms, PlanFits,
         AllQuiet, Untouched, Returned, Restored, TokensOnly, OneValuePerKey, Before, MessageCall, Succeeds;
    var c := MessageCall(st, s, parts, i);
    CallIs(st, s, parts, i);
    var out := MessageSucceeds(st, s, parts, r, i);
    FreshBefore(st, s, parts, i, i);
    RestOfRequest(st, s, parts, r, i, ops);
    ProtectThenRestore(c, Before(st, s, parts, i + 1), out, OpsFrom(st, s, parts, i + 1) + ops, limit, isBlank, model,
                       action);
    if TokensOnly(c) && OneValuePerKey(c) {
      ReturnedIsOriginal(c);
    }
  }

  // ---------------------------------------------------------------------------
  // One value per key over the whole request
  // ---------------------------------------------------------------------------

  /** What message `i` asks the vault to hold. It does not depend on the store. */
  function AskedOf(s: Setting, p: Part): seq<VaultWriteRequest> {
    var selected := Selection.Selected(p.message.content, p.entities, s.policy);
    Requests(s.fp, s.scope, p.message.content, if selected.Ok? then PlanOf(selected.value, s.policy) else [])
  }

  ghost predicate Agree(s: Setting, a: VaultWriteRequest, b: VaultWriteRequest) {
    KeyOf(s.scope, s.digest, a) == KeyOf(s.scope, s.digest, b) ==> a.originalValue == b.originalValue
  }

  /** Over all its messages together, requests that name one key have one value, and a value the session
      already held under such a key is the same one. */
  ghost predicate OneValueInAll(st: Store, s: Setting, parts: seq<Part>) {
    && (forall i, j, a, b |
          0 <= i < |parts| && 0 <= j < |parts| && a in AskedOf(s, parts[i]) && b in AskedOf(s, parts[j]) ::
          Agree(s, a, b))
    && (forall i, a | 0 <= i < |parts| && a in AskedOf(s, parts[i]) ::
          parts != [] && HeldAgrees(st, s, parts[0].now, a))
  }

  /** What is held under the key of `a`, if anything, is its value. */
  predicate HeldAgrees(st: Store, s: Setting, now: int, a: VaultWriteRequest) {
    var held := StoredValue(st, KeyOf(s.scope, s.digest, a), now);
    held.Some? ==> held.value == a.originalValue
  }

  lemma LaterHeld(st: Store, k: IndexName, now: int, later: int)
    requires now <= later && StoredValue(st, k, later).Some?
    ensures StoredValue(st, k, now) == StoredValue(st, k, later)
  {
  }

  lemma {:induction false} FirstIsAsked(scope: Scope, digest: Digester, entries: seq<VaultWriteRequest>, k: IndexName)
    requires FirstOriginal(scope, digest, entries, k).Some?
    ensures exists b :: b in entries && KeyOf(scope, digest, b) == k
                        && b.originalValue == FirstOriginal(scope, digest, entries, k).value
  {
    var i := FirstOriginalIsOne(scope, digest, entries, k);
    assert entries[i] in entries;
  }

  /** Protecting a message whose requests agree with `a` keeps what is held under its key in agreement. */
  lemma MessageKeepsHeld(c: Call, after: Store, out: TransformedText, s: Setting, a: VaultWriteRequest)
    requires Succeeds(c, after, out) && c.scope == s.scope && c.digest == s.digest
    requires IsDigester(c.digest) && Fresh(c.store, c.scope, c.ids)
    requires HeldAgrees(c.store, s, c.now, a) && forall b :: b in Asked(c) ==> Agree(s, b, a)
    ensures HeldAgrees(after, s, c.now, a)
  {
    hide Plan, Spliced, HasBlock, PlanFits, Requests, AllCoerce, Mappings, IsDigester, Fresh, StoredValue, Written,
         FirstOriginal, KeyOf, Asked;
    var mappings := Decompose(c, after, out);
    if Asked(c) != [] {
      var k := KeyOf(s.scope, s.digest, a);
      WrittenStores(c.store, c.scope, c.digest, c.now, Asked(c), c.policy.sessionTtlSeconds, c.ids, k);
      if FirstOriginal(c.scope, c.digest, Asked(c), k).Some? {
        FirstIsAsked(c.scope, c.digest, Asked(c), k);
      }
    }
  }

  lemma AskedIs(st: Store, s: Setting, parts: seq<Part>, i: nat)
    requires EnoughIds(parts) && i < |parts|
    ensures Asked(MessageCall(st, s, parts, i)) == AskedOf(s, parts[i])
  {
    hide Requests, Selection.Selected, Before;
  }

  lemma HeldLater(st: Store, s: Setting, now: int, later: int, a: VaultWriteRequest)
    requires HeldAgrees(st, s, now, a) && now <= later
    ensures HeldAgrees(st, s, later, a)
  {
    hide StoredValue, KeyOf;
    var k := KeyOf(s.scope, s.digest, a);
    if StoredValue(st, k, later).Some? {
      LaterHeld(st, k, now, later);
    }
  }

  lemma HeldAfter(st: Store, s: Setting, parts: seq<Part>, r: ProtectedRequest, i: nat, a: VaultWriteRequest)
    requires EnoughIds(parts) && i < |parts| && Protected(st, s, parts).1 == Ok(r)
    requires Consistent(st) && IsDigester(s.digest) && AllFresh(st, s.scope, parts)
    requires HeldAgrees(Before(st, s, parts, i), s, parts[i].now, a)
    requires forall b :: b in AskedOf(s, parts[i]) ==> Agree(s, b, a)
    ensures HeldAgrees(Before(st, s, parts, i + 1), s, parts[i].now, a)
  {
    hide Consistent, IsDigester, AllFresh, Fresh, Protected, AskedOf, Agree, MessageCall, HeldAgrees, Succeeds, Before;
    var c := MessageCall(st, s, parts, i);
    CallIs(st, s, parts, i);
    AskedIs(st, s, parts, i);
    var out := MessageSucceeds(st, s, parts, r, i);
    FreshBefore(st, s, parts, i, i);
    MessageKeepsHeld(c, Before(st, s, parts, i + 1), out, s, a);
  }

  lemma {:induction false} HeldBefore(st: Store, s: Setting, parts: seq<Part>, r: ProtectedRequest, i: nat,
                                      a: VaultWriteRequest)
    requires EnoughIds(parts) && i < |parts| && Protected(st, s, parts).1 == Ok(r)
    requires Consistent(st) && IsDigester(s.digest) && AllFresh(st, s.scope, parts) && InTime(parts)
    requires HeldAgrees(st, s, parts[0].now, a)
    requires forall j, b | 0 <= j < |parts| && b in AskedOf(s, parts[j]) :: Agree(s, b, a)
    ensures HeldAgrees(Before(st, s, parts, i), s, parts[i].now, a)
  {
    hide Consistent, IsDigester, AllFresh, Protected, AskedOf, Agree, HeldAgrees, Outcome;
    if i > 0 {
      HeldBefore(st, s, parts, r, i - 1, a);
      HeldAfter(st, s, parts, r, i - 1, a);
      HeldLater(Before(st, s, parts, i), s, parts[i - 1].now, parts[i].now, a);
    }
  }

  /** A condition on the request as a whole: then every one of its messages meets the one that brings it
      back character for character. */
  lemma OneValueEach(st: Store, s: Setting, parts: seq<Part>, r: ProtectedRequest, i: nat)
    requires EnoughIds(parts) && i < |parts| && Protected(st, s, parts).1 == Ok(r)
    requires Consistent(st) && IsDigester(s.digest) && AllFresh(st, s.scope, parts) && InTime(parts)
    requires OneValueInAll(st, s, parts)
    ensures OneValuePerKey(MessageCall(st, s, parts, i))
  {
    hide Consistent, IsDigester, AllFresh, Protected, StoredValue, AskedOf, KeyOf, MessageCall;
    var c := MessageCall(st, s, parts, i);
    CallIs(st, s, parts, i);
    AskedIs(st, s, parts, i);
    var asked := Asked(c);
    forall k | 0 <= k < |asked| && StoredValue(c.store, KeyOf(c.scope, c.digest, asked[k]), c.now).Some?
      ensures StoredValue(c.store, KeyOf(c.scope, c.digest, asked[k]), c.now).value == asked[k].originalValue
    {
      var a := asked[k];
      assert a in AskedOf(s, parts[i]);
      HeldBefore(st, s, parts, r, i, a);
    }
    forall j, k | 0 <= j < |asked| && 0 <= k < |asked|
                  && KeyOf(c.scope, c.digest, asked[j]) == KeyOf(c.scope, c.digest, asked[k])
      ensures asked[j].originalValue == asked[k].originalValue
    {
      assert asked[j] in AskedOf(s, parts[i]) && asked[k] in AskedOf(s, parts[i]);
      assert Agree(s, asked[j], asked[k]);
    }
  }
}
