/** The detector's overlap resolution: greedy under a total order, and what makes its result the
    only one possible. */
module Overlap {
  import opened Wrappers
  import opened Domain
  import opened Ordering

  type Priority = map<string, int>

  const SEVERITY_UNKNOWN := 0

  function Severity(priority: Priority, e: Entity): int {
    if e.entityType in priority then priority[e.entityType] else SEVERITY_UNKNOWN
  }

  /** `recognizer or ""` */
  function RecognizerName(e: Entity): string {
    if e.recognizer.Some? then e.recognizer.value else ""
  }

  predicate NameLeq(a: Entity, b: Entity) {
    if a.entityType != b.entityType then StringLeq(a.entityType, b.entityType)
    else StringLeq(RecognizerName(a), RecognizerName(b))
  }

  /** `a` sorts no later than `b`: higher severity, then confidence, then length, then earlier
      start, then smaller type and recognizer name. */
  predicate DominanceLeq(priority: Priority, a: Entity, b: Entity) {
    var sa, sb := Severity(priority, a), Severity(priority, b);
    var la, lb := a.end - a.start, b.end - b.start;
    sa > sb || (sa == sb &&
      (a.score > b.score || (a.score == b.score &&
        (la > lb || (la == lb &&
          (a.start < b.start || (a.start == b.start && NameLeq(a, b))))))))
  }

  /** Equal in every field, except that no recognizer and an empty recognizer name are one. */
  predicate SameKey(a: Entity, b: Entity) {
    && a.entityType == b.entityType && a.start == b.start && a.end == b.end && a.score == b.score
    && RecognizerName(a) == RecognizerName(b)
  }

  function Dominance(priority: Priority): (Entity, Entity) -> bool {
    (a: Entity, b: Entity) => DominanceLeq(priority, a, b)
  }

  lemma NameLeqOrder(a: Entity, b: Entity, c: Entity)
    ensures NameLeq(a, b) || NameLeq(b, a)
    ensures NameLeq(a, b) && NameLeq(b, c) ==> NameLeq(a, c)
    ensures NameLeq(a, b) && NameLeq(b, a) <==>
            a.entityType == b.entityType && RecognizerName(a) == RecognizerName(b)
  {
    var ra, rb, rc := RecognizerName(a), RecognizerName(b), RecognizerName(c);
    StringLeqTotal(a.entityType, b.entityType);
    StringLeqTotal(ra, rb);
    if StringLeq(a.entityType, b.entityType) && StringLeq(b.entityType, c.entityType) {
      StringLeqTransitive(a.entityType, b.entityType, c.entityType);
      if c.entityType == a.entityType {
        StringLeqAntisymmetric(a.entityType, b.entityType);
      }
    }
    if StringLeq(a.entityType, b.entityType) && StringLeq(b.entityType, a.entityType) {
      StringLeqAntisymmetric(a.entityType, b.entityType);
    }
    if StringLeq(ra, rb) && StringLeq(rb, ra) {
      StringLeqAntisymmetric(ra, rb);
    }
    if StringLeq(ra, rb) && StringLeq(rb, rc) {
      StringLeqTransitive(ra, rb, rc);
    }
  }

  lemma DominanceOrder(priority: Priority, a: Entity, b: Entity, c: Entity)
    ensures DominanceLeq(priority, a, b) || DominanceLeq(priority, b, a)
    ensures DominanceLeq(priority, a, b) && DominanceLeq(priority, b, c) ==> DominanceLeq(priority, a, c)
    ensures DominanceLeq(priority, a, b) && DominanceLeq(priority, b, a) <==> SameKey(a, b)
  {
    hide NameLeq, RecognizerName;
    NameLeqOrder(a, b, c);
  }

  lemma DominanceIsTotal(priority: Priority)
    ensures TotalPreorder(Dominance(priority))
  {
    hide DominanceLeq;
    forall a: Entity, b: Entity
      ensures Dominance(priority)(a, b) || Dominance(priority)(b, a)
    {
      DominanceOrder(priority, a, b, a);
    }
    forall a: Entity, b: Entity, c: Entity | Dominance(priority)(a, b) && Dominance(priority)(b, c)
      ensures Dominance(priority)(a, c)
    {
      DominanceOrder(priority, a, b, c);
    }
  }

  /** The key `(start, end, entity_type)` of the returned order. */
  predicate PositionLeq(a: Entity, b: Entity) {
    a.start < b.start || (a.start == b.start &&
      (a.end < b.end || (a.end == b.end && StringLeq(a.entityType, b.entityType))))
  }

  lemma PositionIsTotal()
    ensures TotalPreorder(PositionLeq)
  {
    forall a: Entity, b: Entity
      ensures PositionLeq(a, b) || PositionLeq(b, a)
    {
      StringLeqTotal(a.entityType, b.entityType);
    }
    forall a: Entity, b: Entity, c: Entity | PositionLeq(a, b) && PositionLeq(b, c)
      ensures PositionLeq(a, c)
    {
      if StringLeq(a.entityType, b.entityType) && StringLeq(b.entityType, c.entityType) {
        StringLeqTransitive(a.entityType, b.entityType, c.entityType);
      }
    }
  }

  predicate OverlapsAny(e: Entity, kept: seq<Entity>) {
    exists i :: 0 <= i < |kept| && Overlaps(e, kept[i])
  }

  /** Walk `ordered` best-first, keeping what overlaps nothing kept before it. */
  function Greedy(ordered: seq<Entity>, kept: seq<Entity>): seq<Entity> {
    if ordered == [] then kept
    else Greedy(ordered[1..], if OverlapsAny(ordered[0], kept) then kept else kept + [ordered[0]])
  }

  function Resolved(priority: Priority, entities: seq<Entity>): seq<Entity> {
    Sort(PositionLeq, Greedy(Sort(Dominance(priority), entities), []))
  }

  method ResolveOverlaps(entities: seq<Entity>, priority: Priority) returns (result: seq<Entity>)
    ensures result == Resolved(priority, entities)
  {
    var ordered := Sort(Dominance(priority), entities);
    var kept: seq<Entity> := [];
    assert ordered[0..] == ordered;
    for i := 0 to |ordered|
      invariant Greedy(ordered, []) == Greedy(ordered[i..], kept)
    {
      var candidate := ordered[i];
      assert ordered[i..][1..] == ordered[i + 1..];
      if OverlapsAny(candidate, kept) {
        continue;
      }
      kept := kept + [candidate];
    }
    result := Sort(PositionLeq, kept);
  }

  // ---------------------------------------------------------------------------
  // The kernel
  // ---------------------------------------------------------------------------

  /** The documented order, rule by rule: the more severe type; then the higher score; then the longer
      span; then the earlier start; then the smaller type name, and then the smaller recognizer name,
      none counting as the empty one. */
  predicate Outranks(priority: Priority, k: Entity, c: Entity) {
    var severityK := if k.entityType in priority then priority[k.entityType] else 0;
    var severityC := if c.entityType in priority then priority[c.entityType] else 0;
    if severityK != severityC then severityK > severityC
    else if k.score != c.score then k.score > c.score
    else if k.end - k.start != c.end - c.start then k.end - k.start > c.end - c.start
    else if k.start != c.start then k.start < c.start
    else if k.entityType != c.entityType then StringLeq(k.entityType, c.entityType)
    else StringLeq(if k.recognizer.Some? then k.recognizer.value else "",
                   if c.recognizer.Some? then c.recognizer.value else "")
  }

  lemma DominanceIsRank(priority: Priority, k: Entity, c: Entity)
    ensures DominanceLeq(priority, k, c) <==> Outranks(priority, k, c)
  {
    hide StringLeq;
  }

  /** `k` is ranked no lower than `c` and shares a character with it. */
  predicate Beats(priority: Priority, k: Entity, c: Entity) {
    k.start < c.end && c.start < k.end && Outranks(priority, k, c)
  }

  lemma BeatsIs(priority: Priority, k: Entity, c: Entity)
    ensures Beats(priority, k, c) <==> Overlaps(k, c) && DominanceLeq(priority, k, c)
  {
    hide DominanceLeq, Outranks;
    DominanceIsRank(priority, k, c);
  }

  ghost predicate BeatenBy(priority: Priority, kept: seq<Entity>, c: Entity) {
    exists k :: k in kept && Beats(priority, k, c)
  }

  /** A disjoint selection in which every candidate is kept, or beaten by one that is. (A kept
      candidate beats itself.) */
  ghost predicate IsKernel(priority: Priority, candidates: seq<Entity>, kept: seq<Entity>) {
    && (forall k :: k in kept ==> k in candidates)
    && Disjoint(kept)
    && (forall c :: c in candidates ==> BeatenBy(priority, kept, c))
  }

  lemma {:induction false} GreedyIsKernel(priority: Priority, done: seq<Entity>, ordered: seq<Entity>,
                                          kept: seq<Entity>)
    requires Sorted(Dominance(priority), done + ordered)
    requires IsKernel(priority, done, kept)
    ensures IsKernel(priority, done + ordered, Greedy(ordered, kept))
    decreases |ordered|
  {
    hide DominanceLeq, OverlapsAny, IsKernel, Sorted;
    if ordered == [] {
      assert done + ordered == done;
    } else {
      var c := ordered[0];
      var kept' := if OverlapsAny(c, kept) then kept else kept + [c];
      assert done + ordered == (done + [c]) + ordered[1..];
      CandidateHandled(priority, done, c, kept, kept', done + ordered);
      GreedyIsKernel(priority, done + [c], ordered[1..], kept');
    }
  }

  lemma CandidateHandled(priority: Priority, done: seq<Entity>, c: Entity, kept: seq<Entity>, kept': seq<Entity>,
                         all: seq<Entity>)
    requires Sorted(Dominance(priority), all) && |all| > |done| && all[..|done|] == done && all[|done|] == c
    requires IsKernel(priority, done, kept)
    requires kept' == if OverlapsAny(c, kept) then kept else kept + [c]
    ensures IsKernel(priority, done + [c], kept')
  {
    hide DominanceLeq, Overlaps;
    forall k | k in kept
      ensures k in done && DominanceLeq(priority, k, c)
    {
      var i :| 0 <= i < |done| && done[i] == k;
      assert all[i] == k && Dominance(priority)(all[i], all[|done|]);
    }
    forall d | d in done + [c]
      ensures BeatenBy(priority, kept', d)
    {
      if d in done {
        assert BeatenBy(priority, kept, d);
        var k :| k in kept && Beats(priority, k, d);
        assert k in kept';
      } else if OverlapsAny(c, kept) {
        var i :| 0 <= i < |kept| && Overlaps(c, kept[i]);
        OverlapsBack(kept[i], c);
        BeatsIs(priority, kept[i], c);
        assert kept[i] in kept && Beats(priority, kept[i], c);
      } else {
        DominanceOrder(priority, c, c, c);
        SameKeySpans(c, c);
        BeatsIs(priority, c, c);
        assert c in kept' && Beats(priority, c, c);
      }
    }
    if !OverlapsAny(c, kept) {
      forall i, j | 0 <= i < j < |kept'|
        ensures !Overlaps(kept'[i], kept'[j])
      {
        if j == |kept| {
          assert !Overlaps(c, kept[i]);
          OverlapsBack(kept[i], c);
        }
      }
    }
  }

  lemma SortedDisjointAscends(s: seq<Entity>)
    requires Sorted(PositionLeq, s) && Disjoint(s)
    ensures Ascending(s)
  {
    forall i, j | 0 <= i < j < |s|
      ensures s[i].end <= s[j].start
    {
      assert PositionLeq(s[i], s[j]) && !Overlaps(s[i], s[j]);
    }
  }

  /** The resolver returns a kernel of its candidates, in order. */
  lemma ResolvedIsKernel(priority: Priority, entities: seq<Entity>)
    ensures IsKernel(priority, entities, Resolved(priority, entities))
    ensures Ascending(Resolved(priority, entities))
  {
    hide DominanceLeq, PositionLeq, Sort, Greedy, Disjoint, Ascending, Overlaps;
    var ordered := Sort(Dominance(priority), entities);
    DominanceIsTotal(priority);
    SortSorted(Dominance(priority), entities);
    SortContents(Dominance(priority), entities);
    assert [] + ordered == ordered;
    assert Disjoint([]) by {
      AscendingIsDisjoint([]);
    }
    GreedyIsKernel(priority, [], ordered, []);
    var kept := Greedy(ordered, []);
    PositionIsTotal();
    SortSorted(PositionLeq, kept);
    SortContents(PositionLeq, kept);
    SortKeepsDisjoint(PositionLeq, kept);
    SortedDisjointAscends(Sort(PositionLeq, kept));
    forall c | c in entities
      ensures BeatenBy(priority, Sort(PositionLeq, kept), c)
    {
      assert BeatenBy(priority, kept, c);
      var k :| k in kept && Beats(priority, k, c);
      assert k in Sort(PositionLeq, kept);
    }
  }

  // ---------------------------------------------------------------------------
  // Uniqueness
  // ---------------------------------------------------------------------------

  /** The candidates strictly more dominant than `e`. */
  ghost function Above(priority: Priority, candidates: seq<Entity>, e: Entity): set<Entity> {
    set c | c in candidates && !DominanceLeq(priority, e, c)
  }

  lemma AboveShrinks(priority: Priority, candidates: seq<Entity>, k: Entity, e: Entity)
    requires k in candidates && !DominanceLeq(priority, e, k)
    ensures |Above(priority, candidates, k)| < |Above(priority, candidates, e)|
  {
    hide DominanceLeq;
    DominanceOrder(priority, k, k, k);
    forall c | c in Above(priority, candidates, k)
      ensures c in Above(priority, candidates, e)
    {
      DominanceOrder(priority, e, c, k);
      DominanceOrder(priority, k, e, c);
      DominanceOrder(priority, e, k, c);
      DominanceOrder(priority, k, c, e);
    }
    assert k in Above(priority, candidates, e) && k !in Above(priority, candidates, k);
    SmallerSet(Above(priority, candidates, k), Above(priority, candidates, e), k);
  }

  lemma SmallerSet(a: set<Entity>, b: set<Entity>, x: Entity)
    requires a <= b && x in b && x !in a
    ensures |a| < |b|
  {
    var rest := b - a;
    assert x in rest;
    assert b == a + rest && |b| == |a| + |rest|;
  }

  ghost predicate HasKey(s: seq<Entity>, e: Entity) {
    exists x :: x in s && SameKey(e, x)
  }

  lemma OverlapsBack(a: Entity, b: Entity)
    ensures Overlaps(a, b) <==> Overlaps(b, a)
  {
  }

  /** Whatever one kernel keeps, every other kernel of the same candidates keeps too. */
  lemma {:induction false} KernelMemberShared(
    priority: Priority, candidates: seq<Entity>, kept: seq<Entity>, other: seq<Entity>, k: Entity)
    requires IsKernel(priority, candidates, kept) && IsKernel(priority, candidates, other)
    requires k in kept
    ensures HasKey(other, k)
    decreases |Above(priority, candidates, k)|
  {
    hide DominanceLeq, Outranks, Beats, Above, SameKey, Overlaps, Disjoint;
    assert BeatenBy(priority, other, k);
    var o :| o in other && Beats(priority, o, k);
    BeatsIs(priority, o, k);
    DominanceOrder(priority, k, o, k);
    if !DominanceLeq(priority, k, o) {
      AboveShrinks(priority, candidates, o, k);
      KernelMemberShared(priority, candidates, other, kept, o);
      var k' :| k' in kept && SameKey(o, k');
      SameKeyOverlaps(o, k', k);
      DisjointMembers(kept, k', k);
      DominanceOrder(priority, o, k, k);
    }
  }

  lemma SameKeyOverlaps(a: Entity, b: Entity, c: Entity)
    requires SameKey(a, b) && Overlaps(a, c)
    ensures Overlaps(b, c)
  {
  }

  /** Position by position the same spans, up to how a missing recognizer is written. */
  ghost predicate SameSpans(s: seq<Entity>, t: seq<Entity>) {
    |s| == |t| && forall i :: 0 <= i < |s| ==> SameKey(s[i], t[i])
  }

  lemma {:induction false} SameKeysSameSpans(s: seq<Entity>, t: seq<Entity>)
    requires Ascending(s) && Ascending(t)
    requires forall x :: x in s ==> HasKey(t, x)
    requires forall x :: x in t ==> HasKey(s, x)
    ensures SameSpans(s, t)
  {
    assert t != [] ==> t[0] in t && HasKey(s, t[0]);
    assert s != [] ==> s[0] in s && HasKey(t, s[0]);
    if s != [] {
      FirstSpanShared(s, t);
      RestShared(s, t);
      RestShared(t, s);
      SameKeysSameSpans(s[1..], t[1..]);
      forall i | 0 <= i < |s|
        ensures SameKey(s[i], t[i])
      {
        if i > 0 {
          assert s[i] == s[1..][i - 1] && t[i] == t[1..][i - 1];
        }
      }
    }
  }

  lemma FirstSpanShared(s: seq<Entity>, t: seq<Entity>)
    requires Ascending(s) && Ascending(t) && s != [] && t != []
    requires HasKey(t, s[0]) && HasKey(s, t[0])
    ensures SameKey(s[0], t[0])
  {
    var m :| m in t && SameKey(s[0], m);
    var n :| n in s && SameKey(t[0], n);
    var i :| 0 <= i < |t| && t[i] == m;
    var j :| 0 <= j < |s| && s[j] == n;
    assert i > 0 ==> t[0].end <= t[i].start;
    assert j > 0 ==> s[0].end <= s[j].start;
  }

  lemma RestShared(s: seq<Entity>, t: seq<Entity>)
    requires Ascending(s) && s != [] && t != [] && SameKey(s[0], t[0])
    requires forall x :: x in s ==> HasKey(t, x)
    ensures Ascending(s[1..])
    ensures forall x :: x in s[1..] ==> HasKey(t[1..], x)
  {
    forall x | x in s[1..]
      ensures HasKey(t[1..], x)
    {
      var i :| 0 <= i < |s[1..]| && s[1..][i] == x;
      assert s[i + 1] == x && s[0].end <= s[i + 1].start;
      assert HasKey(t, x);
      var y :| y in t && SameKey(x, y);
      var j :| 0 <= j < |t| && t[j] == y;
      assert j > 0;
      assert t[1..][j - 1] == y;
    }
  }

  /** The resolver's answer is the only kernel there is, up to how a missing recognizer is written. */
  lemma KernelUnique(priority: Priority, candidates: seq<Entity>, kept: seq<Entity>)
    requires IsKernel(priority, candidates, kept) && Ascending(kept)
    ensures SameSpans(kept, Resolved(priority, candidates))
  {
    var r := Resolved(priority, candidates);
    ResolvedIsKernel(priority, candidates);
    forall x | x in kept
      ensures HasKey(r, x)
    {
      KernelMemberShared(priority, candidates, kept, r, x);
    }
    forall x | x in r
      ensures HasKey(kept, x)
    {
      KernelMemberShared(priority, candidates, r, kept, x);
    }
    SameKeysSameSpans(kept, r);
  }

  ghost predicate SameMembers(a: seq<Entity>, b: seq<Entity>) {
    forall x :: x in a <==> x in b
  }

  /** Candidates may come in any order, with any repetitions. */
  lemma ResolvedIgnoresOrder(priority: Priority, a: seq<Entity>, b: seq<Entity>)
    requires SameMembers(a, b)
    ensures SameSpans(Resolved(priority, a), Resolved(priority, b))
  {
    ResolvedIsKernel(priority, a);
    var r := Resolved(priority, a);
    assert IsKernel(priority, b, r) by {
      assert forall c :: c in b ==> BeatenBy(priority, r, c);
    }
    KernelUnique(priority, b, r);
  }

  /** No candidate kept has a twin that differs from it: the same span, type, score and recognizer name,
      but for a missing recognizer written one way here and the other way there. */
  predicate NoTwins(priority: Priority, candidates: seq<Entity>) {
    forall x, y | x in Resolved(priority, candidates) && y in candidates :: SameKey(x, y) ==> x == y
  }

  lemma {:induction false} InsertPosition<T>(leq: (T, T) -> bool, x: T, s: seq<T>) returns (p: nat)
    ensures p <= |s| && Insert(leq, x, s) == s[..p] + [x] + s[p..]
    ensures forall q :: 0 <= q < p ==> !leq(x, s[q])
  {
    if s == [] || leq(x, s[0]) {
      p := 0;
    } else {
      var q := InsertPosition(leq, x, s[1..]);
      p := q + 1;
      assert s[..p] == [s[0]] + s[1..][..q] && s[p..] == s[1..][q..];
    }
  }

  lemma {:induction false} GreedyExtends(ordered: seq<Entity>, kept: seq<Entity>)
    ensures kept <= Greedy(ordered, kept)
    decreases |ordered|
  {
    if ordered != [] {
      GreedyExtends(ordered[1..], if OverlapsAny(ordered[0], kept) then kept else kept + [ordered[0]]);
    }
  }

  /** A candidate is kept unless one kept before its turn overlaps it. */
  lemma {:induction false} GreedyKeeps(ordered: seq<Entity>, kept: seq<Entity>, p: nat)
    requires p < |ordered|
    ensures ordered[p] in Greedy(ordered, kept)
            || exists o :: o in Greedy(ordered, kept) && Overlaps(ordered[p], o) && (o in kept || o in ordered[..p])
    decreases p
  {
    hide Overlaps;
    var next := if OverlapsAny(ordered[0], kept) then kept else kept + [ordered[0]];
    GreedyExtends(ordered[1..], next);
    if p > 0 {
      GreedyKeeps(ordered[1..], next, p - 1);
      if o :| o in Greedy(ordered, kept) && Overlaps(ordered[p], o) && (o in next || o in ordered[1..][..p - 1]) {
        if o !in kept {
          assert o == ordered[0] || o in ordered[1..][..p - 1];
          assert ordered[..p] == [ordered[0]] + ordered[1..][..p - 1];
        }
      }
    } else if OverlapsAny(ordered[0], kept) {
      var i :| 0 <= i < |kept| && Overlaps(ordered[0], kept[i]);
      assert kept[i] in Greedy(ordered, kept);
    } else {
      assert Greedy(ordered, kept)[|kept|] == next[|kept|] == ordered[0];
    }
  }

  /** Put in front, a twin of a kept candidate is kept itself. */
  lemma TwinInFrontIsKept(priority: Priority, a: seq<Entity>, y: Entity, x: Entity)
    requires x in Resolved(priority, [y] + a) && SameKey(x, y)
    ensures y in Resolved(priority, [y] + a)
  {
    hide DominanceLeq, PositionLeq, Overlaps, SameKey, Sort, Greedy, Disjoint, Ascending;
    var sorted := Sort(Dominance(priority), a);
    SortFront(Dominance(priority), y, a);
    var p := InsertPosition(Dominance(priority), y, sorted);
    var ordered := Sort(Dominance(priority), [y] + a);
    assert ordered[p] == y && ordered[..p] == sorted[..p];
    forall o | o in ordered[..p]
      ensures !DominanceLeq(priority, y, o)
    {
      var q :| 0 <= q < p && sorted[q] == o;
      assert !Dominance(priority)(y, sorted[q]);
    }
    GreedyKeeps(ordered, [], p);
    var kept := Greedy(ordered, []);
    SortContents(PositionLeq, kept);
    ResolvedIsKernel(priority, [y] + a);
    if y !in kept {
      var o :| o in kept && Overlaps(y, o) && o in ordered[..p];
      assert o in Resolved(priority, [y] + a);
      TwinOverlaps(x, y, o);
      DominanceOrder(priority, x, y, x);
      DisjointMembers(Resolved(priority, [y] + a), x, o);
    }
  }

  lemma SortFront<T>(leq: (T, T) -> bool, x: T, s: seq<T>)
    ensures Sort(leq, [x] + s) == Insert(leq, x, Sort(leq, s))
  {
    assert ([x] + s)[1..] == s;
  }

  lemma SortOne<T>(leq: (T, T) -> bool, x: T)
    ensures Sort(leq, [x]) == [x]
  {
    assert [x][1..] == [];
  }

  lemma GreedyStep(e: Entity, rest: seq<Entity>, kept: seq<Entity>)
    ensures Greedy([e] + rest, kept) == Greedy(rest, if OverlapsAny(e, kept) then kept else kept + [e])
  {
    assert ([e] + rest)[1..] == rest;
  }

  lemma TwinOverlaps(x: Entity, y: Entity, o: Entity)
    requires SameKey(x, y) && Overlaps(y, o)
    ensures Overlaps(x, o)
  {
  }

  lemma TwinChangesResult(priority: Priority, a: seq<Entity>, x: Entity, y: Entity)
    requires x in Resolved(priority, a) && y in a && SameKey(x, y) && x != y
    ensures SameMembers(a, [y] + a) && Resolved(priority, [y] + a) != Resolved(priority, a)
  {
    hide Resolved, DominanceLeq, SameKey, Overlaps, Disjoint, Ascending;
    var b := [y] + a;
    if Resolved(priority, b) == Resolved(priority, a) {
      TwinInFrontIsKept(priority, a, y, x);
      ResolvedIsKernel(priority, b);
      SameKeySpans(x, y);
      DisjointMembers(Resolved(priority, b), x, y);
      assert false;
    }
  }

  /** The result is the very same for every order and repetition of the candidates exactly when none it
      keeps has a twin. */
  lemma OrderIndependentIff(priority: Priority, a: seq<Entity>)
    ensures NoTwins(priority, a) <==> forall b | SameMembers(a, b) :: Resolved(priority, b) == Resolved(priority, a)
  {
    hide Resolved, DominanceLeq, SameKey, Overlaps, Disjoint, Ascending;
    if NoTwins(priority, a) {
      forall b | SameMembers(a, b)
        ensures Resolved(priority, b) == Resolved(priority, a)
      {
        ResolvedIgnoresOrder(priority, a, b);
        ResolvedIsKernel(priority, b);
        var ra, rb := Resolved(priority, a), Resolved(priority, b);
        forall i | 0 <= i < |ra|
          ensures ra[i] == rb[i]
        {
          assert SameKey(ra[i], rb[i]) && ra[i] in ra && rb[i] in rb;
        }
      }
    } else {
      var x, y :| x in Resolved(priority, a) && y in a && SameKey(x, y) && x != y;
      TwinChangesResult(priority, a, x, y);
    }
  }

  /** Two twins alone: whichever comes first is kept. */
  lemma FirstTwinWins(priority: Priority, x: Entity, y: Entity)
    requires SameKey(x, y)
    ensures Resolved(priority, [x, y]) == [x]
  {
    hide PositionLeq, DominanceLeq;
    DominanceOrder(priority, x, y, x);
    SortOne(Dominance(priority), y);
    SortFront(Dominance(priority), x, [y]);
    assert [x, y] == [x] + [y];
    assert Sort(Dominance(priority), [x, y]) == [x, y];
    assert OverlapsAny(y, [x]) by {
      assert Overlaps(y, [x][0]);
    }
    GreedyStep(x, [y], []);
    GreedyStep(y, [], [x]);
    assert [y] + [] == [y] && [] + [x] == [x];
    assert Greedy([x, y], []) == [x];
    SortOne(PositionLeq, x);
  }

  /** Resolving a second time changes nothing. */
  lemma ResolvedIdempotent(priority: Priority, entities: seq<Entity>)
    ensures Resolved(priority, Resolved(priority, entities)) == Resolved(priority, entities)
  {
    hide Resolved, DominanceLeq, Overlaps, SameKey, Ascending, Disjoint;
    var r := Resolved(priority, entities);
    ResolvedIsKernel(priority, entities);
    AscendingIsKernel(priority, r);
    KernelUnique(priority, r, r);
    ResolvedIsKernel(priority, r);
    var rr := Resolved(priority, r);
    forall i | 0 <= i < |r|
      ensures rr[i] == r[i]
    {
      assert SameKey(r[i], rr[i]) && rr[i] in rr;
      SameKeySpans(r[i], rr[i]);
      DisjointMembers(r, r[i], rr[i]);
    }
  }

  lemma SameKeySpans(a: Entity, b: Entity)
    requires SameKey(a, b)
    ensures Overlaps(a, b)
  {
  }

  lemma AscendingIsDisjoint(s: seq<Entity>)
    requires Ascending(s)
    ensures Disjoint(s)
  {
    forall i, j | 0 <= i < j < |s|
      ensures !Overlaps(s[i], s[j])
    {
      assert s[i].end <= s[j].start;
    }
  }

  lemma AscendingIsKernel(priority: Priority, s: seq<Entity>)
    requires Ascending(s)
    ensures IsKernel(priority, s, s)
  {
    hide DominanceLeq;
    AscendingIsDisjoint(s);
    forall c | c in s
      ensures BeatenBy(priority, s, c)
    {
      DominanceOrder(priority, c, c, c);
      BeatsIs(priority, c, c);
      assert c in s && Beats(priority, c, c);
    }
  }
}
