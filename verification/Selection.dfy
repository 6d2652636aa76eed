/** The spans the tokenizer acts on: its own, second overlap resolution. */
module Selection {
  import opened Wrappers
  import opened Domain
  import opened Ordering

  /** Earliest first, then longest, then most confident, then by type name. */
  predicate OrderedBefore(a: Entity, b: Entity) {
    var la, lb := a.end - a.start, b.end - b.start;
    a.start < b.start || (a.start == b.start &&
      (la > lb || (la == lb &&
        (a.score > b.score || (a.score == b.score && StringLeq(a.entityType, b.entityType))))))
  }

  lemma OrderedBeforeIsTotal()
    ensures TotalPreorder(OrderedBefore)
  {
    forall a: Entity, b: Entity
      ensures OrderedBefore(a, b) || OrderedBefore(b, a)
    {
      StringLeqTotal(a.entityType, b.entityType);
    }
    forall a: Entity, b: Entity, c: Entity | OrderedBefore(a, b) && OrderedBefore(b, c)
      ensures OrderedBefore(a, c)
    {
      if StringLeq(a.entityType, b.entityType) && StringLeq(b.entityType, c.entityType) {
        StringLeqTransitive(a.entityType, b.entityType, c.entityType);
      }
    }
  }

  /** Walk from the left, keeping every span that begins at or after the end of the last one kept. */
  function Sweep(ordered: seq<Entity>, boundary: int): (kept: seq<Entity>)
  {
    if ordered == [] then []
    else if ordered[0].start < boundary then Sweep(ordered[1..], boundary)
    else [ordered[0]] + Sweep(ordered[1..], ordered[0].end)
  }

  method ResolveOverlaps(entities: seq<Entity>) returns (kept: seq<Entity>)
    ensures kept == Sweep(Sort(OrderedBefore, entities), 0)
  {
    kept := [];
    var boundary: int := 0;
    var ordered := Sort(OrderedBefore, entities);
    assert ordered[0..] == ordered;
    for i := 0 to |ordered|
      invariant Sweep(ordered, 0) == kept + Sweep(ordered[i..], boundary)
    {
      var entity := ordered[i];
      assert ordered[i..] == [entity] + ordered[i + 1..];
      if entity.start < boundary {
        continue;
      }
      kept := kept + [entity];
      boundary := entity.end;
    }
  }

  function InBounds(text: string, entities: seq<Entity>): bool {
    forall i :: 0 <= i < |entities| ==> entities[i].end <= |text|
  }

  function Confident(entities: seq<Entity>, policy: Policy): seq<Entity> {
    if entities == [] then []
    else
      (if entities[0].score >= policy.minScoreFor(entities[0].entityType) then [entities[0]] else [])
      + Confident(entities[1..], policy)
  }

  function Selected(text: string, entities: seq<Entity>, policy: Policy): Result<seq<Entity>, GatewayError> {
    if !InBounds(text, entities) then Err(InvalidRequest)
    else Ok(Sweep(Sort(OrderedBefore, Confident(entities, policy)), 0))
  }

  method SelectEntities(text: string, entities: seq<Entity>, policy: Policy)
    returns (r: Result<seq<Entity>, GatewayError>)
    ensures r == Selected(text, entities, policy)
  {
    if !InBounds(text, entities) {
      return Err(InvalidRequest);
    }
    var kept := ResolveOverlaps(Confident(entities, policy));
    r := Ok(kept);
  }

  lemma NilAscends()
    ensures Ascending([])
  {
  }

  lemma {:induction false} SweepSelects(ordered: seq<Entity>, boundary: int)
    ensures var kept := Sweep(ordered, boundary);
            Ascending(kept)
            && (forall k :: k in kept ==> k in ordered && k.start >= boundary)
  {
    hide Ascending;
    if ordered == [] {
      NilAscends();
    } else {
      var first := ordered[0];
      if first.start < boundary {
        SweepSelects(ordered[1..], boundary);
      } else {
        SweepSelects(ordered[1..], first.end);
        ConsAscends(first, Sweep(ordered[1..], first.end));
      }
    }
  }

  lemma {:induction false} ConfidentMembers(entities: seq<Entity>, policy: Policy, e: Entity)
    ensures e in Confident(entities, policy)
       <==> e in entities && e.score >= policy.minScoreFor(e.entityType)
  {
    if entities != [] {
      ConfidentMembers(entities[1..], policy, e);
      assert e in entities <==> e == entities[0] || e in entities[1..];
    }
  }

  /** What is selected lies in the text, in order, without overlaps, each reaching its threshold. */
  lemma SelectedIsUsable(text: string, entities: seq<Entity>, policy: Policy)
    requires Selected(text, entities, policy).Ok?
    ensures var s := Selected(text, entities, policy).value;
            Ascending(s)
            && forall e :: e in s ==>
                 e in entities && e.end <= |text| && e.score >= policy.minScoreFor(e.entityType)
  {
    var confident := Confident(entities, policy);
    SweepSelects(Sort(OrderedBefore, confident), 0);
    SortContents(OrderedBefore, confident);
    forall e | e in Selected(text, entities, policy).value
      ensures e in entities && e.end <= |text| && e.score >= policy.minScoreFor(e.entityType)
    {
      ConfidentMembers(entities, policy, e);
      var i :| 0 <= i < |entities| && entities[i] == e;
    }
  }

  // ---------------------------------------------------------------------------
  // Agreement with the detector's resolver
  // ---------------------------------------------------------------------------

  lemma {:induction false} SweepKeepsAscending(s: seq<Entity>, boundary: int)
    requires Ascending(s) && (s != [] ==> s[0].start >= boundary)
    ensures Sweep(s, boundary) == s
  {
    if s != [] {
      assert s == [s[0]] + s[1..];
      assert |s| > 1 ==> s[0].end <= s[1].start;
      SweepKeepsAscending(s[1..], s[0].end);
    }
  }

  lemma {:induction false} ConfidentAscends(s: seq<Entity>, policy: Policy)
    requires Ascending(s)
    ensures Ascending(Confident(s, policy))
  {
    if s != [] {
      ConfidentAscends(s[1..], policy);
      var rest := Confident(s[1..], policy);
      forall x | x in rest
        ensures s[0].end <= x.start
      {
        ConfidentMembers(s[1..], policy, x);
        var j :| 0 <= j < |s[1..]| && s[1..][j] == x;
        assert s[j + 1] == x;
      }
      ConsAscends(s[0], rest);
      assert [] + rest == rest;
    }
  }

  lemma AscendingIsSorted(s: seq<Entity>)
    requires Ascending(s)
    ensures Sorted(OrderedBefore, s)
  {
    forall i, j | 0 <= i < j < |s|
      ensures OrderedBefore(s[i], s[j])
    {
      assert s[i].end <= s[j].start;
    }
  }

  /** On spans the detector has already resolved, selection keeps exactly those at or above their
      threshold, in order. */
  lemma SelectionAgreesOnAscending(text: string, entities: seq<Entity>, policy: Policy)
    requires Ascending(entities) && InBounds(text, entities)
    ensures Selected(text, entities, policy) == Ok(Confident(entities, policy))
  {
    var c := Confident(entities, policy);
    ConfidentAscends(entities, policy);
    AscendingIsSorted(c);
    SortOfSorted(OrderedBefore, c);
    SweepKeepsAscending(c, 0);
  }

  lemma {:induction false} ConfidentCount(s: seq<Entity>, policy: Policy)
    ensures |Confident(s, policy)| <= |s|
    ensures |Confident(s, policy)| == |s| <==>
            forall i :: 0 <= i < |s| ==> s[i].score >= policy.minScoreFor(s[i].entityType)
    ensures |Confident(s, policy)| == |s| ==> Confident(s, policy) == s
  {
    if s != [] {
      ConfidentCount(s[1..], policy);
      assert s == [s[0]] + s[1..];
      assert forall i :: 1 <= i < |s| ==> s[i] == s[1..][i - 1];
    }
  }

  lemma {:induction false} ConfidentDisjoint(s: seq<Entity>, policy: Policy)
    requires Disjoint(s)
    ensures Disjoint(Confident(s, policy))
  {
    hide Overlaps;
    if s != [] {
      TailDisjoint(s);
      ConfidentDisjoint(s[1..], policy);
      var rest := Confident(s[1..], policy);
      forall x | x in rest
        ensures !Overlaps(s[0], x)
      {
        ConfidentMembers(s[1..], policy, x);
      }
      ConsDisjoint(s[0], rest);
      assert [] + rest == rest;
    }
  }

  lemma SortedDisjointAscends(s: seq<Entity>)
    requires Sorted(OrderedBefore, s) && Disjoint(s)
    ensures Ascending(s)
  {
    forall i, j | 0 <= i < j < |s|
      ensures s[i].end <= s[j].start
    {
      assert OrderedBefore(s[i], s[j]) && !Overlaps(s[i], s[j]);
    }
  }

  /** On disjoint spans in any order, selection only drops those below their threshold, and sorts. */
  lemma SelectedOfDisjoint(text: string, spans: seq<Entity>, policy: Policy)
    requires Disjoint(spans) && InBounds(text, spans)
    ensures Selected(text, spans, policy) == Ok(Sort(OrderedBefore, Confident(spans, policy)))
  {
    hide OrderedBefore, Disjoint, Ascending;
    var c := Confident(spans, policy);
    ConfidentDisjoint(spans, policy);
    OrderedBeforeIsTotal();
    SortSorted(OrderedBefore, c);
    SortKeepsDisjoint(OrderedBefore, c);
    SortedDisjointAscends(Sort(OrderedBefore, c));
    SweepKeepsAscending(Sort(OrderedBefore, c), 0);
  }

  /** The document path's check that no labelled span was dropped fires, on disjoint in-bounds spans
      in any order, exactly when one of them is below its threshold. When it does not, every span is
      there once. */
  lemma NoSpanDropped(text: string, spans: seq<Entity>, policy: Policy)
    requires Disjoint(spans) && InBounds(text, spans)
    ensures Selected(text, spans, policy).Ok?
    ensures |Selected(text, spans, policy).value| == |spans| <==>
            forall i :: 0 <= i < |spans| ==> spans[i].score >= policy.minScoreFor(spans[i].entityType)
    ensures |Selected(text, spans, policy).value| == |spans| ==>
              multiset(Selected(text, spans, policy).value) == multiset(spans)
  {
    hide OrderedBefore, Disjoint, Selected;
    SelectedOfDisjoint(text, spans, policy);
    SortContents(OrderedBefore, Confident(spans, policy));
    ConfidentCount(spans, policy);
  }

  /** Disjoint spans in any order: selection keeps exactly the confident ones. */
  lemma DisjointAllKept(text: string, entities: seq<Entity>, policy: Policy, e: Entity)
    requires Disjoint(entities) && InBounds(text, entities)
    ensures Selected(text, entities, policy).Ok?
    ensures e in Selected(text, entities, policy).value
       <==> e in entities && e.score >= policy.minScoreFor(e.entityType)
  {
    hide OrderedBefore, Disjoint, Selected;
    SelectedOfDisjoint(text, entities, policy);
    SortContents(OrderedBefore, Confident(entities, policy));
    ConfidentMembers(entities, policy, e);
  }

  // ---------------------------------------------------------------------------
  // Overlapping spans
  // ---------------------------------------------------------------------------

  /** `k` comes first in the order the tokenizer scans: it starts earlier; or starts there too and is longer;
      or is as long and scores higher; or scores the same and has the smaller type name. */
  predicate ComesFirst(k: Entity, e: Entity) {
    if k.start != e.start then k.start < e.start
    else if k.end != e.end then k.end > e.end
    else if k.score != e.score then k.score > e.score
    else StringLeq(k.entityType, e.entityType)
  }

  lemma {:induction false} SweepCovers(ordered: seq<Entity>, boundary: int, e: Entity)
    requires Sorted(OrderedBefore, ordered) && e in ordered && e.start >= boundary
    ensures exists k :: k in Sweep(ordered, boundary) && k.start < e.end && e.start < k.end && OrderedBefore(k, e)
  {
    hide OrderedBefore;
    var first, rest := ordered[0], ordered[1..];
    assert ordered == [first] + rest;
    var i :| 0 <= i < |ordered| && ordered[i] == e;
    if first.start < boundary {
      assert rest[i - 1] == e;
      SweepCovers(rest, boundary, e);
    } else {
      OrderedBeforeSelf(e);
      assert OrderedBefore(first, e) by {
        assert i == 0 || OrderedBefore(ordered[0], ordered[i]);
      }
      StartsInOrder(first, e);
      if e.start < first.end {
        assert first in Sweep(ordered, boundary);
      } else {
        assert e != first && rest[i - 1] == e;
        SweepCovers(rest, first.end, e);
        var k :| k in Sweep(rest, first.end) && k.start < e.end && e.start < k.end && OrderedBefore(k, e);
        assert k in Sweep(ordered, boundary);
      }
    }
  }

  lemma OrderedBeforeSelf(e: Entity)
    ensures OrderedBefore(e, e)
  {
    StringLeqTotal(e.entityType, e.entityType);
  }

  lemma StartsInOrder(k: Entity, e: Entity)
    requires OrderedBefore(k, e)
    ensures k.start <= e.start && ComesFirst(k, e)
  {
  }

  /** Whatever spans are offered, every confident one is selected or shares a character with a selected one
      that comes first. */
  lemma SelectionCovers(text: string, entities: seq<Entity>, policy: Policy, e: Entity)
    requires Selected(text, entities, policy).Ok?
    requires e in entities && e.score >= policy.minScoreFor(e.entityType)
    ensures exists k :: k in Selected(text, entities, policy).value && k.start < e.end && e.start < k.end
                        && ComesFirst(k, e)
  {
    hide OrderedBefore, ComesFirst;
    var c := Confident(entities, policy);
    var ordered := Sort(OrderedBefore, c);
    ConfidentMembers(entities, policy, e);
    SortContents(OrderedBefore, c);
    OrderedBeforeIsTotal();
    SortSorted(OrderedBefore, c);
    SweepCovers(ordered, 0, e);
    var k :| k in Sweep(ordered, 0) && k.start < e.end && e.start < k.end && OrderedBefore(k, e);
    StartsInOrder(k, e);
  }

  /** Selection is refused exactly when a span reaches past the text. */
  lemma RefusedIffOutside(text: string, entities: seq<Entity>, policy: Policy)
    ensures Selected(text, entities, policy) == Err(InvalidRequest) <==>
            exists i :: 0 <= i < |entities| && entities[i].end > |text|
    ensures Selected(text, entities, policy).Err? ==> Selected(text, entities, policy).error == InvalidRequest
  {
  }
}
