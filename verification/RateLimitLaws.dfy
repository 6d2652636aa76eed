/** The two limiters against one that never forgets an admission, over every run. */
module RateLimitLaws {
  import opened Wrappers
  import opened RateLimit
  import opened Identifiers

  // ---------------------------------------------------------------------------
  // Windows
  // ---------------------------------------------------------------------------

  ghost predicate Ascends(times: seq<nat>) {
    forall i, j :: 0 <= i < j < |times| ==> times[i] <= times[j]
  }

  ghost predicate UpTo(times: seq<nat>, last: int) {
    forall x :: x in times ==> x <= last
  }

  lemma AfterSnoc(times: seq<nat>, x: nat, bound: int)
    ensures After(times + [x], bound) == After(times, bound) + if x > bound then [x] else []
  {
    assert (times + [x])[..|times|] == times;
  }

  ghost predicate AllAfter(times: seq<nat>, bound: int) {
    forall i :: 0 <= i < |times| ==> times[i] > bound
  }

  lemma {:induction false} AfterAll(times: seq<nat>, bound: int)
    requires AllAfter(times, bound)
    ensures After(times, bound) == times
  {
    if times != [] {
      AfterAll(times[..|times| - 1], bound);
    }
  }

  lemma {:induction false} AfterNone(times: seq<nat>, bound: int)
    requires UpTo(times, bound)
    ensures After(times, bound) == []
  {
    if times != [] {
      var n := |times| - 1;
      assert forall x :: x in times[..n] ==> x in times;
      AfterNone(times[..n], bound);
      assert times[n] in times;
    }
  }

  lemma {:induction false} AfterAscends(times: seq<nat>, bound: int)
    requires Ascends(times)
    ensures Ascends(After(times, bound))
  {
    if times != [] {
      var n := |times| - 1;
      var front := After(times[..n], bound);
      AfterAscends(times[..n], bound);
      forall i, j | 0 <= i < j < |After(times, bound)|
        ensures After(times, bound)[i] <= After(times, bound)[j]
      {
        assert front[i] in front && front[i] in times[..n];
        var k :| 0 <= k < n && times[k] == front[i];
      }
    }
  }

  /** Two lists that agree after `b` agree after anything later. */
  lemma AgreeLater(s: seq<nat>, t: seq<nat>, b: int, c: int)
    requires After(s, b) == After(t, b) && b <= c
    ensures After(s, c) == After(t, c)
  {
    AfterIdempotent(s, b, c);
    AfterIdempotent(t, b, c);
  }

  lemma InsertLast(times: seq<nat>, x: nat)
    requires UpTo(times, x)
    ensures Insert(times, x) == times + [x]
  {
    if times != [] {
      assert times[|times| - 1] in times;
    }
  }

  lemma {:induction false} LeastIsFirst(times: seq<nat>)
    requires Ascends(times)
    ensures Least(times) == First(times)
  {
    if times != [] {
      LeastIsFirst(times[1..]);
    }
  }

  // ---------------------------------------------------------------------------
  // The limiter that never forgets
  // ---------------------------------------------------------------------------

  function Recent(h: Hits, rules: Rules, slot: Slot, now: nat): seq<nat> {
    After(HitsOf(h, slot), now - WindowMs(RuleOf(rules, slot.bucket)))
  }

  function Recorded(h: Hits, e: Event): Hits {
    var a, t := SlotOf(e.principal, ApiKeyBucket), SlotOf(e.principal, TenantBucket);
    h[a := HitsOf(h, a) + [e.now]][t := HitsOf(h, t) + [e.now]]
  }

  function IdealAcquired(h: Hits, rules: Rules, failOpen: bool, e: Event): (Hits, Decision) {
    if !e.up then (h, BackendFailure(failOpen))
    else
      var d := Decide(rules, Recent(h, rules, SlotOf(e.principal, ApiKeyBucket), e.now),
                      Recent(h, rules, SlotOf(e.principal, TenantBucket), e.now), e.now);
      (if d.allowed then Recorded(h, e) else h, d)
  }

  predicate Charged(slot: Slot, e: Event) {
    slot == SlotOf(e.principal, ApiKeyBucket) || slot == SlotOf(e.principal, TenantBucket)
  }

  // ---------------------------------------------------------------------------
  // Redis
  // ---------------------------------------------------------------------------

  /** A sorted set agrees with the full record about every window from `last` on, and outlives it. */
  ghost predicate TracksAt(keys: Keys, h: Hits, rules: Rules, slot: Slot, last: int) {
    var times := HitsOf(h, slot);
    var w := WindowMs(RuleOf(rules, slot.bucket));
    && UpTo(times, last) && Ascends(times)
    && if slot in keys then
         && After(keys[slot].scores, last - w) == After(times, last - w)
         && UpTo(keys[slot].scores, last)
         && UpTo(times, keys[slot].expires - w)
       else After(times, last - w) == []
  }

  ghost predicate Tracks(keys: Keys, h: Hits, rules: Rules, last: int) {
    forall slot :: TracksAt(keys, h, rules, slot, last)
  }

  /** Neither trimming nor the expiry of a whole key ever changes a window. */
  lemma WindowIsRecent(keys: Keys, h: Hits, rules: Rules, slot: Slot, last: int, now: nat)
    requires TracksAt(keys, h, rules, slot, last) && last <= now
    ensures Window(keys, rules, slot, now) == Recent(h, rules, slot, now)
    ensures UpTo(Window(keys, rules, slot, now), now)
  {
    hide After;
    var times := HitsOf(h, slot);
    var w := WindowMs(RuleOf(rules, slot.bucket));
    if slot in keys && keys[slot].expires > now {
      AgreeLater(keys[slot].scores, times, last - w, now - w);
    } else if slot in keys {
      AfterNone(times, now - w);
      AfterNone([], now - w);
    } else {
      AgreeLater(times, [], last - w, now - w) by {
        AfterNone([], last - w);
      }
    }
  }

  /** What one step does to one slot. */
  lemma AcquiredAt(keys: Keys, rules: Rules, failOpen: bool, e: Event, slot: Slot)
    requires forall b :: UpTo(Window(keys, rules, SlotOf(e.principal, b), e.now), e.now)
    ensures var (after, d) := Acquired(keys, rules, failOpen, e);
            var w := Window(keys, rules, slot, e.now);
            if !e.up || !Charged(slot, e) then
              (slot in after <==> slot in keys) && (slot in keys ==> after[slot] == keys[slot])
            else if d.allowed then
              slot in after && after[slot] == ZSet(w + [e.now], e.now + WindowMs(RuleOf(rules, slot.bucket)))
            else if w == [] then slot !in after
            else
              slot in keys && keys[slot].expires > e.now && slot in after && after[slot] == ZSet(w, keys[slot].expires)
  {
    hide After, Insert, Decide, UpTo;
    var a, t := SlotOf(e.principal, ApiKeyBucket), SlotOf(e.principal, TenantBucket);
    NothingAfter(e.now - WindowMs(RuleOf(rules, slot.bucket)));
    if e.up {
      var wa, wt := Window(keys, rules, a, e.now), Window(keys, rules, t, e.now);
      TrimShows(keys, a, e.now, e.now - WindowMs(rules.apiKey));
      var mid := ZRemRangeByScore(keys, a, e.now, e.now - WindowMs(rules.apiKey));
      TrimShows(mid, t, e.now, e.now - WindowMs(rules.tenant));
      InsertLast(wa, e.now);
      InsertLast(wt, e.now);
    }
  }

  lemma NothingAfter(bound: int)
    ensures After([], bound) == []
  {
  }

  lemma RecordedAt(h: Hits, e: Event, slot: Slot)
    ensures HitsOf(Recorded(h, e), slot) == HitsOf(h, slot) + if Charged(slot, e) then [e.now] else []
  {
  }

  lemma GrownAscends(times: seq<nat>, now: nat)
    requires UpTo(times, now) && Ascends(times)
    ensures UpTo(times + [now], now) && Ascends(times + [now])
  {
    var all := times + [now];
    forall i, j | 0 <= i < j < |all|
      ensures all[i] <= all[j]
    {
      assert times[i] in times;
    }
  }

  lemma GrownTracks(times: seq<nat>, window: seq<nat>, w: int, now: nat)
    requires UpTo(times, now) && w > 0 && window == After(times, now - w)
    ensures After(window + [now], now - w) == After(times + [now], now - w)
    ensures UpTo(window + [now], now)
  {
    hide After;
    AfterSnoc(times, now, now - w);
    AfterSnoc(window, now, now - w);
    AfterIdempotent(times, now - w, now - w);
  }

  lemma UpToLater(times: seq<nat>, a: int, b: int)
    requires UpTo(times, a) && a <= b
    ensures UpTo(times, b)
  {
  }

  lemma StepTracksAt(keys: Keys, h: Hits, rules: Rules, failOpen: bool, e: Event, slot: Slot, last: int)
    requires Tracks(keys, h, rules, last) && last <= e.now
    ensures TracksAt(Acquired(keys, rules, failOpen, e).0, IdealAcquired(h, rules, failOpen, e).0, rules, slot, e.now)
    ensures Acquired(keys, rules, failOpen, e).1 == IdealAcquired(h, rules, failOpen, e).1
  {
    hide After, Insert, Decide, UpTo, Ascends, Acquired, Seen;
    var (after, d) := Acquired(keys, rules, failOpen, e);
    forall b
      ensures var s := SlotOf(e.principal, b);
              Window(keys, rules, s, e.now) == Recent(h, rules, s, e.now) && UpTo(Window(keys, rules, s, e.now), e.now)
    {
      assert TracksAt(keys, h, rules, SlotOf(e.principal, b), last);
      WindowIsRecent(keys, h, rules, SlotOf(e.principal, b), last, e.now);
    }
    SameDecision(keys, h, rules, failOpen, e);
    assert TracksAt(keys, h, rules, slot, last);
    WindowIsRecent(keys, h, rules, slot, last, e.now);
    AcquiredAt(keys, rules, failOpen, e, slot);
    RecordedAt(h, e, slot);
    var times := HitsOf(h, slot);
    var w := WindowMs(RuleOf(rules, slot.bucket));
    var window := Window(keys, rules, slot, e.now);
    UpToLater(times, last, e.now);
    if slot in keys {
      UpToLater(keys[slot].scores, last, e.now);
      AgreeLater(keys[slot].scores, times, last - w, e.now - w);
    } else {
      NothingAfter(last - w);
      AgreeLater(times, [], last - w, e.now - w);
      NothingAfter(e.now - w);
    }
    AfterIdempotent(times, e.now - w, e.now - w);
    if e.up && Charged(slot, e) && d.allowed {
      GrownAscends(times, e.now);
      GrownTracks(times, window, w, e.now);
    }
  }

  lemma SameDecision(keys: Keys, h: Hits, rules: Rules, failOpen: bool, e: Event)
    requires forall b :: var s := SlotOf(e.principal, b); Window(keys, rules, s, e.now) == Recent(h, rules, s, e.now)
    ensures Acquired(keys, rules, failOpen, e).1 == IdealAcquired(h, rules, failOpen, e).1
  {
    hide After, Decide, Recent, Window;
    var s, t := SlotOf(e.principal, ApiKeyBucket), SlotOf(e.principal, TenantBucket);
    assert Window(keys, rules, s, e.now) == Recent(h, rules, s, e.now);
    assert Window(keys, rules, t, e.now) == Recent(h, rules, t, e.now);
  }

  // ---------------------------------------------------------------------------
  // The dictionary double
  // ---------------------------------------------------------------------------

  ghost predicate FollowsAt(hits: Hits, h: Hits, rules: Rules, slot: Slot, last: int) {
    var w := WindowMs(RuleOf(rules, slot.bucket));
    After(HitsOf(hits, slot), last - w) == After(HitsOf(h, slot), last - w)
  }

  ghost predicate Orderly(h: Hits, last: int) {
    forall slot :: UpTo(HitsOf(h, slot), last) && Ascends(HitsOf(h, slot))
  }

  ghost predicate Follows(hits: Hits, h: Hits, rules: Rules, last: int) {
    Orderly(h, last) && forall slot :: FollowsAt(hits, h, rules, slot, last)
  }

  lemma MemoryAt(hits: Hits, rules: Rules, failOpen: bool, e: Event, slot: Slot)
    ensures var (after, d) := MemoryAcquired(hits, rules, failOpen, e);
            var w := Recent(hits, rules, slot, e.now);
            if !e.up || !Charged(slot, e) then HitsOf(after, slot) == HitsOf(hits, slot)
            else if d.allowed then HitsOf(after, slot) == w + [e.now]
            else HitsOf(after, slot) == w || HitsOf(after, slot) == HitsOf(hits, slot)
  {
    hide After, Least;
  }

  lemma MemoryDecides(hits: Hits, h: Hits, rules: Rules, failOpen: bool, e: Event)
    requires forall b ::
               Recent(hits, rules, SlotOf(e.principal, b), e.now) == Recent(h, rules, SlotOf(e.principal, b), e.now)
    requires forall b :: Ascends(Recent(h, rules, SlotOf(e.principal, b), e.now))
    ensures MemoryAcquired(hits, rules, failOpen, e).1 == IdealAcquired(h, rules, failOpen, e).1
  {
    hide After, Admission, Least, Ascends;
    var a, t := SlotOf(e.principal, ApiKeyBucket), SlotOf(e.principal, TenantBucket);
    var apiKey := After(HitsOf(hits, a), e.now - WindowMs(rules.apiKey));
    assert HitsOf(hits[a := apiKey], t) == HitsOf(hits, t);
    assert Recent(hits, rules, a, e.now) == Recent(h, rules, a, e.now);
    assert Recent(hits, rules, t, e.now) == Recent(h, rules, t, e.now);
    LeastIsFirst(Recent(h, rules, a, e.now));
    LeastIsFirst(Recent(h, rules, t, e.now));
  }

  lemma StepOrderly(h: Hits, rules: Rules, failOpen: bool, e: Event, last: int)
    requires Orderly(h, last) && last <= e.now
    ensures Orderly(IdealAcquired(h, rules, failOpen, e).0, e.now)
  {
    hide Decide, UpTo, Ascends, Recent;
    var after := IdealAcquired(h, rules, failOpen, e).0;
    forall slot
      ensures UpTo(HitsOf(after, slot), e.now) && Ascends(HitsOf(after, slot))
    {
      UpToLater(HitsOf(h, slot), last, e.now);
      GrownAscends(HitsOf(h, slot), e.now);
      RecordedAt(h, e, slot);
      assert HitsOf(h, slot) + [] == HitsOf(h, slot);
    }
  }

  lemma StepFollows(hits: Hits, h: Hits, rules: Rules, failOpen: bool, e: Event, last: int)
    requires Follows(hits, h, rules, last) && last <= e.now
    ensures Follows(MemoryAcquired(hits, rules, failOpen, e).0, IdealAcquired(h, rules, failOpen, e).0, rules, e.now)
    ensures MemoryAcquired(hits, rules, failOpen, e).1 == IdealAcquired(h, rules, failOpen, e).1
  {
    hide After, MemoryAcquired, IdealAcquired, Orderly;
    forall slot
      ensures Recent(hits, rules, slot, e.now) == Recent(h, rules, slot, e.now)
      ensures Ascends(Recent(h, rules, slot, e.now))
    {
      FollowedWindow(hits, h, rules, slot, last, e.now);
    }
    MemoryDecides(hits, h, rules, failOpen, e);
    StepOrderly(h, rules, failOpen, e, last);
    forall slot
      ensures FollowsAt(MemoryAcquired(hits, rules, failOpen, e).0, IdealAcquired(h, rules, failOpen, e).0, rules,
                        slot, e.now)
    {
      StepFollowsAt(hits, h, rules, failOpen, e, slot, last);
    }
  }

  lemma FollowedWindow(hits: Hits, h: Hits, rules: Rules, slot: Slot, last: int, now: nat)
    requires Follows(hits, h, rules, last) && last <= now
    ensures Recent(hits, rules, slot, now) == Recent(h, rules, slot, now) && Ascends(Recent(h, rules, slot, now))
  {
    hide After, UpTo, Ascends;
    var w := WindowMs(RuleOf(rules, slot.bucket));
    assert FollowsAt(hits, h, rules, slot, last);
    AgreeLater(HitsOf(hits, slot), HitsOf(h, slot), last - w, now - w);
    AfterAscends(HitsOf(h, slot), now - w);
  }

  lemma StepFollowsAt(hits: Hits, h: Hits, rules: Rules, failOpen: bool, e: Event, slot: Slot, last: int)
    requires Follows(hits, h, rules, last) && last <= e.now
    requires MemoryAcquired(hits, rules, failOpen, e).1 == IdealAcquired(h, rules, failOpen, e).1
    ensures FollowsAt(MemoryAcquired(hits, rules, failOpen, e).0, IdealAcquired(h, rules, failOpen, e).0, rules,
                      slot, e.now)
  {
    hide After, MemoryAcquired, Decide, UpTo, Ascends;
    var w := WindowMs(RuleOf(rules, slot.bucket));
    var times := HitsOf(h, slot);
    MemoryAt(hits, rules, failOpen, e, slot);
    RecordedAt(h, e, slot);
    FollowedWindow(hits, h, rules, slot, last, e.now);
    AfterIdempotent(times, e.now - w, e.now - w);
    assert UpTo(times, last);
    UpToLater(times, last, e.now);
    GrownTracks(times, Recent(h, rules, slot, e.now), w, e.now);
    assert times + [] == times;
  }

  // ---------------------------------------------------------------------------
  // Whole runs
  // ---------------------------------------------------------------------------

  ghost predicate Timely(events: seq<Event>) {
    forall i, j :: 0 <= i < j < |events| ==> events[i].now <= events[j].now
  }

  function LastTime(events: seq<Event>): nat {
    if events == [] then 0 else events[|events| - 1].now
  }

  function RedisRun(rules: Rules, failOpen: bool, events: seq<Event>): (r: (Keys, seq<Decision>))
    ensures |r.1| == |events|
  {
    if events == [] then (map[], [])
    else
      var (before, decisions) := RedisRun(rules, failOpen, events[..|events| - 1]);
      var (after, d) := Acquired(before, rules, failOpen, events[|events| - 1]);
      (after, decisions + [d])
  }

  function MemoryRun(rules: Rules, failOpen: bool, events: seq<Event>): (r: (Hits, seq<Decision>))
    ensures |r.1| == |events|
  {
    if events == [] then (map[], [])
    else
      var (before, decisions) := MemoryRun(rules, failOpen, events[..|events| - 1]);
      var (after, d) := MemoryAcquired(before, rules, failOpen, events[|events| - 1]);
      (after, decisions + [d])
  }

  function IdealRun(rules: Rules, failOpen: bool, events: seq<Event>): (r: (Hits, seq<Decision>))
    ensures |r.1| == |events|
  {
    if events == [] then (map[], [])
    else
      var (before, decisions) := IdealRun(rules, failOpen, events[..|events| - 1]);
      var (after, d) := IdealAcquired(before, rules, failOpen, events[|events| - 1]);
      (after, decisions + [d])
  }

  lemma NothingTracks(rules: Rules)
    ensures Tracks(map[], map[], rules, 0) && Follows(map[], map[], rules, 0)
  {
  }

  lemma TimelyFront(events: seq<Event>)
    requires Timely(events) && events != []
    ensures Timely(events[..|events| - 1]) && LastTime(events[..|events| - 1]) <= LastTime(events)
  {
  }

  lemma {:induction false} RunsTrack(rules: Rules, failOpen: bool, events: seq<Event>)
    requires Timely(events)
    ensures Tracks(RedisRun(rules, failOpen, events).0, IdealRun(rules, failOpen, events).0, rules, LastTime(events))
    ensures Follows(MemoryRun(rules, failOpen, events).0, IdealRun(rules, failOpen, events).0, rules, LastTime(events))
    ensures RedisRun(rules, failOpen, events).1 == IdealRun(rules, failOpen, events).1
    ensures MemoryRun(rules, failOpen, events).1 == IdealRun(rules, failOpen, events).1
  {
    hide TracksAt, Follows, Acquired, MemoryAcquired, IdealAcquired, Timely;
    if events == [] {
      NothingTracks(rules);
    } else {
      TimelyFront(events);
      var front, e := events[..|events| - 1], events[|events| - 1];
      RunsTrack(rules, failOpen, front);
      var keys, h := RedisRun(rules, failOpen, front).0, IdealRun(rules, failOpen, front).0;
      forall slot
        ensures TracksAt(Acquired(keys, rules, failOpen, e).0, IdealAcquired(h, rules, failOpen, e).0, rules, slot,
                         e.now)
      {
        StepTracksAt(keys, h, rules, failOpen, e, slot, LastTime(front));
      }
      StepTracksAt(keys, h, rules, failOpen, e, SlotOf(e.principal, ApiKeyBucket), LastTime(front));
      StepFollows(MemoryRun(rules, failOpen, front).0, h, rules, failOpen, e, LastTime(front));
    }
  }

  /** On a shared clock that never goes back, the two limiters make the same decisions, down to the
      advice, for every history. */
  lemma LimitersAgree(rules: Rules, failOpen: bool, events: seq<Event>)
    requires Timely(events)
    ensures RedisRun(rules, failOpen, events).1 == MemoryRun(rules, failOpen, events).1
  {
    hide Timely, Tracks, Follows;
    RunsTrack(rules, failOpen, events);
  }

  /** When requests charged to `slot` were admitted. */
  function Admitted(events: seq<Event>, decisions: seq<Decision>, slot: Slot): seq<nat>
    requires |events| == |decisions|
  {
    if events == [] then []
    else
      var n := |events| - 1;
      Admitted(events[..n], decisions[..n], slot)
      + if decisions[n].reason == WithinLimit && Charged(slot, events[n]) then [events[n].now] else []
  }

  /** How many of `times` lie in (from, to]. */
  function CountIn(times: seq<nat>, from: int, to: int): nat {
    if times == [] then 0
    else CountIn(times[..|times| - 1], from, to) + if from < times[|times| - 1] <= to then 1 else 0
  }

  lemma CountInSnoc(times: seq<nat>, x: nat, from: int, to: int)
    ensures CountIn(times + [x], from, to) == CountIn(times, from, to) + if from < x <= to then 1 else 0
  {
    assert (times + [x])[..|times|] == times;
  }

  lemma {:induction false} CountInAfter(times: seq<nat>, from: int, to: int)
    ensures CountIn(times, from, to) <= |After(times, from)|
  {
    if times != [] {
      CountInAfter(times[..|times| - 1], from, to);
    }
  }

  lemma {:induction false} LaterIsFewer(times: seq<nat>, b: int, c: int)
    requires b <= c
    ensures |After(times, c)| <= |After(times, b)|
  {
    if times != [] {
      LaterIsFewer(times[..|times| - 1], b, c);
    }
  }

  /** How many of `times` fall in the window of length `w` that ends at `t`. */
  function InWindow(times: seq<nat>, t: int, w: int): nat {
    CountIn(times, t - w, t)
  }

  ghost predicate Bounded(times: seq<nat>, w: int, limit: int) {
    forall t: int :: InWindow(times, t, w) <= limit
  }

  lemma AdmissionBounded(times: seq<nat>, w: int, limit: int, now: nat)
    requires Bounded(times, w, limit) && |After(times, now - w)| < limit
    ensures Bounded(times + [now], w, limit)
  {
    hide CountIn, After;
    forall t: int
      ensures InWindow(times + [now], t, w) <= limit
    {
      assert InWindow(times, t, w) <= limit;
      CountInSnoc(times, now, t - w, t);
      if now <= t {
        CountInAfter(times, t - w, t);
        LaterIsFewer(times, now - w, t - w);
      }
    }
  }

  lemma NothingBounded(w: int, limit: int)
    requires limit >= 0
    ensures Bounded([], w, limit)
  {
    assert forall t :: CountIn([], t - w, t) == InWindow([], t, w);
  }

  /** The full record of a bucket grows exactly when the bucket admits, which it does only below its limit. */
  lemma IdealStepAt(h: Hits, rules: Rules, failOpen: bool, e: Event, slot: Slot)
    ensures var (after, d) := IdealAcquired(h, rules, failOpen, e);
            var admits := d.reason == WithinLimit && Charged(slot, e);
            HitsOf(after, slot) == HitsOf(h, slot) + (if admits then [e.now] else [])
            && (admits ==> |Recent(h, rules, slot, e.now)| < RuleOf(rules, slot.bucket).limit)
  {
    hide After;
    RecordedAt(h, e, slot);
  }

  lemma IdealSnoc(rules: Rules, failOpen: bool, events: seq<Event>)
    requires events != []
    ensures var n := |events| - 1;
            var (h, decisions) := IdealRun(rules, failOpen, events[..n]);
            var (after, d) := IdealAcquired(h, rules, failOpen, events[n]);
            IdealRun(rules, failOpen, events) == (after, decisions + [d])
  {
    hide IdealAcquired;
  }

  lemma AdmittedSnoc(events: seq<Event>, decisions: seq<Decision>, d: Decision, slot: Slot)
    requires events != [] && |decisions| == |events| - 1
    ensures var n := |events| - 1;
            var own := if d.reason == WithinLimit && Charged(slot, events[n]) then [events[n].now] else [];
            Admitted(events, decisions + [d], slot) == Admitted(events[..n], decisions, slot) + own
  {
    assert (decisions + [d])[..|events| - 1] == decisions;
  }

  lemma {:induction false} IdealIsBounded(rules: Rules, failOpen: bool, events: seq<Event>, slot: Slot)
    ensures HitsOf(IdealRun(rules, failOpen, events).0, slot)
         == Admitted(events, IdealRun(rules, failOpen, events).1, slot)
    ensures var rule := RuleOf(rules, slot.bucket);
            Bounded(HitsOf(IdealRun(rules, failOpen, events).0, slot), WindowMs(rule), rule.limit)
  {
    hide After, Bounded, IdealAcquired, IdealRun, Admitted, HitsOf, Charged;
    var rule := RuleOf(rules, slot.bucket);
    if events == [] {
      NothingBounded(WindowMs(rule), rule.limit);
      NothingRun(rules, failOpen, slot);
    } else {
      var n := |events| - 1;
      IdealIsBounded(rules, failOpen, events[..n], slot);
      var (h, decisions) := IdealRun(rules, failOpen, events[..n]);
      var (after, d) := IdealAcquired(h, rules, failOpen, events[n]);
      IdealSnoc(rules, failOpen, events);
      AdmittedSnoc(events, decisions, d, slot);
      IdealStepAt(h, rules, failOpen, events[n], slot);
      if d.reason == WithinLimit && Charged(slot, events[n]) {
        AdmissionBounded(HitsOf(h, slot), WindowMs(rule), rule.limit, events[n].now);
      } else {
        assert HitsOf(h, slot) + [] == HitsOf(h, slot);
      }
    }
  }

  lemma NothingRun(rules: Rules, failOpen: bool, slot: Slot)
    ensures IdealRun(rules, failOpen, []) == (map[], [])
    ensures HitsOf(map[], slot) == [] == Admitted([], [], slot)
  {
  }

  // ---------------------------------------------------------------------------
  // In the caller's terms
  // ---------------------------------------------------------------------------

  /** The request is charged to this API key, or to this tenant. */
  predicate Uses(e: Event, bucket: Bucket, id: Uuid) {
    match bucket
    case ApiKeyBucket => e.principal.apiKeyId == id
    case TenantBucket => e.principal.tenantId == id
  }

  /** Which of the first `n` requests were admitted, charged so, in (from, to]. */
  function Admissions(events: seq<Event>, decisions: seq<Decision>, n: nat, bucket: Bucket, id: Uuid,
                      from: int, to: int): set<nat>
    requires n <= |events| == |decisions|
  {
    set j: nat | j < n && decisions[j].reason == WithinLimit && Uses(events[j], bucket, id)
                 && from < events[j].now <= to
  }

  lemma AdmissionsStep(events: seq<Event>, decisions: seq<Decision>, n: nat, bucket: Bucket, id: Uuid,
                       from: int, to: int)
    requires n < |events| == |decisions|
    ensures Admissions(events, decisions, 0, bucket, id, from, to) == {}
    ensures var more := decisions[n].reason == WithinLimit && Uses(events[n], bucket, id) && from < events[n].now <= to;
            |Admissions(events, decisions, n + 1, bucket, id, from, to)|
            == |Admissions(events, decisions, n, bucket, id, from, to)| + if more then 1 else 0
  {
    var before := Admissions(events, decisions, n, bucket, id, from, to);
    var after := Admissions(events, decisions, n + 1, bucket, id, from, to);
    if decisions[n].reason == WithinLimit && Uses(events[n], bucket, id) && from < events[n].now <= to {
      assert after == before + {n};
    } else {
      assert after == before;
    }
  }

  /** The list of admission times, counted. */
  lemma {:induction false} AdmittedCount(events: seq<Event>, decisions: seq<Decision>, n: nat, bucket: Bucket, id: Uuid,
                                         from: int, to: int)
    requires n <= |events| == |decisions|
    ensures |Admissions(events, decisions, n, bucket, id, from, to)|
         == CountIn(Admitted(events[..n], decisions[..n], Slot(bucket, id)), from, to)
    decreases n
  {
    hide Admissions, CountIn, Admitted, Uses;
    if n == 0 {
      NoAdmissions(events, decisions, bucket, id, from, to);
    } else {
      var slot := Slot(bucket, id);
      AdmittedCount(events, decisions, n - 1, bucket, id, from, to);
      AdmissionsStep(events, decisions, n - 1, bucket, id, from, to);
      assert events[..n][..n - 1] == events[..n - 1] && decisions[..n] == decisions[..n - 1] + [decisions[n - 1]];
      AdmittedSnoc(events[..n], decisions[..n - 1], decisions[n - 1], slot);
      var times := Admitted(events[..n - 1], decisions[..n - 1], slot);
      CountInSnoc(times, events[n - 1].now, from, to);
      UsesIsCharged(events[n - 1], bucket, id);
      assert times + [] == times;
    }
  }

  lemma NoAdmissions(events: seq<Event>, decisions: seq<Decision>, bucket: Bucket, id: Uuid, from: int, to: int)
    requires |events| == |decisions|
    ensures Admissions(events, decisions, 0, bucket, id, from, to) == {}
    ensures CountIn(Admitted(events[..0], decisions[..0], Slot(bucket, id)), from, to) == 0
  {
  }

  lemma UsesIsCharged(e: Event, bucket: Bucket, id: Uuid)
    ensures Uses(e, bucket, id) <==> Charged(Slot(bucket, id), e)
  {
  }

  /** In every run on a clock that never goes back, and for every stretch of `windowSeconds` seconds
      whatever: no API key and no tenant is admitted more often than its rule's limit. */
  lemma SlidingWindowSafety(rules: Rules, failOpen: bool, events: seq<Event>, id: Uuid, t: int)
    requires Timely(events)
    ensures var decisions := RedisRun(rules, failOpen, events).1;
            |Admissions(events, decisions, |events|, ApiKeyBucket, id, t - 1000 * rules.apiKey.windowSeconds, t)|
            <= rules.apiKey.limit
            && |Admissions(events, decisions, |events|, TenantBucket, id, t - 1000 * rules.tenant.windowSeconds, t)|
            <= rules.tenant.limit
  {
    hide Timely, Tracks, Follows, CountIn, After, Admissions, Admitted;
    RunsTrack(rules, failOpen, events);
    var decisions := RedisRun(rules, failOpen, events).1;
    assert events[..|events|] == events && decisions[..|events|] == decisions;
    AdmittedCount(events, decisions, |events|, ApiKeyBucket, id, t - 1000 * rules.apiKey.windowSeconds, t);
    AdmittedCount(events, decisions, |events|, TenantBucket, id, t - 1000 * rules.tenant.windowSeconds, t);
    WindowBounded(rules, failOpen, events, Slot(ApiKeyBucket, id), t);
    WindowBounded(rules, failOpen, events, Slot(TenantBucket, id), t);
  }

  lemma WindowBounded(rules: Rules, failOpen: bool, events: seq<Event>, slot: Slot, t: int)
    ensures InWindow(Admitted(events, IdealRun(rules, failOpen, events).1, slot), t,
                     WindowMs(RuleOf(rules, slot.bucket)))
         <= RuleOf(rules, slot.bucket).limit
  {
    hide CountIn, After;
    IdealIsBounded(rules, failOpen, events, slot);
  }

  /** What a limiter that is up answers, given how often the API key and the tenant were admitted of late.
      `advice` is left open here. */
  predicate Answers(d: Decision, rules: Rules, apiKey: nat, tenant: nat) {
    if apiKey >= rules.apiKey.limit then
      d == Decision(false, ApiKeyBucket, rules.apiKey.limit, 0, d.retryAfterSeconds, LimitExceeded)
    else if tenant >= rules.tenant.limit then
      d == Decision(false, TenantBucket, rules.tenant.limit, 0, d.retryAfterSeconds, LimitExceeded)
    else if rules.apiKey.limit - apiKey <= rules.tenant.limit - tenant then
      d == Decision(true, ApiKeyBucket, rules.apiKey.limit, rules.apiKey.limit - apiKey - 1, 0, WithinLimit)
    else
      d == Decision(true, TenantBucket, rules.tenant.limit, rules.tenant.limit - tenant - 1, 0, WithinLimit)
  }

  /** Every decision in every run, told from the earlier decisions alone: a request is denied exactly when
      its API key, or else its tenant, was admitted `limit` times in the last `windowSeconds` seconds,
      and otherwise the room left is that of the tighter bucket. While the store is down the answer is
      the configured one. */
  lemma DecisionExact(rules: Rules, failOpen: bool, events: seq<Event>, i: nat)
    requires Timely(events) && i < |events|
    ensures var decisions := RedisRun(rules, failOpen, events).1;
            var e := events[i];
            var k := Admissions(events, decisions, i, ApiKeyBucket, e.principal.apiKeyId,
                                e.now - 1000 * rules.apiKey.windowSeconds, e.now);
            var t := Admissions(events, decisions, i, TenantBucket, e.principal.tenantId,
                                e.now - 1000 * rules.tenant.windowSeconds, e.now);
            if e.up then Answers(decisions[i], rules, |k|, |t|)
            else decisions[i] == Decision(failOpen, TenantBucket, 0, 0, 5, BackendUnavailable)
  {
    hide Timely, Tracks, Follows, CountIn, After, Admissions, Admitted, Recent, RetryAfter;
    RunsTrack(rules, failOpen, events);
    var decisions := RedisRun(rules, failOpen, events).1;
    var e := events[i];
    RunPrefix(rules, failOpen, events, i);
    var was := IdealRun(rules, failOpen, events[..i]).0;
    RecentIsCounted(rules, failOpen, events, i, ApiKeyBucket);
    RecentIsCounted(rules, failOpen, events, i, TenantBucket);
    assert decisions[i] == IdealAcquired(was, rules, failOpen, e).1;
  }

  /** The window a request finds is the admissions of its bucket before it. */
  lemma RecentIsCounted(rules: Rules, failOpen: bool, events: seq<Event>, i: nat, bucket: Bucket)
    requires Timely(events) && i < |events|
    ensures var was := IdealRun(rules, failOpen, events[..i]).0;
            var e := events[i];
            var slot := SlotOf(e.principal, bucket);
            |Recent(was, rules, slot, e.now)|
            == |Admissions(events, IdealRun(rules, failOpen, events).1, i, bucket, slot.id,
                           e.now - WindowMs(RuleOf(rules, bucket)), e.now)|
  {
    hide Tracks, CountIn, After, Admissions, Admitted, Bounded, UpTo, Ascends;
    var slot := SlotOf(events[i].principal, bucket);
    var from := events[i].now - WindowMs(RuleOf(rules, bucket));
    RunPrefix(rules, failOpen, events, i);
    IdealIsBounded(rules, failOpen, events[..i], slot);
    AdmittedCount(events, IdealRun(rules, failOpen, events).1, i, bucket, slot.id, from, events[i].now);
    TimelyPrefix(events, i);
    RunsTrack(rules, failOpen, events[..i]);
    var was := IdealRun(rules, failOpen, events[..i]).0;
    TrackedTimes(RedisRun(rules, failOpen, events[..i]).0, was, rules, slot, LastTime(events[..i]));
    UpToAll(HitsOf(was, slot), LastTime(events[..i]), events[i].now);
    CountInAll(HitsOf(was, slot), from, events[i].now);
  }

  lemma UpToAll(times: seq<nat>, last: int, to: int)
    requires UpTo(times, last) && last <= to
    ensures forall i :: 0 <= i < |times| ==> times[i] <= to
  {
    assert forall i :: 0 <= i < |times| ==> times[i] in times;
  }

  /** With a limiter that fails closed, the requests let through are exactly those admitted. */
  lemma FailClosedAdmits(rules: Rules, events: seq<Event>, i: nat)
    requires Timely(events) && i < |events|
    ensures var d := RedisRun(rules, false, events).1[i]; d.allowed <==> d.reason == WithinLimit
  {
    hide Timely, Tracks, Follows, After;
    RunsTrack(rules, false, events);
    AllowedIsAdmitted(rules, false, events);
  }

  lemma {:induction false} AllowedIsAdmitted(rules: Rules, failOpen: bool, events: seq<Event>)
    ensures forall i :: 0 <= i < |events| ==>
              var d := IdealRun(rules, failOpen, events).1[i];
              (d.reason == WithinLimit ==> d.allowed) && (!failOpen && d.allowed ==> d.reason == WithinLimit)
  {
    hide After;
    if events != [] {
      AllowedIsAdmitted(rules, failOpen, events[..|events| - 1]);
    }
  }

  // ---------------------------------------------------------------------------
  // Admission and denial
  // ---------------------------------------------------------------------------

  /** Admission adds its moment to both buckets and denial to neither; no other bucket is touched. */
  lemma AdmitsBothOrNeither(rules: Rules, failOpen: bool, events: seq<Event>, e: Event, slot: Slot)
    requires Timely(events) && LastTime(events) <= e.now && e.up
    ensures var keys := RedisRun(rules, failOpen, events).0;
            var (after, d) := Acquired(keys, rules, failOpen, e);
            Window(after, rules, slot, e.now) ==
            Window(keys, rules, slot, e.now) + (if d.allowed && Charged(slot, e) then [e.now] else [])
  {
    hide After, Timely, Follows, Decide, UpTo, Ascends, Seen, TracksAt;
    RunsTrack(rules, failOpen, events);
    var keys, h := RedisRun(rules, failOpen, events).0, IdealRun(rules, failOpen, events).0;
    var last := LastTime(events);
    StepTracksAt(keys, h, rules, failOpen, e, slot, last);
    assert TracksAt(keys, h, rules, slot, last);
    WindowIsRecent(keys, h, rules, slot, last, e.now);
    var after, grown := Acquired(keys, rules, failOpen, e).0, IdealAcquired(h, rules, failOpen, e).0;
    WindowIsRecent(after, grown, rules, slot, e.now, e.now);
    RecordedAt(h, e, slot);
    AfterSnoc(HitsOf(h, slot), e.now, e.now - WindowMs(RuleOf(rules, slot.bucket)));
  }

  lemma {:induction false} CountInAll(times: seq<nat>, from: int, to: int)
    requires forall i :: 0 <= i < |times| ==> times[i] <= to
    ensures CountIn(times, from, to) == |After(times, from)|
  {
    if times != [] {
      CountInAll(times[..|times| - 1], from, to);
    }
  }

  /** A full window after `seconds` whole seconds without admissions, and the advice. */
  lemma FullUntilAdvice(times: seq<nat>, rule: Rule, now: nat, seconds: nat)
    requires Ascends(times) && UpTo(times, now) && Bounded(times, WindowMs(rule), rule.limit)
    requires |After(times, now - WindowMs(rule))| >= rule.limit
    ensures |After(times, now + 1000 * seconds - WindowMs(rule))| >= rule.limit <==>
            seconds < RetryAfter(First(After(times, now - WindowMs(rule))), now, rule)
  {
    hide After, CountIn, InWindow, Bounded;
    var w := WindowMs(rule);
    var window := After(times, now - w);
    var later := now + 1000 * seconds - w;
    WindowIsExact(times, rule, now);
    AfterAscends(times, now - w);
    AfterIdempotent(times, now - w, later);
    assert window[0] in window;
    if later < window[0] {
      AfterAll(window, later);
    } else {
      HeadDropped(window, later);
    }
  }

  lemma WindowIsExact(times: seq<nat>, rule: Rule, now: nat)
    requires UpTo(times, now) && Bounded(times, WindowMs(rule), rule.limit)
    requires |After(times, now - WindowMs(rule))| >= rule.limit
    ensures |After(times, now - WindowMs(rule))| == rule.limit
  {
    hide After, CountIn;
    assert InWindow(times, now, WindowMs(rule)) <= rule.limit;
    assert forall i :: 0 <= i < |times| ==> times[i] in times;
    CountInAll(times, now - WindowMs(rule), now);
  }

  lemma {:induction false} HeadDropped(times: seq<nat>, bound: int)
    requires times != [] && times[0] <= bound
    ensures |After(times, bound)| < |times|
  {
    if |times| > 1 {
      HeadDropped(times[..|times| - 1], bound);
    }
  }

  /** No request after the `i`-th is admitted and charged so. */
  predicate NoneAfter(events: seq<Event>, decisions: seq<Decision>, i: nat, bucket: Bucket, id: Uuid)
    requires |events| == |decisions|
  {
    forall j :: i <= j < |events| && decisions[j].reason == WithinLimit ==> !Uses(events[j], bucket, id)
  }

  lemma {:induction false} NoneAfterAdmitted(events: seq<Event>, decisions: seq<Decision>, i: nat, n: nat,
                                             bucket: Bucket, id: Uuid)
    requires i <= n <= |events| == |decisions| && NoneAfter(events, decisions, i, bucket, id)
    ensures Admitted(events[..n], decisions[..n], Slot(bucket, id))
         == Admitted(events[..i], decisions[..i], Slot(bucket, id))
    decreases n - i
  {
    hide Admitted, Uses;
    if i < n {
      NoneAfterAdmitted(events, decisions, i, n - 1, bucket, id);
      assert events[..n][..n - 1] == events[..n - 1] && decisions[..n] == decisions[..n - 1] + [decisions[n - 1]];
      AdmittedSnoc(events[..n], decisions[..n - 1], decisions[n - 1], Slot(bucket, id));
      UsesIsCharged(events[n - 1], bucket, id);
      var times := Admitted(events[..n - 1], decisions[..n - 1], Slot(bucket, id));
      assert times + [] == times;
    }
  }

  /** After a denial, and any further history that admits nothing to that bucket, the bucket still shows
      `limit` admissions in its last `windowSeconds` seconds after `seconds` whole seconds exactly when
      that is less than what the denial advised. */
  lemma RetryAdviceExact(rules: Rules, failOpen: bool, events: seq<Event>, i: nat, seconds: nat)
    requires Timely(events) && i < |events|
    requires RedisRun(rules, failOpen, events).1[i].reason == LimitExceeded
    requires var decisions := RedisRun(rules, failOpen, events).1;
             NoneAfter(events, decisions, i, decisions[i].bucket,
                       if decisions[i].bucket == ApiKeyBucket then events[i].principal.apiKeyId
                       else events[i].principal.tenantId)
    ensures var decisions := RedisRun(rules, failOpen, events).1;
            var t := events[i].now + 1000 * seconds;
            var ofKey := decisions[i].bucket == ApiKeyBucket;
            var rule := if ofKey then rules.apiKey else rules.tenant;
            var id := if ofKey then events[i].principal.apiKeyId else events[i].principal.tenantId;
            var shown := Admissions(events, decisions, |events|, decisions[i].bucket, id,
                                    t - 1000 * rule.windowSeconds, t);
            |shown| >= rule.limit <==> seconds < decisions[i].retryAfterSeconds
  {
    hide After, Timely, Follows, UpTo, Ascends, RetryAfter, Admitted, Bounded, Tracks, Admissions, CountIn, NoneAfter;
    RunsTrack(rules, failOpen, events);
    var decisions := RedisRun(rules, failOpen, events).1;
    var e := events[i];
    var slot := SlotOf(e.principal, decisions[i].bucket);
    var rule := RuleOf(rules, slot.bucket);
    var t := e.now + 1000 * seconds;
    NoneAfterAdmitted(events, decisions, i, |events|, slot.bucket, slot.id);
    assert events[..|events|] == events && decisions[..|events|] == decisions;
    AdmittedCount(events, decisions, |events|, slot.bucket, slot.id, t - WindowMs(rule), t);
    AdviceByTimes(rules, failOpen, events, i, seconds);
  }

  lemma AdviceByTimes(rules: Rules, failOpen: bool, events: seq<Event>, i: nat, seconds: nat)
    requires Timely(events) && i < |events| && IdealRun(rules, failOpen, events).1[i].reason == LimitExceeded
    ensures var decisions := IdealRun(rules, failOpen, events).1;
            var slot := SlotOf(events[i].principal, decisions[i].bucket);
            var rule := RuleOf(rules, slot.bucket);
            var t := events[i].now + 1000 * seconds;
            CountIn(Admitted(events[..i], decisions[..i], slot), t - WindowMs(rule), t) >= rule.limit <==>
            seconds < decisions[i].retryAfterSeconds
  {
    hide After, Timely, Follows, UpTo, Ascends, RetryAfter, Admitted, Bounded, Tracks, CountIn;
    var decisions := IdealRun(rules, failOpen, events).1;
    var e := events[i];
    var slot := SlotOf(e.principal, decisions[i].bucket);
    var rule := RuleOf(rules, slot.bucket);
    RunPrefix(rules, failOpen, events, i);
    var (was, _) := IdealRun(rules, failOpen, events[..i]);
    IdealIsBounded(rules, failOpen, events[..i], slot);
    DenialNamesItsBucket(was, rules, failOpen, e);
    var times := HitsOf(was, slot);
    TimelyPrefix(events, i);
    RunsTrack(rules, failOpen, events[..i]);
    TrackedTimes(RedisRun(rules, failOpen, events[..i]).0, was, rules, slot, LastTime(events[..i]));
    UpToAll(times, LastTime(events[..i]), e.now + 1000 * seconds);
    UpToLater(times, LastTime(events[..i]), e.now);
    FullUntilAdvice(times, rule, e.now, seconds);
    CountInAll(times, e.now + 1000 * seconds - WindowMs(rule), e.now + 1000 * seconds);
  }

  lemma TrackedTimes(keys: Keys, h: Hits, rules: Rules, slot: Slot, last: int)
    requires Tracks(keys, h, rules, last)
    ensures UpTo(HitsOf(h, slot), last) && Ascends(HitsOf(h, slot))
  {
    hide UpTo, Ascends, After;
    assert TracksAt(keys, h, rules, slot, last);
  }

  lemma DenialNamesItsBucket(h: Hits, rules: Rules, failOpen: bool, e: Event)
    requires IdealAcquired(h, rules, failOpen, e).1.reason == LimitExceeded
    ensures var d := IdealAcquired(h, rules, failOpen, e).1;
            var slot := SlotOf(e.principal, d.bucket);
            |Recent(h, rules, slot, e.now)| >= RuleOf(rules, d.bucket).limit
            && d.retryAfterSeconds == RetryAfter(First(Recent(h, rules, slot, e.now)), e.now, RuleOf(rules, d.bucket))
  {
    hide After, RetryAfter;
  }

  lemma TimelyPrefix(events: seq<Event>, i: nat)
    requires Timely(events) && i < |events|
    ensures Timely(events[..i]) && LastTime(events[..i]) <= events[i].now
  {
  }

  lemma {:induction false} RunPrefix(rules: Rules, failOpen: bool, events: seq<Event>, i: nat)
    requires i < |events|
    ensures IdealRun(rules, failOpen, events).1[..i] == IdealRun(rules, failOpen, events[..i]).1
    ensures IdealRun(rules, failOpen, events).1[i]
         == IdealAcquired(IdealRun(rules, failOpen, events[..i]).0, rules, failOpen, events[i]).1
  {
    hide IdealAcquired;
    var n := |events| - 1;
    if i < n {
      RunPrefix(rules, failOpen, events[..n], i);
      assert events[..n][..i] == events[..i];
    }
  }
}
