/** Cutting a document into overlapping segments, and how short a value must be to survive whole. */
module Segmentation {
  import opened Wrappers

  /** A half-open range into the document's text. Page numbers are not modelled. */
  datatype Segment = Segment(index: nat, start: nat, end: nat)

  datatype SegmentError = NoExtractableText | OffsetOutOfSegment

  /** In order of preference: paragraph break, line break, sentence end, space. */
  const BREAK_PATTERNS: seq<string> := ["\n\n", "\n", ". ", " "]

  predicate ValidSettings(maxCharacters: nat, overlap: nat) {
    maxCharacters >= 1 && overlap < maxCharacters
  }

  /** How far past its start a segment's break may begin: three quarters of the segment size. */
  function Floor(maxCharacters: nat): (w: nat)
    requires maxCharacters >= 1
    ensures 1 <= w <= maxCharacters
  {
    if maxCharacters * 3 / 4 > 1 then maxCharacters * 3 / 4 else 1
  }

  predicate OccursAt(text: string, pattern: string, p: int) {
    0 <= p <= p + |pattern| <= |text| && text[p..p + |pattern|] == pattern
  }

  /** `text.rfind(pattern, low, high)`: the last occurrence lying in [low, high), or -1. */
  function LastOccurrence(text: string, pattern: string, low: nat, high: nat): (p: int)
    requires high <= |text|
    ensures p == -1 || (low <= p && p + |pattern| <= high && OccursAt(text, pattern, p))
    ensures forall q: int :: low <= q && q > p && q + |pattern| <= high ==> !OccursAt(text, pattern, q)
  {
    LastOccurrenceFrom(text, pattern, low, high, high - |pattern|)
  }

  function LastOccurrenceFrom(text: string, pattern: string, low: nat, high: nat, from: int): (p: int)
    requires high <= |text| && from + |pattern| <= high
    ensures p == -1 || (low <= p <= from && OccursAt(text, pattern, p))
    ensures forall q: int :: low <= q <= from && q > p ==> !OccursAt(text, pattern, q)
    decreases from - low + 1
  {
    if from < low then -1
    else if OccursAt(text, pattern, from) then from
    else LastOccurrenceFrom(text, pattern, low, high, from - 1)
  }

  /** The cut after the most preferred break whose last occurrence in the window ends past
      `minimumEnd`; `limit` when no pattern has one. */
  function BreakEnd(text: string, patterns: seq<string>, low: nat, limit: nat, minimumEnd: nat): (end: nat)
    requires limit <= |text|
    requires forall i :: 0 <= i < |patterns| ==> patterns[i] != ""
    ensures end == limit || (low < end <= limit && end > minimumEnd)
  {
    if patterns == [] then limit
    else
      var found := LastOccurrence(text, patterns[0], low, limit);
      if found != -1 && found + |patterns[0]| > minimumEnd then found + |patterns[0]|
      else BreakEnd(text, patterns[1..], low, limit, minimumEnd)
  }

  function EndOfSegment(text: string, start: nat, minimumEnd: nat, maxCharacters: nat): (end: nat)
    requires maxCharacters >= 1 && start < |text|
    ensures start < end <= |text|
    ensures end - start <= maxCharacters
    ensures end < |text| ==> end - start >= MinimumLength(maxCharacters)
    ensures minimumEnd < start + maxCharacters && minimumEnd < |text| ==> end > minimumEnd
  {
    var limit := start + maxCharacters;
    if limit >= |text| then |text|
    else BreakEnd(text, BREAK_PATTERNS, start + Floor(maxCharacters), limit, minimumEnd)
  }

  /** The shortest segment that is not the last: a break found at the floor is one character long. */
  function MinimumLength(maxCharacters: nat): (n: nat)
    requires maxCharacters >= 1
    ensures 1 <= n <= maxCharacters
  {
    if Floor(maxCharacters) + 1 < maxCharacters then Floor(maxCharacters) + 1 else maxCharacters
  }

  function NextStart(start: nat, end: nat, overlap: nat): nat {
    if end - overlap > start + 1 then end - overlap else start + 1
  }

  /** The segments from `start` on, with what the source's loop does on each turn. */
  function SegmentsFrom(text: string, maxCharacters: nat, overlap: nat, start: nat, previousEnd: nat, index: nat)
    : seq<Segment>
    requires ValidSettings(maxCharacters, overlap) && start < |text|
    decreases |text| - start
  {
    var end := EndOfSegment(text, start, previousEnd, maxCharacters);
    [Segment(index, start, end)]
    + if end >= |text| || NextStart(start, end, overlap) >= |text| then []
      else SegmentsFrom(text, maxCharacters, overlap, NextStart(start, end, overlap), end, index + 1)
  }

  function Segments(text: string, maxCharacters: nat, overlap: nat): seq<Segment>
    requires ValidSettings(maxCharacters, overlap) && text != ""
  {
    SegmentsFrom(text, maxCharacters, overlap, 0, 0, 0)
  }

  lemma SegmentsStep(text: string, maxCharacters: nat, overlap: nat, start: nat, previousEnd: nat, index: nat)
    requires ValidSettings(maxCharacters, overlap) && start < |text|
    ensures var end := EndOfSegment(text, start, previousEnd, maxCharacters);
            var next := NextStart(start, end, overlap);
            SegmentsFrom(text, maxCharacters, overlap, start, previousEnd, index) ==
            [Segment(index, start, end)] +
            if end >= |text| || next >= |text| then []
            else SegmentsFrom(text, maxCharacters, overlap, next, end, index + 1)
  {
    hide EndOfSegment;
  }

  method SegmentDocument(text: string, maxCharacters: nat, overlap: nat) returns (r: Result<seq<Segment>, SegmentError>)
    requires ValidSettings(maxCharacters, overlap)
    ensures r == if text == "" then Err(NoExtractableText) else Ok(Segments(text, maxCharacters, overlap))
  {
    hide EndOfSegment, SegmentsFrom, MinimumLength, Floor;
    if text == "" {
      return Err(NoExtractableText);
    }
    var segments: seq<Segment> := [];
    var start: nat, previousEnd: nat := 0, 0;
    ghost var whole := Segments(text, maxCharacters, overlap);
    while start < |text|
      invariant start < |text| ==>
        whole == segments + SegmentsFrom(text, maxCharacters, overlap, start, previousEnd, |segments|)
      invariant start >= |text| ==> whole == segments
      decreases |text| - start
    {
      SegmentsStep(text, maxCharacters, overlap, start, previousEnd, |segments|);
      var end := EndOfSegment(text, start, previousEnd, maxCharacters);
      segments := segments + [Segment(|segments|, start, end)];
      if end >= |text| {
        assert whole == segments;
        break;
      }
      start := NextStart(start, end, overlap);
      previousEnd := end;
    }
    r := Ok(segments);
  }

  // ---------------------------------------------------------------------------
  // Structure
  // ---------------------------------------------------------------------------

  /** Every segment advances by at least this much. */
  function Advance(maxCharacters: nat, overlap: nat): (n: nat)
    requires ValidSettings(maxCharacters, overlap)
    ensures n >= 1
  {
    if MinimumLength(maxCharacters) > overlap + 1 then MinimumLength(maxCharacters) - overlap else 1
  }

  predicate InBounds(s: Segment, length: nat, maxCharacters: nat) {
    s.start < s.end <= length && s.end - s.start <= maxCharacters
  }

  /** `t` is the segment cut after `s`. */
  predicate Follows(s: Segment, t: Segment, maxCharacters: nat, overlap: nat)
    requires ValidSettings(maxCharacters, overlap)
  {
    && t.index == s.index + 1
    && t.start == NextStart(s.start, s.end, overlap)
    && s.start + Advance(maxCharacters, overlap) <= t.start <= s.end < t.end
    && s.end - s.start >= MinimumLength(maxCharacters)
  }

  /** A chain of segments in which each follows the one before, up to the end of the text. */
  ghost predicate WellCut(segments: seq<Segment>, length: nat, maxCharacters: nat, overlap: nat)
    requires ValidSettings(maxCharacters, overlap)
  {
    && segments != []
    && InBounds(segments[0], length, maxCharacters)
    && if |segments| == 1 then segments[0].end == length
       else Follows(segments[0], segments[1], maxCharacters, overlap)
            && WellCut(segments[1..], length, maxCharacters, overlap)
  }

  /** A segment that does not reach the end is followed by one that starts inside the text, no later
      than this one ends, and early enough to reach further than it. */
  lemma NextSegmentReaches(maxCharacters: nat, overlap: nat, start: nat, end: nat, length: nat)
    requires ValidSettings(maxCharacters, overlap)
    requires start + MinimumLength(maxCharacters) <= end < length
    ensures NextStart(start, end, overlap) < length
    ensures start + Advance(maxCharacters, overlap) <= NextStart(start, end, overlap) <= end
    ensures end < NextStart(start, end, overlap) + maxCharacters
  {
  }

  lemma {:induction false} SegmentsAreWellCut(
    text: string, maxCharacters: nat, overlap: nat, start: nat, previousEnd: nat, index: nat)
    requires ValidSettings(maxCharacters, overlap) && start < |text|
    requires previousEnd < start + maxCharacters && previousEnd < |text|
    ensures var s := SegmentsFrom(text, maxCharacters, overlap, start, previousEnd, index);
            WellCut(s, |text|, maxCharacters, overlap)
            && s[0].index == index && s[0].start == start && s[0].end > previousEnd
    decreases |text| - start
  {
    hide EndOfSegment, Floor, MinimumLength, Advance, NextStart;
    var end := EndOfSegment(text, start, previousEnd, maxCharacters);
    var s := SegmentsFrom(text, maxCharacters, overlap, start, previousEnd, index);
    if end < |text| {
      NextSegmentReaches(maxCharacters, overlap, start, end, |text|);
      var next := NextStart(start, end, overlap);
      SegmentsAreWellCut(text, maxCharacters, overlap, next, end, index + 1);
      assert s[1..] == SegmentsFrom(text, maxCharacters, overlap, next, end, index + 1);
    }
  }

  /** The chain, read by position: numbered from the first, each within bounds, each following the
      one before, the last reaching the end. */
  lemma {:induction false} ChainAt(segments: seq<Segment>, length: nat, maxCharacters: nat, overlap: nat, i: nat)
    requires ValidSettings(maxCharacters, overlap) && WellCut(segments, length, maxCharacters, overlap)
    requires i < |segments|
    ensures segments[i].index == segments[0].index + i
    ensures InBounds(segments[i], length, maxCharacters)
    ensures if i + 1 < |segments| then Follows(segments[i], segments[i + 1], maxCharacters, overlap)
            else segments[i].end == length
    ensures segments[i].start >= segments[0].start + i * Advance(maxCharacters, overlap)
  {
    hide Advance, MinimumLength, NextStart, Floor;
    if i > 0 {
      ChainAt(segments[1..], length, maxCharacters, overlap, i - 1);
      var step := Advance(maxCharacters, overlap);
      assert i * step == (i - 1) * step + step;
    }
  }

  /** Segments are numbered from zero, start and end strictly later each time, leave no gap, begin
      and finish with the text, and each is non-empty and within the size limit. */
  lemma SegmentsCover(text: string, maxCharacters: nat, overlap: nat)
    requires ValidSettings(maxCharacters, overlap) && text != ""
    ensures var s := Segments(text, maxCharacters, overlap);
            s != [] && s[0].start == 0 && s[|s| - 1].end == |text|
            && forall i :: 0 <= i < |s| ==>
                 s[i].index == i && s[i].start < s[i].end && s[i].end - s[i].start <= maxCharacters
                 && (i > 0 ==> s[i - 1].start < s[i].start <= s[i - 1].end < s[i].end)
  {
    SegmentsAreWellCut(text, maxCharacters, overlap, 0, 0, 0);
    var s := Segments(text, maxCharacters, overlap);
    forall i | 0 <= i < |s|
      ensures s[i].index == i && s[i].start < s[i].end && s[i].end - s[i].start <= maxCharacters
      ensures i > 0 ==> s[i - 1].start < s[i].start <= s[i - 1].end < s[i].end
    {
      ChainAt(s, |text|, maxCharacters, overlap, i);
      if i > 0 {
        ChainAt(s, |text|, maxCharacters, overlap, i - 1);
      }
    }
    ChainAt(s, |text|, maxCharacters, overlap, |s| - 1);
  }

  /** Every segment advances by a fixed amount, so their number is linear in the length of the text. */
  lemma SegmentCountBound(text: string, maxCharacters: nat, overlap: nat)
    requires ValidSettings(maxCharacters, overlap) && text != ""
    ensures var w := if maxCharacters * 3 / 4 > 1 then maxCharacters * 3 / 4 else 1;
            var shortest := if w + 1 < maxCharacters then w + 1 else maxCharacters;
            var step := if shortest - overlap > 1 then shortest - overlap else 1;
            (|Segments(text, maxCharacters, overlap)| - 1) * step < |text|
  {
    SegmentsAreWellCut(text, maxCharacters, overlap, 0, 0, 0);
    var s := Segments(text, maxCharacters, overlap);
    ChainAt(s, |text|, maxCharacters, overlap, |s| - 1);
  }

  // ---------------------------------------------------------------------------
  // Where segments end
  // ---------------------------------------------------------------------------

  /** A cut at `end` comes right after `pattern`, which lies whole at or past `low`, and cuts past `past`. */
  predicate CutsAfter(text: string, pattern: string, low: nat, limit: nat, past: nat, end: nat) {
    low + |pattern| <= end <= limit <= |text| && end > past && text[end - |pattern|..end] == pattern
  }

  ghost predicate HasCut(text: string, pattern: string, low: nat, limit: nat, past: nat) {
    exists end :: CutsAfter(text, pattern, low, limit, past, end)
  }

  /** The last such cut. */
  ghost predicate IsLastCut(text: string, pattern: string, low: nat, limit: nat, past: nat, end: nat) {
    CutsAfter(text, pattern, low, limit, past, end)
    && forall later :: later > end ==> !CutsAfter(text, pattern, low, limit, past, later)
  }

  lemma OccurrenceIsCut(text: string, pattern: string, low: nat, limit: nat, past: nat)
    requires limit <= |text|
    ensures var found := LastOccurrence(text, pattern, low, limit);
            if found != -1 && found + |pattern| > past then
              HasCut(text, pattern, low, limit, past)
              && IsLastCut(text, pattern, low, limit, past, found + |pattern|)
            else !HasCut(text, pattern, low, limit, past)
  {
    var found := LastOccurrence(text, pattern, low, limit);
    forall end: nat | CutsAfter(text, pattern, low, limit, past, end)
      ensures found != -1 && end <= found + |pattern|
    {
      assert OccursAt(text, pattern, end - |pattern|);
    }
    if found != -1 && found + |pattern| > past {
      assert CutsAfter(text, pattern, low, limit, past, found + |pattern|);
    }
  }

  lemma BreakStep(text: string, patterns: seq<string>, low: nat, limit: nat, past: nat)
    requires limit <= |text| && patterns != []
    requires forall i :: 0 <= i < |patterns| ==> patterns[i] != ""
    ensures if HasCut(text, patterns[0], low, limit, past) then
              IsLastCut(text, patterns[0], low, limit, past, BreakEnd(text, patterns, low, limit, past))
            else BreakEnd(text, patterns, low, limit, past) == BreakEnd(text, patterns[1..], low, limit, past)
  {
    OccurrenceIsCut(text, patterns[0], low, limit, past);
  }

  /** Where the segment from `start` ends when the one before ended at `past`: with the text, if that is near
      enough; else after the last paragraph break of the last quarter that cuts past it, if there is one;
      else after the last such line break; else sentence end; else space; else at the size limit. */
  ghost predicate EndsWell(text: string, start: nat, past: nat, maxCharacters: nat, end: nat) {
    var limit := start + maxCharacters;
    var low := start + if maxCharacters * 3 / 4 > 1 then maxCharacters * 3 / 4 else 1;
    if limit >= |text| then end == |text|
    else if HasCut(text, "\n\n", low, limit, past) then IsLastCut(text, "\n\n", low, limit, past, end)
    else if HasCut(text, "\n", low, limit, past) then IsLastCut(text, "\n", low, limit, past, end)
    else if HasCut(text, ". ", low, limit, past) then IsLastCut(text, ". ", low, limit, past, end)
    else if HasCut(text, " ", low, limit, past) then IsLastCut(text, " ", low, limit, past, end)
    else end == limit
  }

  lemma EndIsPreferred(text: string, start: nat, past: nat, maxCharacters: nat)
    requires maxCharacters >= 1 && start < |text|
    ensures EndsWell(text, start, past, maxCharacters, EndOfSegment(text, start, past, maxCharacters))
  {
    hide BreakEnd, LastOccurrence, HasCut, IsLastCut;
    var limit := start + maxCharacters;
    if limit < |text| {
      var low := start + Floor(maxCharacters);
      var ps := BREAK_PATTERNS;
      BreakStep(text, ps, low, limit, past);
      BreakStep(text, ps[1..], low, limit, past);
      BreakStep(text, ps[1..][1..], low, limit, past);
      BreakStep(text, ps[1..][1..][1..], low, limit, past);
      assert ps[1..][1..][1..][1..] == [];
      NoPatternsLeft(text, low, limit, past);
    }
  }

  lemma NoPatternsLeft(text: string, low: nat, limit: nat, past: nat)
    requires limit <= |text|
    ensures BreakEnd(text, [], low, limit, past) == limit
  {
  }

  lemma {:induction false} SegmentsEndWell(text: string, maxCharacters: nat, overlap: nat, start: nat, past: nat,
                                           index: nat, i: nat)
    requires ValidSettings(maxCharacters, overlap) && start < |text|
    requires i < |SegmentsFrom(text, maxCharacters, overlap, start, past, index)|
    ensures var s := SegmentsFrom(text, maxCharacters, overlap, start, past, index);
            EndsWell(text, s[i].start, if i == 0 then past else s[i - 1].end, maxCharacters, s[i].end)
            && s[i].start == if i == 0 then start
                             else if s[i - 1].end - overlap > s[i - 1].start + 1 then s[i - 1].end - overlap
                             else s[i - 1].start + 1
    decreases |text| - start
  {
    hide EndOfSegment, EndsWell;
    SegmentsStep(text, maxCharacters, overlap, start, past, index);
    EndIsPreferred(text, start, past, maxCharacters);
    if i > 0 {
      var end := EndOfSegment(text, start, past, maxCharacters);
      SegmentsEndWell(text, maxCharacters, overlap, NextStart(start, end, overlap), end, index + 1, i - 1);
    }
  }

  /** Every segment starts `overlap` characters before the one in front of it ended, or one further than it
      started if that is later, and ends at the most preferred break there is. */
  lemma SegmentsBreakWell(text: string, maxCharacters: nat, overlap: nat, i: nat)
    requires ValidSettings(maxCharacters, overlap) && text != ""
    requires i < |Segments(text, maxCharacters, overlap)|
    ensures var s := Segments(text, maxCharacters, overlap);
            EndsWell(text, s[i].start, if i == 0 then 0 else s[i - 1].end, maxCharacters, s[i].end)
            && s[i].start == if i == 0 then 0
                             else if s[i - 1].end - overlap > s[i - 1].start + 1 then s[i - 1].end - overlap
                             else s[i - 1].start + 1
  {
    hide SegmentsFrom, EndsWell;
    SegmentsEndWell(text, maxCharacters, overlap, 0, 0, 0, i);
  }

  // ---------------------------------------------------------------------------
  // Containment
  // ---------------------------------------------------------------------------

  predicate Holds(s: Segment, a: nat, b: nat) {
    s.start <= a && b <= s.end
  }

  ghost predicate HeldWhole(segments: seq<Segment>, a: nat, b: nat) {
    exists i :: 0 <= i < |segments| && Holds(segments[i], a, b)
  }

  /** The length up to which no text can split a range across every segment. */
  function Guaranteed(maxCharacters: nat, overlap: nat): nat
    requires ValidSettings(maxCharacters, overlap)
  {
    var w := if maxCharacters * 3 / 4 > 1 then maxCharacters * 3 / 4 else 1;
    if overlap < w then overlap + 1 else w + 1
  }

  /** A short range reaching past a segment starts no earlier than the next one. */
  lemma ShortRangeMovesOn(s: Segment, t: Segment, maxCharacters: nat, overlap: nat, a: nat, b: nat)
    requires ValidSettings(maxCharacters, overlap) && Follows(s, t, maxCharacters, overlap)
    requires s.start <= a < b && s.end < b && b - a <= Guaranteed(maxCharacters, overlap)
    ensures t.start <= a
  {
  }

  lemma {:induction false} ShortRangeHeld(
    segments: seq<Segment>, length: nat, maxCharacters: nat, overlap: nat, a: nat, b: nat)
    requires ValidSettings(maxCharacters, overlap) && WellCut(segments, length, maxCharacters, overlap)
    requires segments[0].start <= a < b <= length
    requires b - a <= Guaranteed(maxCharacters, overlap)
    ensures HeldWhole(segments, a, b)
    decreases |segments|
  {
    hide Follows, Guaranteed;
    if b <= segments[0].end {
      assert Holds(segments[0], a, b);
    } else {
      var rest := segments[1..];
      ShortRangeMovesOn(segments[0], segments[1], maxCharacters, overlap, a, b);
      ShortRangeHeld(rest, length, maxCharacters, overlap, a, b);
      var i :| 0 <= i < |rest| && Holds(rest[i], a, b);
      assert Holds(segments[i + 1], a, b);
    }
  }

  lemma OccurrenceBegins(text: string, pattern: string, p: int)
    requires OccursAt(text, pattern, p) && pattern != ""
    ensures text[p] == pattern[0]
  {
    assert text[p..p + |pattern|][0] == text[p];
  }

  lemma {:induction false} NoBreakInLetters(text: string, patterns: seq<string>, low: nat, limit: nat, minimumEnd: nat)
    requires low <= limit <= |text|
    requires forall i :: low <= i < limit ==> text[i] == 'x'
    requires forall i :: 0 <= i < |patterns| ==> patterns[i] != "" && patterns[i][0] != 'x'
    ensures BreakEnd(text, patterns, low, limit, minimumEnd) == limit
  {
    if patterns != [] {
      var found := LastOccurrence(text, patterns[0], low, limit);
      if found != -1 {
        OccurrenceBegins(text, patterns[0], found);
      }
      NoBreakInLetters(text, patterns[1..], low, limit, minimumEnd);
    }
  }

  /** With nothing to break at, a segment is cut at the limit. */
  lemma HardCut(text: string, start: nat, minimumEnd: nat, maxCharacters: nat)
    requires maxCharacters >= 1 && start + maxCharacters < |text|
    requires forall i :: start <= i < start + maxCharacters ==> text[i] == 'x'
    ensures EndOfSegment(text, start, minimumEnd, maxCharacters) == start + maxCharacters
  {
    NoBreakInLetters(text, BREAK_PATTERNS, start + Floor(maxCharacters), start + maxCharacters, minimumEnd);
  }

  /** The only break is the space at the floor of the first segment. */
  lemma EarliestCut(text: string, maxCharacters: nat)
    requires maxCharacters > 1 && Floor(maxCharacters) < maxCharacters < |text|
    requires forall i :: 0 <= i < |text| ==> text[i] == if i == Floor(maxCharacters) then ' ' else 'x'
    ensures EndOfSegment(text, 0, 0, maxCharacters) == Floor(maxCharacters) + 1
  {
    var w := Floor(maxCharacters);
    var ps := BREAK_PATTERNS;
    forall k | 0 <= k < 3
      ensures LastOccurrence(text, ps[k], w, maxCharacters) == -1
    {
      var p := LastOccurrence(text, ps[k], w, maxCharacters);
      if p != -1 {
        OccurrenceBegins(text, ps[k], p);
      }
    }
    assert OccursAt(text, " ", w);
    var p := LastOccurrence(text, " ", w, maxCharacters);
    OccurrenceBegins(text, " ", p);
    assert ps[1..][0] == ps[1] && ps[1..][1..] == ps[2..] && ps[2..][0] == ps[2] && ps[2..][1..] == ps[3..];
    assert ps[3..][0] == " ";
    assert BreakEnd(text, ps[3..], w, maxCharacters, 0) == w + 1;
    assert BreakEnd(text, ps[2..], w, maxCharacters, 0) == w + 1;
    assert BreakEnd(text, ps[1..], w, maxCharacters, 0) == w + 1;
  }

  /** A text one of whose ranges, longer than guaranteed, is split across every segment. */
  function Splitter(maxCharacters: nat, overlap: nat, extra: nat): (text: string)
    requires ValidSettings(maxCharacters, overlap)
  {
    var length := maxCharacters + 1 + extra;
    if overlap < Floor(maxCharacters) then seq(length, _ => 'x')
    else seq(length, i => if i == Floor(maxCharacters) then ' ' else 'x')
  }

  /** Nothing longer is guaranteed: for every longer length there is a text, and a range of that
      length in it, that no segment holds. */
  lemma LongerRangeSplit(maxCharacters: nat, overlap: nat, length: nat) returns (text: string, a: nat)
    requires ValidSettings(maxCharacters, overlap) && length > Guaranteed(maxCharacters, overlap)
    ensures text != "" && a + length <= |text|
    ensures !HeldWhole(Segments(text, maxCharacters, overlap), a, a + length)
  {
    hide EndOfSegment, BreakEnd, LastOccurrence;
    text := Splitter(maxCharacters, overlap, length);
    var s := Segments(text, maxCharacters, overlap);
    SegmentsAreWellCut(text, maxCharacters, overlap, 0, 0, 0);
    if overlap < Floor(maxCharacters) {
      HardCut(text, 0, 0, maxCharacters);
      a := maxCharacters - overlap - 1;
    } else {
      EarliestCut(text, maxCharacters);
      a := 0;
    }
    assert s[0].end < a + length;
    assert s[0].end < |text|;
    assert |s| > 1 && a < s[1].start;
    forall i | 0 <= i < |s|
      ensures !Holds(s[i], a, a + length)
    {
      if i > 0 {
        LaterStarts(s, |text|, maxCharacters, overlap, 1, i);
      }
    }
  }

  lemma {:induction false} LaterStarts(
    segments: seq<Segment>, length: nat, maxCharacters: nat, overlap: nat, i: nat, j: nat)
    requires ValidSettings(maxCharacters, overlap) && WellCut(segments, length, maxCharacters, overlap)
    requires i <= j < |segments|
    ensures segments[i].start <= segments[j].start
    decreases j - i
  {
    hide MinimumLength, NextStart, Floor;
    if i < j {
      ChainAt(segments, length, maxCharacters, overlap, i);
      LaterStarts(segments, length, maxCharacters, overlap, i + 1, j);
    }
  }

  /** The range of `length` characters at `a`, if the text has one there, is whole in some segment. */
  ghost predicate Survives(text: string, maxCharacters: nat, overlap: nat, a: nat, length: nat)
    requires ValidSettings(maxCharacters, overlap)
  {
    text != "" && a + length <= |text| ==> HeldWhole(Segments(text, maxCharacters, overlap), a, a + length)
  }

  /** Ranges of a given length survive in every text, wherever they lie, exactly when that length is
      at most one more than the overlap and one more than three quarters of the segment size. */
  lemma ContainmentBound(maxCharacters: nat, overlap: nat, length: nat)
    requires ValidSettings(maxCharacters, overlap) && length > 0
    ensures (forall text: string, a: nat :: Survives(text, maxCharacters, overlap, a, length))
       <==> length <= Guaranteed(maxCharacters, overlap)
  {
    hide Guaranteed;
    if length <= Guaranteed(maxCharacters, overlap) {
      forall text: string, a: nat
        ensures Survives(text, maxCharacters, overlap, a, length)
      {
        if text != "" && a + length <= |text| {
          SegmentsAreWellCut(text, maxCharacters, overlap, 0, 0, 0);
          ShortRangeHeld(Segments(text, maxCharacters, overlap), |text|, maxCharacters, overlap, a, a + length);
        }
      }
    } else {
      var text, a := LongerRangeSplit(maxCharacters, overlap, length);
      assert !Survives(text, maxCharacters, overlap, a, length);
    }
  }

  ghost predicate AllSurvive(maxCharacters: nat, overlap: nat, length: nat)
    requires ValidSettings(maxCharacters, overlap)
  {
    forall text: string, a: nat :: Survives(text, maxCharacters, overlap, a, length)
  }

  /** The documented promise, that whatever is shorter than the overlap appears whole somewhere, is
      kept exactly while the overlap does not outgrow three quarters of the segment size. */
  lemma OverlapPromiseIff(maxCharacters: nat, overlap: nat)
    requires ValidSettings(maxCharacters, overlap)
    ensures (forall length: nat :: 0 < length < overlap ==> AllSurvive(maxCharacters, overlap, length))
       <==> overlap <= (if maxCharacters * 3 / 4 > 1 then maxCharacters * 3 / 4 else 1) + 2
  {
    forall length: nat | 0 < length < overlap
      ensures AllSurvive(maxCharacters, overlap, length) <==> length <= Guaranteed(maxCharacters, overlap)
    {
      ContainmentBound(maxCharacters, overlap, length);
    }
    if overlap > Floor(maxCharacters) + 2 {
      assert !AllSurvive(maxCharacters, overlap, overlap - 1);
    }
  }

  /** `to_global`: the document offset of an offset within a segment's own text. */
  function ToGlobal(s: Segment, offset: int): Result<nat, SegmentError>
    requires s.start <= s.end
  {
    if offset < 0 || offset > s.end - s.start then Err(OffsetOutOfSegment) else Ok(s.start + offset)
  }

  /** Mapping a range found in a segment back to the document selects the same characters, so one
      value found in two overlapping segments is recognised as one. */
  lemma GlobalRangeSameText(text: string, s: Segment, a: nat, b: nat)
    requires s.start <= s.end <= |text| && a <= b <= s.end - s.start
    ensures ToGlobal(s, a).Ok? && ToGlobal(s, b).Ok?
    ensures text[ToGlobal(s, a).value..ToGlobal(s, b).value] == text[s.start..s.end][a..b]
  {
    assert text[s.start..s.end][a..b] == text[s.start + a..s.start + b];
  }
}
