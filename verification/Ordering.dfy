/** Python's string order and its stable sort. */
module Ordering {
  /** `s <= t` on strings, by code point. */
  predicate StringLeq(s: string, t: string) {
    s == "" || (t != "" && (s[0] < t[0] || (s[0] == t[0] && StringLeq(s[1..], t[1..]))))
  }

  lemma {:induction false} StringLeqTotal(s: string, t: string)
    ensures StringLeq(s, t) || StringLeq(t, s)
  {
    if s != "" && t != "" && s[0] == t[0] {
      StringLeqTotal(s[1..], t[1..]);
    }
  }

  lemma {:induction false} StringLeqAntisymmetric(s: string, t: string)
    requires StringLeq(s, t) && StringLeq(t, s)
    ensures s == t
  {
    if s != "" && t != "" {
      StringLeqAntisymmetric(s[1..], t[1..]);
      assert s == [s[0]] + s[1..] && t == [t[0]] + t[1..];
    }
  }

  lemma {:induction false} StringLeqTransitive(s: string, t: string, u: string)
    requires StringLeq(s, t) && StringLeq(t, u)
    ensures StringLeq(s, u)
  {
    if s != "" && t != "" && u != "" && s[0] == t[0] && t[0] == u[0] {
      StringLeqTransitive(s[1..], t[1..], u[1..]);
    }
  }

  /** `s` is a prefix of `t`, or has the smaller character where the two first differ. */
  lemma {:induction false} StringLeqIff(s: string, t: string)
    ensures StringLeq(s, t) <==> s <= t || Precedes(s, t)
  {
    hide Precedes, FirstDifference;
    PrecedesStep(s, t);
    if s != "" && t != "" && s[0] == t[0] {
      StringLeqIff(s[1..], t[1..]);
      assert s == [s[0]] + s[1..] && t == [t[0]] + t[1..];
    }
  }

  ghost predicate Precedes(s: string, t: string) {
    exists k :: FirstDifference(s, t, k) && s[k] < t[k]
  }

  lemma PrecedesStep(s: string, t: string)
    ensures s == "" || t == "" ==> !Precedes(s, t)
    ensures s != "" && t != "" && s[0] != t[0] ==> (Precedes(s, t) <==> s[0] < t[0])
    ensures s != "" && t != "" && s[0] == t[0] ==> (Precedes(s, t) <==> Precedes(s[1..], t[1..]))
  {
    if s != "" && t != "" {
      if s[0] != t[0] {
        assert FirstDifference(s, t, 0);
        assert forall k :: FirstDifference(s, t, k) ==> k == 0 || s[..k][0] == t[..k][0];
      } else {
        var u, v := s[1..], t[1..];
        if Precedes(u, v) {
          var k :| FirstDifference(u, v, k) && u[k] < v[k];
          DifferenceStep(s, t, k);
        }
        if Precedes(s, t) {
          var k :| FirstDifference(s, t, k) && s[k] < t[k];
          DifferenceStep(s, t, k - 1);
        }
      }
    }
  }

  lemma DifferenceStep(s: string, t: string, k: int)
    requires s != "" && t != "" && s[0] == t[0] && k >= 0
    ensures FirstDifference(s, t, k + 1) <==> FirstDifference(s[1..], t[1..], k)
    ensures FirstDifference(s, t, k + 1) ==> s[k + 1] == s[1..][k] && t[k + 1] == t[1..][k]
  {
    if k < |s| - 1 && k < |t| - 1 {
      assert s[..k + 1] == [s[0]] + s[1..][..k] && t[..k + 1] == [t[0]] + t[1..][..k];
      if s[..k + 1] == t[..k + 1] {
        assert s[1..][..k] == s[..k + 1][1..] && t[1..][..k] == t[..k + 1][1..];
      }
    }
  }

  predicate FirstDifference(s: string, t: string, k: int) {
    0 <= k < |s| && k < |t| && s[k] != t[k] && s[..k] == t[..k]
  }

  // ---------------------------------------------------------------------------
  // Sorting
  // ---------------------------------------------------------------------------

  ghost predicate TotalPreorder<T(!new)>(leq: (T, T) -> bool) {
    && (forall x, y :: leq(x, y) || leq(y, x))
    && (forall x, y, z :: leq(x, y) && leq(y, z) ==> leq(x, z))
  }

  ghost predicate Sorted<T>(leq: (T, T) -> bool, s: seq<T>) {
    forall i, j :: 0 <= i < j < |s| ==> leq(s[i], s[j])
  }

  function Insert<T>(leq: (T, T) -> bool, x: T, s: seq<T>): seq<T> {
    if s == [] || leq(x, s[0]) then [x] + s else [s[0]] + Insert(leq, x, s[1..])
  }

  /** `sorted(s, key=...)`: equal elements keep their order. */
  function Sort<T>(leq: (T, T) -> bool, s: seq<T>): seq<T> {
    if s == [] then [] else Insert(leq, s[0], Sort(leq, s[1..]))
  }

  lemma {:induction false} InsertContents<T>(leq: (T, T) -> bool, x: T, s: seq<T>)
    ensures multiset(Insert(leq, x, s)) == multiset{x} + multiset(s)
  {
    if s != [] && !leq(x, s[0]) {
      InsertContents(leq, x, s[1..]);
      assert s == [s[0]] + s[1..];
    }
  }

  lemma {:induction false} SortContents<T>(leq: (T, T) -> bool, s: seq<T>)
    ensures multiset(Sort(leq, s)) == multiset(s)
    ensures |Sort(leq, s)| == |s|
    ensures forall x :: x in Sort(leq, s) <==> x in s
  {
    if s != [] {
      SortContents(leq, s[1..]);
      InsertContents(leq, s[0], Sort(leq, s[1..]));
      assert s == [s[0]] + s[1..];
    }
    assert |multiset(Sort(leq, s))| == |multiset(s)|;
    assert forall x :: x in Sort(leq, s) <==> x in multiset(Sort(leq, s));
  }

  lemma {:induction false} InsertSorted<T(!new)>(leq: (T, T) -> bool, x: T, s: seq<T>)
    requires TotalPreorder(leq) && Sorted(leq, s)
    ensures Sorted(leq, Insert(leq, x, s))
  {
    if s != [] && !leq(x, s[0]) {
      InsertSorted(leq, x, s[1..]);
      InsertContents(leq, x, s[1..]);
      var rest := Insert(leq, x, s[1..]);
      forall y | y in rest
        ensures leq(s[0], y)
      {
        assert y in multiset(rest);
        assert y == x || y in s[1..];
      }
      var r := [s[0]] + rest;
      assert forall j :: 1 <= j < |r| ==> r[j] == rest[j - 1] && r[j] in rest;
    }
  }

  lemma {:induction false} SortSorted<T(!new)>(leq: (T, T) -> bool, s: seq<T>)
    requires TotalPreorder(leq)
    ensures Sorted(leq, Sort(leq, s))
  {
    if s != [] {
      SortSorted(leq, s[1..]);
      InsertSorted(leq, s[0], Sort(leq, s[1..]));
    }
  }

  /** Sorting leaves alone a sequence that is already in order. */
  lemma {:induction false} SortOfSorted<T>(leq: (T, T) -> bool, s: seq<T>)
    requires Sorted(leq, s)
    ensures Sort(leq, s) == s
  {
    if s != [] {
      assert Sorted(leq, s[1..]);
      SortOfSorted(leq, s[1..]);
    }
  }
}
