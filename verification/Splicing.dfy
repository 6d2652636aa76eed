/** Replacing ranges of a text: the left-to-right meaning that both the tokenizer's right-to-left
    splice and restoration's single pass are held to. */
module Splicing {
  import opened Bytes

  datatype Cut = Cut(start: nat, end: nat, replacement: string)

  /** Cuts in order, without overlaps, all between `cursor` and `length`. */
  predicate Fits(cuts: seq<Cut>, cursor: nat, length: nat) {
    cursor <= length
    && (cuts == [] ||
        (cursor <= cuts[0].start <= cuts[0].end && Fits(cuts[1..], cuts[0].end, length)))
  }

  /** The text from `cursor` on, with every cut range replaced. */
  function Splice(text: string, cuts: seq<Cut>, cursor: nat): string
    requires Fits(cuts, cursor, |text|)
  {
    if cuts == [] then text[cursor..]
    else
      FitsWithin(cuts, cursor, |text|);
      text[cursor..cuts[0].start] + cuts[0].replacement + Splice(text, cuts[1..], cuts[0].end)
  }

  lemma {:induction false} FitsWithin(cuts: seq<Cut>, cursor: nat, length: nat)
    requires Fits(cuts, cursor, length)
    ensures forall i :: 0 <= i < |cuts| ==> cursor <= cuts[i].start <= cuts[i].end <= length
  {
    if cuts != [] {
      FitsWithin(cuts[1..], cuts[0].end, length);
      forall i | 0 <= i < |cuts|
        ensures cursor <= cuts[i].start <= cuts[i].end <= length
      {
        if i > 0 {
          assert cuts[i] == cuts[1..][i - 1];
        }
      }
    }
  }

  lemma FitsEarlier(cuts: seq<Cut>, cursor: nat, earlier: nat, length: nat)
    requires Fits(cuts, cursor, length) && earlier <= cursor
    ensures Fits(cuts, earlier, length)
  {
  }

  /** Where the untouched text in front of the first cut ends. */
  function FirstStart(cuts: seq<Cut>, length: nat): nat {
    if cuts == [] then length else cuts[0].start
  }

  /** The untouched text in front of the first cut can be split off. */
  lemma SpliceFrom(text: string, cuts: seq<Cut>, cursor: nat)
    requires Fits(cuts, cursor, |text|)
    ensures cursor <= FirstStart(cuts, |text|) <= |text|
    ensures Fits(cuts, FirstStart(cuts, |text|), |text|)
    ensures Splice(text, cuts, cursor)
         == text[cursor..FirstStart(cuts, |text|)] + Splice(text, cuts, FirstStart(cuts, |text|))
  {
    FitsWithin(cuts, cursor, |text|);
    if cuts != [] {
      var s := cuts[0].start;
      assert text[s..s] == "";
      assert text[cursor..s] + (text[s..s] + cuts[0].replacement + Splice(text, cuts[1..], cuts[0].end))
          == text[cursor..s] + cuts[0].replacement + Splice(text, cuts[1..], cuts[0].end);
    } else {
      assert text[|text|..] == "" && text[cursor..|text|] == text[cursor..];
    }
  }

  lemma SpliceHere(text: string, c: Cut, rest: seq<Cut>)
    requires Fits([c] + rest, c.start, |text|)
    ensures Fits(rest, c.end, |text|)
    ensures Splice(text, [c] + rest, c.start) == c.replacement + Splice(text, rest, c.end)
  {
    assert ([c] + rest)[1..] == rest;
    FitsWithin([c] + rest, c.start, |text|);
    assert ([c] + rest)[0] == c;
    assert text[c.start..c.start] == "";
  }

  lemma SpliceFurther(text: string, cuts: seq<Cut>, pos: nat)
    requires Fits(cuts, pos + 1, |text|)
    ensures Fits(cuts, pos, |text|)
    ensures Splice(text, cuts, pos) == [text[pos]] + Splice(text, cuts, pos + 1)
  {
    FitsWithin(cuts, pos + 1, |text|);
    if cuts == [] {
      assert text[pos..] == [text[pos]] + text[pos + 1..];
    } else {
      assert text[pos..cuts[0].start] == [text[pos]] + text[pos + 1..cuts[0].start];
    }
  }

  lemma SpliceHead(text: string, cuts: seq<Cut>, cursor: nat)
    requires Fits(cuts, cursor, |text|) && cuts != []
    ensures cursor <= cuts[0].start <= cuts[0].end <= |text| && Fits(cuts[1..], cuts[0].end, |text|)
    ensures Splice(text, cuts, cursor)
         == text[cursor..cuts[0].start] + cuts[0].replacement + Splice(text, cuts[1..], cuts[0].end)
  {
    FitsWithin(cuts, cursor, |text|);
  }

  lemma SpliceNil(text: string, cursor: nat)
    requires cursor <= |text|
    ensures Splice(text, [], cursor) == text[cursor..]
  {
  }

  function Reversed<T>(s: seq<T>): seq<T> {
    if s == [] then [] else Reversed(s[1..]) + [s[0]]
  }

  lemma {:induction false} ReversedSnoc<T>(s: seq<T>, x: T)
    ensures Reversed(s + [x]) == [x] + Reversed(s)
  {
    if s == [] {
      assert [x][1..] == [];
    } else {
      assert (s + [x])[1..] == s[1..] + [x];
      ReversedSnoc(s[1..], x);
    }
  }

  lemma JoinReversedSnoc(s: seq<string>, x: string)
    ensures Join(Reversed(s + [x])) == x + Join(Reversed(s))
  {
    ReversedSnoc(s, x);
    assert ([x] + Reversed(s))[1..] == Reversed(s);
  }

  /** Prepending a cut to a splice that begins at its own first cut. */
  lemma SpliceCons(text: string, c: Cut, cuts: seq<Cut>)
    requires Fits([c] + cuts, c.start, |text|)
    ensures Fits(cuts, c.end, |text|) && c.end <= FirstStart(cuts, |text|)
    ensures Fits(cuts, FirstStart(cuts, |text|), |text|)
    ensures Splice(text, [c] + cuts, c.start)
         == c.replacement + text[c.end..FirstStart(cuts, |text|)] + Splice(text, cuts, FirstStart(cuts, |text|))
  {
    hide Fits, Splice;
    SpliceHere(text, c, cuts);
    SpliceFrom(text, cuts, c.end);
  }

  // ---------------------------------------------------------------------------
  // Gaps
  // ---------------------------------------------------------------------------

  /** The pieces of text that no cut touches, one more than there are cuts. */
  function Gaps(text: string, cuts: seq<Cut>, cursor: nat): (gaps: seq<string>)
    requires Fits(cuts, cursor, |text|)
    ensures |gaps| == |cuts| + 1
  {
    if cuts == [] then [text[cursor..]]
    else
      FitsWithin(cuts, cursor, |text|);
      [text[cursor..cuts[0].start]] + Gaps(text, cuts[1..], cuts[0].end)
  }

  function Replacements(cuts: seq<Cut>): (r: seq<string>)
    ensures |r| == |cuts|
    ensures forall i :: 0 <= i < |r| ==> r[i] == cuts[i].replacement
  {
    seq(|cuts|, i requires 0 <= i < |cuts| => cuts[i].replacement)
  }

  /** Gap, replacement, gap, ..., gap. */
  function Interleave(gaps: seq<string>, replacements: seq<string>): string
    requires |gaps| == |replacements| + 1
  {
    if replacements == [] then gaps[0]
    else gaps[0] + replacements[0] + Interleave(gaps[1..], replacements[1..])
  }

  /** A splice depends on the text only through its gaps. */
  lemma {:induction false} SpliceIsInterleave(text: string, cuts: seq<Cut>, cursor: nat)
    requires Fits(cuts, cursor, |text|)
    ensures Splice(text, cuts, cursor) == Interleave(Gaps(text, cuts, cursor), Replacements(cuts))
  {
    if cuts != [] {
      SpliceIsInterleave(text, cuts[1..], cuts[0].end);
      assert Gaps(text, cuts, cursor)[1..] == Gaps(text, cuts[1..], cuts[0].end);
      assert Replacements(cuts)[1..] == Replacements(cuts[1..]);
    }
  }
}
