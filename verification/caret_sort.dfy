/**
 * Sorting carets by visual position, as the caret model does whenever it needs the
 * carets in document order (getAllCarets and the merge of overlapping carets).
 * The library sort used there is stable, so the model's sort is a stable insertion
 * sort, and stability is proved below.
 */
module CaretSort {
  import opened CaretValues

  /** Ascending by line, then column; carets at the same position may come in any order. */
  predicate Sorted(s: seq<Caret>) {
    forall i, j :: 0 <= i < j < |s| ==> CompareCarets(s[i], s[j]) <= 0
  }

  /** Strictly ascending: no two carets share a position. */
  predicate StrictlySorted(s: seq<Caret>) {
    forall i, j :: 0 <= i < j < |s| ==> CompareCarets(s[i], s[j]) < 0
  }

  /**
   * Inserts `x` into the sorted list `r` after every caret that is not after it, so that
   * `x` follows the carets at its own position that were already there.
   */
  function Insert(r: seq<Caret>, x: Caret): (t: seq<Caret>)
    requires Sorted(r)
    ensures Sorted(t)
    ensures multiset(t) == multiset(r) + multiset{x}
    ensures |t| == |r| + 1
    decreases |r|
  {
    if r == [] then [x]
    else if CompareCarets(r[|r| - 1], x) <= 0 then
      AppendSorted(r, x);
      r + [x]
    else
      var init, last := r[..|r| - 1], r[|r| - 1];
      assert r == init + [last];
      var t' := Insert(init, x);
      forall i | 0 <= i < |t'| ensures CompareCarets(t'[i], last) <= 0 {
        assert t'[i] in multiset(init) + multiset{x};
        if t'[i] != x {
          assert t'[i] in init;
        }
      }
      AppendSorted(t', last);
      t' + [last]
  }

  /** Appending a caret that no caret of a sorted list comes after keeps it sorted. */
  lemma AppendSorted(s: seq<Caret>, y: Caret)
    requires Sorted(s)
    requires forall i :: 0 <= i < |s| ==> CompareCarets(s[i], y) <= 0
    ensures Sorted(s + [y])
  {
  }

  /** The carets of `s` sorted by visual position (a stable sort). */
  function SortCarets(s: seq<Caret>): (r: seq<Caret>)
    ensures Sorted(r)
    ensures multiset(r) == multiset(s)
    ensures |r| == |s|
  {
    if s == [] then []
    else
      assert s == s[..|s| - 1] + [s[|s| - 1]];
      Insert(SortCarets(s[..|s| - 1]), s[|s| - 1])
  }

  /** The carets of `s` that sit at position `p`, in the order they have in `s`. */
  function AtPosition(s: seq<Caret>, p: VisualPosition): seq<Caret> {
    if s == [] then []
    else AtPosition(s[..|s| - 1], p) + (if s[|s| - 1].pos == p then [s[|s| - 1]] else [])
  }

  lemma AtPositionAppend(s: seq<Caret>, y: Caret, p: VisualPosition)
    ensures AtPosition(s + [y], p) == AtPosition(s, p) + (if y.pos == p then [y] else [])
  {
    assert (s + [y])[..|s|] == s;
  }

  /** Inserting `x` appends it to the carets at its position and leaves the others alone. */
  lemma {:induction false} InsertStable(r: seq<Caret>, x: Caret, p: VisualPosition)
    requires Sorted(r)
    ensures AtPosition(Insert(r, x), p) == AtPosition(r, p) + (if x.pos == p then [x] else [])
    decreases |r|
  {
    if r == [] {
      AtPositionAppend([], x, p);
    } else if CompareCarets(r[|r| - 1], x) <= 0 {
      AtPositionAppend(r, x, p);
    } else {
      var init, last := r[..|r| - 1], r[|r| - 1];
      assert r == init + [last];
      InsertStable(init, x, p);
      AtPositionAppend(Insert(init, x), last, p);
      AtPositionAppend(init, last, p);
    }
  }

  /**
   * Stability: for every position, the carets at that position come out of the sort
   * in the order they went in.
   */
  lemma {:induction false} SortCaretsStable(s: seq<Caret>, p: VisualPosition)
    ensures AtPosition(SortCarets(s), p) == AtPosition(s, p)
  {
    if s != [] {
      var init, last := s[..|s| - 1], s[|s| - 1];
      SortCaretsStable(init, p);
      InsertStable(SortCarets(init), last, p);
    }
  }

  /** Stability for every position at once. */
  lemma SortCaretsStableEverywhere(s: seq<Caret>)
    ensures forall p :: AtPosition(SortCarets(s), p) == AtPosition(s, p)
  {
    forall p ensures AtPosition(SortCarets(s), p) == AtPosition(s, p) {
      SortCaretsStable(s, p);
    }
  }

  /**
   * A strictly sorted list is the only sorted arrangement of its carets: any sorted
   * permutation of it equals it.
   */
  lemma {:induction false} SortedPermutationUnique(s: seq<Caret>, t: seq<Caret>)
    requires StrictlySorted(s) && Sorted(t)
    requires multiset(s) == multiset(t)
    ensures s == t
    decreases |s|
  {
    assert |s| == |multiset(s)| == |multiset(t)| == |t|;
    if s != [] {
      FirstsAgree(s, t);
      MultisetTail(s);
      MultisetTail(t);
      assert StrictlySorted(s[1..]);
      assert Sorted(t[1..]);
      SortedPermutationUnique(s[1..], t[1..]);
      assert s == [s[0]] + s[1..] && t == [t[0]] + t[1..];
    }
  }

  lemma MultisetTail(s: seq<Caret>)
    requires s != []
    ensures multiset(s[1..]) == multiset(s) - multiset{s[0]}
  {
    assert s == [s[0]] + s[1..];
  }

  /** The first caret of a strictly sorted list is the first of every sorted permutation. */
  lemma FirstsAgree(s: seq<Caret>, t: seq<Caret>)
    requires StrictlySorted(s) && Sorted(t)
    requires multiset(s) == multiset(t) && s != [] && t != []
    ensures s[0] == t[0]
  {
    assert s[0] in multiset(t);
    var k :| 0 <= k < |t| && t[k] == s[0];
    assert t[0] in multiset(s);
    var m :| 0 <= m < |s| && s[m] == t[0];
  }

  /** A sorted list in which neighbours never share a position is strictly sorted. */
  lemma SortedDistinctNeighbours(s: seq<Caret>)
    requires Sorted(s)
    requires forall j :: 0 < j < |s| ==> s[j - 1].pos != s[j].pos
    ensures StrictlySorted(s)
  {
    forall i, j | 0 <= i < j < |s| ensures CompareCarets(s[i], s[j]) < 0 {
      assert CompareCarets(s[j - 1], s[j]) < 0;
      if i < j - 1 {
        assert CompareCarets(s[i], s[j - 1]) <= 0;
      }
    }
  }
}
