/**
 * The merge of overlapping carets and selections, as a function of the caret list.
 *
 * The caret model sorts a copy of its caret list by position and walks it with a cursor.
 * At each step it looks at the caret before the cursor and the caret at the cursor; when
 * they share a position or their selections overlap, one of them is removed from both
 * lists, the survivor gets the union of the two selections (when that is not empty), and
 * the cursor steps back by one so that the survivor is compared with its new predecessor.
 * `MergeFrom` is that walk written as a recursive function; the lemmas below state what
 * it achieves.
 */
module CaretMerge {
  import opened Options
  import opened CaretValues
  import opened CaretSort

  function Min(a: int, b: int): int { if a <= b then a else b }
  function Max(a: int, b: int): int { if a >= b then a else b }

  /** Two carets neighbouring in position order are merged when they share a position or their selections overlap. */
  predicate ShouldMerge(prev: Caret, curr: Caret): (b: bool)
    ensures b <==> curr.pos == prev.pos
                   || (prev.SelectionStart() < prev.SelectionEnd() && curr.SelectionStart() < curr.SelectionEnd()
                       && prev.SelectionStart() < curr.SelectionEnd() && curr.SelectionStart() < prev.SelectionEnd())
  {
    curr.pos == prev.pos
    || Max(curr.SelectionStart(), prev.SelectionStart()) < Min(curr.SelectionEnd(), prev.SelectionEnd())
  }

  /** Of a merged pair the earlier caret survives exactly when the later caret's offset lies in the earlier one's selection. */
  predicate KeepsEarlier(prev: Caret, curr: Caret) {
    prev.SelectionContains(curr.offset)
  }

  /** The outcome of merging one pair: the surviving caret (with its new selection), the removed one, and whether the selection was set. */
  datatype MergedPair = MergedPair(retained: Caret, removed: Caret, selectionSet: bool)

  /** Merges the neighbouring carets `prev` and `curr` into one. */
  function MergePair(prev: Caret, curr: Caret): (m: MergedPair)
    ensures m.removed == (if KeepsEarlier(prev, curr) then curr else prev)
    ensures var survivor := if KeepsEarlier(prev, curr) then prev else curr;
            m.retained.id == survivor.id && m.retained.pos == survivor.pos
            && m.retained.offset == survivor.offset
            && (!m.selectionSet ==> m.retained == survivor)
    ensures m.selectionSet <==> Min(curr.SelectionStart(), prev.SelectionStart()) < Max(curr.SelectionEnd(), prev.SelectionEnd())
    ensures m.selectionSet ==>
              m.retained.SelectionStart() < m.retained.SelectionEnd()
              && m.retained.SelectionStart() <= prev.SelectionStart() && m.retained.SelectionStart() <= curr.SelectionStart()
              && m.retained.SelectionEnd() >= prev.SelectionEnd() && m.retained.SelectionEnd() >= curr.SelectionEnd()
    ensures m.selectionSet ==>
              m.retained == (if KeepsEarlier(prev, curr) then prev else curr).(selection :=
                Some(Segment(Min(curr.SelectionStart(), prev.SelectionStart()), Max(curr.SelectionEnd(), prev.SelectionEnd()))))
  {
    var newStart := Min(curr.SelectionStart(), prev.SelectionStart());
    var newEnd := Max(curr.SelectionEnd(), prev.SelectionEnd());
    var keep := if KeepsEarlier(prev, curr) then prev else curr;
    var drop := if KeepsEarlier(prev, curr) then curr else prev;
    if newStart < newEnd then MergedPair(keep.(selection := Some(Segment(newStart, newEnd))), drop, true)
    else MergedPair(keep, drop, false)
  }

  /** Index of the first caret with id `id`, or |s| when there is none. */
  function IndexOfId(s: seq<Caret>, id: nat): (k: nat)
    ensures k <= |s|
    ensures k < |s| ==> s[k].id == id
    ensures forall j :: 0 <= j < k ==> s[j].id != id
  {
    if s == [] then 0
    else if s[0].id == id then 0
    else 1 + IndexOfId(s[1..], id)
  }

  /** Whether caret `id` can be removed from `s`: it is in the list and is not its only caret. */
  predicate CanRemove(s: seq<Caret>, id: nat) {
    |s| > 1 && IndexOfId(s, id) < |s|
  }

  /** The list without the caret `id` (the list itself when that caret is not in it). */
  function RemoveById(s: seq<Caret>, id: nat): (r: seq<Caret>)
    ensures IndexOfId(s, id) < |s| ==> |r| == |s| - 1
    ensures IndexOfId(s, id) == |s| ==> r == s
  {
    var k := IndexOfId(s, id);
    if k < |s| then s[..k] + s[k + 1..] else s
  }

  /** Removing a caret present in the list takes exactly its id out of the list's ids. */
  lemma RemoveByIdIds(s: seq<Caret>, id: nat)
    requires IndexOfId(s, id) < |s|
    ensures multiset(Ids(RemoveById(s, id))) + multiset{id} == multiset(Ids(s))
  {
    var k := IndexOfId(s, id);
    var a, x, b := s[..k], s[k], s[k + 1..];
    assert RemoveById(s, id) == a + b;
    assert s == (a + [x]) + b;
    IdsAppend(a, b);
    IdsAppend(a + [x], b);
    IdsAppend(a, [x]);
    assert Ids([x]) == [id];
    assert multiset(Ids(s)) == multiset(Ids(a)) + multiset{id} + multiset(Ids(b));
  }

  /** The list after the caret object `c.id` has taken on the state `c`. */
  function Replace(s: seq<Caret>, c: Caret): (r: seq<Caret>)
    ensures |r| == |s| && Ids(r) == Ids(s)
  {
    seq(|s|, i requires 0 <= i < |s| => if s[i].id == c.id then c else s[i])
  }

  /** The result of a merge: the new caret list, the ids of the removed carets in removal order, and the final sorted copy. */
  datatype MergeOutcome = MergeOutcome(carets: seq<Caret>, removed: seq<nat>, sorted: seq<Caret>)

  /** The sorted copy after merging the pair just before and at the cursor `c`: the survivor takes the pair's place. */
  function StepCopy(copy: seq<Caret>, c: nat): seq<Caret>
    requires 0 < c < |copy|
  {
    copy[..c - 1] + [MergePair(copy[c - 1], copy[c]).retained] + copy[c + 1..]
  }

  /** Whether the removal of that pair's loser from the caret list succeeds. */
  predicate StepRemoves(copy: seq<Caret>, list: seq<Caret>, c: nat)
    requires 0 < c < |copy|
  {
    CanRemove(list, MergePair(copy[c - 1], copy[c]).removed.id)
  }

  /** The caret list after that merge: the loser removed (if removeCaret allows it), then the survivor's selection set. */
  function StepList(copy: seq<Caret>, list: seq<Caret>, c: nat): seq<Caret>
    requires 0 < c < |copy|
  {
    var m := MergePair(copy[c - 1], copy[c]);
    var afterRemove := if StepRemoves(copy, list, c) then RemoveById(list, m.removed.id) else list;
    if m.selectionSet then Replace(afterRemove, m.retained) else afterRemove
  }

  /**
   * The walk over the sorted copy `copy` with cursor `c`, removing merged carets from the
   * caret list `list` as removeCaret would (which refuses to remove the only caret or a
   * caret not in the list).
   */
  function MergeFrom(copy: seq<Caret>, list: seq<Caret>, c: nat): (m: MergeOutcome)
    requires c <= |copy|
    decreases 2 * |copy| - c
  {
    if c == |copy| then MergeOutcome(list, [], copy)
    else if c > 0 && ShouldMerge(copy[c - 1], copy[c]) then
      var rest := MergeFrom(StepCopy(copy, c), StepList(copy, list, c), c - 1);
      var removed := if StepRemoves(copy, list, c) then [MergePair(copy[c - 1], copy[c]).removed.id] else [];
      MergeOutcome(rest.carets, removed + rest.removed, rest.sorted)
    else
      MergeFrom(copy, list, c + 1)
  }

  /** One merge step takes exactly the removed caret's id out of the caret list, and nothing else. */
  lemma StepListIds(copy: seq<Caret>, list: seq<Caret>, c: nat)
    requires 0 < c < |copy|
    ensures var gone := if StepRemoves(copy, list, c) then [MergePair(copy[c - 1], copy[c]).removed.id] else [];
            && |StepList(copy, list, c)| + |gone| == |list|
            && multiset(Ids(StepList(copy, list, c))) + multiset(gone) == multiset(Ids(list))
  {
    var m := MergePair(copy[c - 1], copy[c]);
    var afterRemove := if StepRemoves(copy, list, c) then RemoveById(list, m.removed.id) else list;
    if StepRemoves(copy, list, c) {
      RemoveByIdIds(list, m.removed.id);
    }
    assert multiset(Ids(StepList(copy, list, c))) == multiset(Ids(afterRemove));
  }

  /**
   * The walk accounts for every caret it removes: the removed ids together with the ids
   * left in the list are exactly the ids the list started with.
   */
  lemma {:induction false} MergeFromAccounts(copy: seq<Caret>, list: seq<Caret>, c: nat)
    requires c <= |copy|
    ensures |MergeFrom(copy, list, c).carets| + |MergeFrom(copy, list, c).removed| == |list|
    ensures multiset(Ids(MergeFrom(copy, list, c).carets)) + multiset(MergeFrom(copy, list, c).removed) == multiset(Ids(list))
    decreases 2 * |copy| - c
  {
    if c == |copy| {
    } else if c > 0 && ShouldMerge(copy[c - 1], copy[c]) {
      StepListIds(copy, list, c);
      MergeFromAccounts(StepCopy(copy, c), StepList(copy, list, c), c - 1);
    } else {
      MergeFromAccounts(copy, list, c + 1);
    }
  }

  /**
   * mergeOverlappingCaretsAndSelections as a function of the caret list: nothing happens
   * when multiple carets are not supported or there is at most one caret; otherwise the
   * walk runs over a position-sorted copy of the list.
   */
  function Merged(list: seq<Caret>, supportsMultipleCarets: bool): MergeOutcome
  {
    if !supportsMultipleCarets || |list| <= 1 then MergeOutcome(list, [], list)
    else MergeFrom(SortCarets(list), list, 0)
  }

  /** No two neighbours of the list share a position or have overlapping selections. */
  predicate NoMergeableNeighbours(s: seq<Caret>) {
    forall j :: 0 < j < |s| ==> !ShouldMerge(s[j - 1], s[j])
  }

  /** The id, position and offset of a caret: what merging never changes. */
  function Anchor(x: Caret): (nat, VisualPosition, int) {
    (x.id, x.pos, x.offset)
  }

  function Anchors(s: seq<Caret>): set<(nat, VisualPosition, int)> {
    set x | x in s :: Anchor(x)
  }

  /** The conditions the walk keeps: the copy is a sorted permutation of the list, ids are distinct, no pair before the cursor merges. */
  ghost predicate WalkInv(copy: seq<Caret>, list: seq<Caret>, c: nat) {
    && c <= |copy|
    && Sorted(copy)
    && DistinctIds(copy)
    && DistinctIds(list)
    && multiset(copy) == multiset(list)
    && |list| >= 1
    && (forall j :: 0 < j < c ==> !ShouldMerge(copy[j - 1], copy[j]))
  }

  lemma IndexOfPresent(s: seq<Caret>, x: Caret)
    requires DistinctIds(s) && x in s
    ensures IndexOfId(s, x.id) < |s| && s[IndexOfId(s, x.id)] == x
  {
    var j :| 0 <= j < |s| && s[j] == x;
    var k := IndexOfId(s, x.id);
    assert k <= j;
  }

  lemma RemovePresent(s: seq<Caret>, x: Caret)
    requires DistinctIds(s) && x in s
    ensures multiset(RemoveById(s, x.id)) + multiset{x} == multiset(s)
    ensures DistinctIds(RemoveById(s, x.id))
    ensures |RemoveById(s, x.id)| == |s| - 1
    ensures forall y :: y in RemoveById(s, x.id) ==> y in s
  {
    IndexOfPresent(s, x);
    var k := IndexOfId(s, x.id);
    var r := s[..k] + s[k + 1..];
    assert RemoveById(s, x.id) == r;
    assert s == s[..k] + [x] + s[k + 1..];
    assert multiset(s) == multiset(s[..k]) + multiset{x} + multiset(s[k + 1..]);
    DeleteAtDistinct(s, k);
  }

  lemma DeleteAtDistinct(s: seq<Caret>, k: nat)
    requires DistinctIds(s) && k < |s|
    ensures DistinctIds(s[..k] + s[k + 1..])
  {
    var r := s[..k] + s[k + 1..];
    forall i, j | 0 <= i < j < |r| ensures r[i].id != r[j].id {
      var i' := if i < k then i else i + 1;
      var j' := if j < k then j else j + 1;
      assert r[i] == s[i'] && r[j] == s[j'];
    }
  }

  lemma ReplacePresent(s: seq<Caret>, y: Caret, r: Caret)
    requires DistinctIds(s) && y in s && r.id == y.id
    ensures multiset(Replace(s, r)) + multiset{y} == multiset(s) + multiset{r}
    ensures DistinctIds(Replace(s, r))
    ensures forall z :: z in Replace(s, r) ==> z in s || z == r
  {
    var k :| 0 <= k < |s| && s[k] == y;
    assert Replace(s, r) == s[k := r];
  }

  lemma CopyStepMultiset(copy: seq<Caret>, c: nat, r: Caret)
    requires 0 < c < |copy|
    ensures multiset(copy[..c - 1] + [r] + copy[c + 1..]) + multiset{copy[c - 1], copy[c]}
            == multiset(copy) + multiset{r}
  {
    assert copy == copy[..c - 1] + [copy[c - 1], copy[c]] + copy[c + 1..];
  }

  lemma CopyStepSorted(copy: seq<Caret>, c: nat, r: Caret)
    requires 0 < c < |copy| && Sorted(copy)
    requires r.pos == copy[c - 1].pos || r.pos == copy[c].pos
    ensures Sorted(copy[..c - 1] + [r] + copy[c + 1..])
  {
    var t := copy[..c - 1] + [r] + copy[c + 1..];
    assert forall i :: 0 <= i < |t| ==> t[i] == if i < c - 1 then copy[i] else if i == c - 1 then r else copy[i + 1];
    assert CompareCarets(copy[c - 1], copy[c]) <= 0;
  }

  lemma CopyStepDistinct(copy: seq<Caret>, c: nat, r: Caret)
    requires 0 < c < |copy| && DistinctIds(copy)
    requires r.id == copy[c - 1].id || r.id == copy[c].id
    ensures DistinctIds(copy[..c - 1] + [r] + copy[c + 1..])
  {
    var t := copy[..c - 1] + [r] + copy[c + 1..];
    assert forall i :: 0 <= i < |t| ==> t[i] == if i < c - 1 then copy[i] else if i == c - 1 then r else copy[i + 1];
  }

  /** Removing caret `x` and then giving caret `y` the state `r` (or leaving it, when `r` is `y`). */
  lemma RemoveThenReplace(list: seq<Caret>, x: Caret, y: Caret, r: Caret, setIt: bool)
    requires DistinctIds(list) && x in list && y in list && x.id != y.id && r.id == y.id
    requires !setIt ==> r == y
    ensures var afterRemove := RemoveById(list, x.id);
            var l := if setIt then Replace(afterRemove, r) else afterRemove;
            && multiset(l) + multiset{x, y} == multiset(list) + multiset{r}
            && multiset(l) + multiset{y, x} == multiset(list) + multiset{r}
            && DistinctIds(l)
            && |l| == |list| - 1
            && (forall z :: z in l ==> z in list || z == r)
  {
    RemovePresent(list, x);
    var afterRemove := RemoveById(list, x.id);
    assert y in multiset(afterRemove);
    if setIt {
      ReplacePresent(afterRemove, y, r);
      Shuffle(multiset(Replace(afterRemove, r)), multiset(afterRemove), multiset(list), x, y, r);
    } else {
      Shuffle(multiset(afterRemove), multiset(afterRemove), multiset(list), x, y, r);
    }
  }

  /** Bookkeeping for one merge: `y` becomes `r` in `a` (giving `l`), `a` is `m` without `x`. */
  lemma Shuffle<T>(l: multiset<T>, a: multiset<T>, m: multiset<T>, x: T, y: T, r: T)
    requires l + multiset{y} == a + multiset{r}
    requires a + multiset{x} == m
    ensures l + multiset{x, y} == m + multiset{r}
    ensures l + multiset{y, x} == m + multiset{r}
  {
    assert multiset{x, y} == multiset{y, x} == multiset{y} + multiset{x};
    assert l + multiset{y} + multiset{x} == a + multiset{x} + multiset{r};
  }

  /** On the caret list, one merge step removes the loser and swaps the survivor for its merged state. */
  lemma MergeStepList(copy: seq<Caret>, list: seq<Caret>, c: nat)
    requires 0 < c < |copy| && DistinctIds(copy) && DistinctIds(list)
    requires multiset(copy) == multiset(list)
    ensures StepRemoves(copy, list, c)
    ensures multiset(StepList(copy, list, c)) + multiset{copy[c - 1], copy[c]}
            == multiset(list) + multiset{MergePair(copy[c - 1], copy[c]).retained}
    ensures DistinctIds(StepList(copy, list, c))
    ensures |StepList(copy, list, c)| == |list| - 1
    ensures forall z :: z in StepList(copy, list, c) ==> z in list || z == MergePair(copy[c - 1], copy[c]).retained
  {
    var prev, curr := copy[c - 1], copy[c];
    var m := MergePair(prev, curr);
    var y := if KeepsEarlier(prev, curr) then prev else curr;
    assert |list| == |multiset(list)| == |copy|;
    assert prev in multiset(list) && curr in multiset(list);
    assert prev.id != curr.id;
    IndexOfPresent(list, m.removed);
    assert StepRemoves(copy, list, c);
    var afterRemove := RemoveById(list, m.removed.id);
    var l := if m.selectionSet then Replace(afterRemove, m.retained) else afterRemove;
    assert StepList(copy, list, c) == l;
    RemoveThenReplace(list, m.removed, y, m.retained, m.selectionSet);
  }

  /** Merging never invents an (id, position, offset) anchor. */
  lemma MergeStepAnchors(copy: seq<Caret>, list: seq<Caret>, c: nat)
    requires 0 < c < |copy| && multiset(copy) == multiset(list)
    requires forall z :: z in StepList(copy, list, c) ==> z in list || z == MergePair(copy[c - 1], copy[c]).retained
    ensures Anchors(StepList(copy, list, c)) <= Anchors(list)
  {
    var prev, curr := copy[c - 1], copy[c];
    var m := MergePair(prev, curr);
    var y := if KeepsEarlier(prev, curr) then prev else curr;
    assert y in multiset(list);
    assert Anchor(m.retained) == Anchor(y);
    forall a | a in Anchors(StepList(copy, list, c)) ensures a in Anchors(list) {
      var z :| z in StepList(copy, list, c) && Anchor(z) == a;
      if z != m.retained {
        assert z in list;
      }
    }
  }

  /** On the sorted copy, one merge step keeps it sorted and its ids distinct, and leaves the part before the pair alone. */
  lemma MergeStepCopy(copy: seq<Caret>, c: nat)
    requires 0 < c < |copy| && Sorted(copy) && DistinctIds(copy)
    ensures multiset(StepCopy(copy, c)) + multiset{copy[c - 1], copy[c]}
            == multiset(copy) + multiset{MergePair(copy[c - 1], copy[c]).retained}
    ensures Sorted(StepCopy(copy, c)) && DistinctIds(StepCopy(copy, c))
    ensures |StepCopy(copy, c)| == |copy| - 1
    ensures forall j :: 0 <= j < c - 1 ==> StepCopy(copy, c)[j] == copy[j]
  {
    var r := MergePair(copy[c - 1], copy[c]).retained;
    CopyStepMultiset(copy, c, r);
    CopyStepSorted(copy, c, r);
    CopyStepDistinct(copy, c, r);
  }

  lemma Cancel<T>(a: multiset<T>, b: multiset<T>, p: multiset<T>)
    requires a + p == b + p
    ensures a == b
  {
    assert forall z :: a[z] == (a + p)[z] - p[z] == (b + p)[z] - p[z] == b[z];
  }

  /** One merge step keeps the walk's conditions, with the cursor one back. */
  lemma MergeStep(copy: seq<Caret>, list: seq<Caret>, c: nat)
    requires WalkInv(copy, list, c) && 0 < c < |copy| && ShouldMerge(copy[c - 1], copy[c])
    ensures StepRemoves(copy, list, c)
    ensures WalkInv(StepCopy(copy, c), StepList(copy, list, c), c - 1)
    ensures |StepList(copy, list, c)| == |list| - 1
    ensures Anchors(StepList(copy, list, c)) <= Anchors(list)
  {
    MergeStepList(copy, list, c);
    MergeStepAnchors(copy, list, c);
    MergeStepCopy(copy, c);
    var copy', list' := StepCopy(copy, c), StepList(copy, list, c);
    var pair := multiset{copy[c - 1], copy[c]};
    Cancel(multiset(copy'), multiset(list'), pair);
    assert |list'| >= 1;
    forall j | 0 < j < c - 1 ensures !ShouldMerge(copy'[j - 1], copy'[j]) {
      assert copy'[j - 1] == copy[j - 1] && copy'[j] == copy[j];
    }
  }

  /** What the walk achieves from any state that satisfies its conditions. */
  lemma MergeFromSound(copy: seq<Caret>, list: seq<Caret>, c: nat)
    requires WalkInv(copy, list, c)
    ensures |MergeFrom(copy, list, c).carets| >= 1
    ensures DistinctIds(MergeFrom(copy, list, c).carets)
    ensures Sorted(MergeFrom(copy, list, c).sorted)
    ensures multiset(MergeFrom(copy, list, c).sorted) == multiset(MergeFrom(copy, list, c).carets)
    ensures NoMergeableNeighbours(MergeFrom(copy, list, c).sorted)
    ensures Anchors(MergeFrom(copy, list, c).carets) <= Anchors(list)
  {
    MergeFromKeeps(copy, list, c);
    MergeFromSeparates(copy, list, c);
  }

  /** The walk never removes the last caret, keeps ids distinct and moves no caret. */
  ghost predicate Keeps(m: MergeOutcome, list: seq<Caret>) {
    && |m.carets| >= 1
    && DistinctIds(m.carets)
    && Anchors(m.carets) <= Anchors(list)
  }

  lemma {:induction false} MergeFromKeeps(copy: seq<Caret>, list: seq<Caret>, c: nat)
    requires WalkInv(copy, list, c)
    ensures Keeps(MergeFrom(copy, list, c), list)
    decreases 2 * |copy| - c, 1
  {
    if c == |copy| {
      assert MergeFrom(copy, list, c) == MergeOutcome(list, [], copy);
    } else if c > 0 && ShouldMerge(copy[c - 1], copy[c]) {
      KeepsAfterMerge(copy, list, c);
    } else {
      MergeFromKeeps(copy, list, c + 1);
      assert MergeFrom(copy, list, c) == MergeFrom(copy, list, c + 1);
    }
  }

  lemma {:induction false} KeepsAfterMerge(copy: seq<Caret>, list: seq<Caret>, c: nat)
    requires WalkInv(copy, list, c) && 0 < c < |copy| && ShouldMerge(copy[c - 1], copy[c])
    ensures Keeps(MergeFrom(copy, list, c), list)
    decreases 2 * |copy| - c, 0
  {
    MergeStep(copy, list, c);
    var copy', list' := StepCopy(copy, c), StepList(copy, list, c);
    MergeFromKeeps(copy', list', c - 1);
    var rest := MergeFrom(copy', list', c - 1);
    assert MergeFrom(copy, list, c).carets == rest.carets;
  }

  /** The walk ends with a sorted copy of the carets in which no neighbours merge. */
  ghost predicate Separated(m: MergeOutcome) {
    && Sorted(m.sorted)
    && multiset(m.sorted) == multiset(m.carets)
    && NoMergeableNeighbours(m.sorted)
  }

  lemma {:induction false} MergeFromSeparates(copy: seq<Caret>, list: seq<Caret>, c: nat)
    requires WalkInv(copy, list, c)
    ensures Separated(MergeFrom(copy, list, c))
    decreases 2 * |copy| - c, 1
  {
    if c == |copy| {
      assert MergeFrom(copy, list, c) == MergeOutcome(list, [], copy);
    } else if c > 0 && ShouldMerge(copy[c - 1], copy[c]) {
      SeparatesAfterMerge(copy, list, c);
    } else {
      MergeFromSeparates(copy, list, c + 1);
      assert MergeFrom(copy, list, c) == MergeFrom(copy, list, c + 1);
    }
  }

  lemma {:induction false} SeparatesAfterMerge(copy: seq<Caret>, list: seq<Caret>, c: nat)
    requires WalkInv(copy, list, c) && 0 < c < |copy| && ShouldMerge(copy[c - 1], copy[c])
    ensures Separated(MergeFrom(copy, list, c))
    decreases 2 * |copy| - c, 0
  {
    MergeStep(copy, list, c);
    var copy', list' := StepCopy(copy, c), StepList(copy, list, c);
    MergeFromSeparates(copy', list', c - 1);
    var rest := MergeFrom(copy', list', c - 1);
    assert MergeFrom(copy, list, c).sorted == rest.sorted && MergeFrom(copy, list, c).carets == rest.carets;
  }

  /** With distinct ids, no caret value occurs twice. */
  lemma {:induction false} DistinctIdsCount(a: seq<Caret>, z: Caret)
    requires DistinctIds(a)
    ensures multiset(a)[z] <= 1
  {
    if a != [] {
      assert a == [a[0]] + a[1..];
      DistinctIdsCount(a[1..], z);
      if a[0] == z {
        assert z !in a[1..];
      }
    }
  }

  /** Having distinct ids is a property of the multiset of carets, not of their order. */
  lemma DistinctIdsPermutation(a: seq<Caret>, b: seq<Caret>)
    requires multiset(a) == multiset(b) && DistinctIds(a)
    ensures DistinctIds(b)
  {
    forall i, j | 0 <= i < j < |b| ensures b[i].id != b[j].id {
      if b[i] == b[j] {
        assert b == b[..j] + [b[j]] + b[j + 1..];
        assert b[i] in b[..j];
        assert multiset(b)[b[j]] >= 2;
        DistinctIdsCount(a, b[j]);
      } else {
        assert b[i] in multiset(a) && b[j] in multiset(a);
        var p :| 0 <= p < |a| && a[p] == b[i];
        var q :| 0 <= q < |a| && a[q] == b[j];
      }
    }
  }

  /** In a strictly sorted list, carets that are different values sit at different positions. */
  lemma DistinctPositionsFromSorted(s: seq<Caret>, t: seq<Caret>)
    requires StrictlySorted(s) && multiset(s) == multiset(t) && DistinctIds(t)
    ensures forall i, j :: 0 <= i < j < |t| ==> t[i].pos != t[j].pos
  {
    forall i, j | 0 <= i < j < |t| ensures t[i].pos != t[j].pos {
      assert t[i] in multiset(s) && t[j] in multiset(s);
      var p :| 0 <= p < |s| && s[p] == t[i];
      var q :| 0 <= q < |s| && s[q] == t[j];
      assert p != q;
      if p < q {
        assert CompareCarets(s[p], s[q]) < 0;
      } else {
        assert CompareCarets(s[q], s[p]) < 0;
      }
    }
  }

  /**
   * Merging never adds a caret, never empties the list, reports every caret it removes,
   * keeps carets distinct, and moves no caret: every surviving caret has the id, position
   * and offset of a caret that was there before. When merging does not apply (multiple
   * carets unsupported, or at most one caret) nothing changes.
   */
  lemma MergedCount(list: seq<Caret>, supportsMultipleCarets: bool)
    requires DistinctIds(list) && |list| >= 1
    ensures var m := Merged(list, supportsMultipleCarets);
            && |m.carets| + |m.removed| == |list|
            && multiset(Ids(m.carets)) + multiset(m.removed) == multiset(Ids(list))
            && 1 <= |m.carets| <= |list|
            && DistinctIds(m.carets)
            && Anchors(m.carets) <= Anchors(list)
            && (!supportsMultipleCarets || |list| <= 1 ==> m.carets == list && m.removed == [])
  {
    if supportsMultipleCarets && |list| > 1 {
      var copy := SortCarets(list);
      DistinctIdsPermutation(list, copy);
      assert WalkInv(copy, list, 0);
      MergeFromSound(copy, list, 0);
      MergeFromAccounts(copy, list, 0);
    }
  }

  /**
   * After a merge no two carets share a position, and in position order no two
   * neighbours have overlapping selections.
   */
  lemma MergedSeparated(list: seq<Caret>)
    requires DistinctIds(list) && |list| >= 1
    ensures var m := Merged(list, true);
            && (forall i, j :: 0 <= i < j < |m.carets| ==> m.carets[i].pos != m.carets[j].pos)
            && NoMergeableNeighbours(SortCarets(m.carets))
  {
    var m := Merged(list, true);
    if |list| > 1 {
      var copy := SortCarets(list);
      DistinctIdsPermutation(list, copy);
      assert WalkInv(copy, list, 0);
      MergeFromSound(copy, list, 0);
      SortedDistinctNeighbours(m.sorted);
      DistinctPositionsFromSorted(m.sorted, m.carets);
      SortedPermutationUnique(m.sorted, SortCarets(m.carets));
    } else {
      assert |SortCarets(m.carets)| == 1;
    }
  }
}
