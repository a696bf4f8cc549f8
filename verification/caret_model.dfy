/**
 * The multi-caret model of an editor: a list of carets whose last element is the primary
 * caret, an optional "current" caret used while an action runs for each caret, the flag
 * that defers merging to the end of the outermost operation, and the caret listeners.
 *
 * The editor's coordinate conversions are not part of this model: wherever the editor
 * turns a position into an offset, the caller passes the `CaretTarget` (visual position
 * and offset) the editor would compute. Listener notifications are recorded as a ghost
 * log of `CaretEvent`s.
 */
module CaretModel {
  import opened Options
  import opened CaretValues
  import opened CaretSort
  import opened CaretMerge

  /** Where a caret lands: its visual position and the document offset of that position. */
  datatype CaretTarget = CaretTarget(pos: VisualPosition, offset: int)

  /** Why an operation was refused (the source throws IllegalArgumentException / IllegalStateException). */
  datatype Failure = NoCarets | SizeMismatch | CurrentCaretDefined

  datatype Outcome = Done | Failed(reason: Failure)

  /** A caret listener; `multiple` says it is itself a MultipleCaretListener. */
  datatype Listener = Listener(id: nat, multiple: bool)

  /** What is registered with the dispatcher: the listener itself, or a fresh adapter around it. */
  datatype DispatchedListener = Itself(listener: Listener) | Adapter(listener: Listener, serial: nat)

  /** A step of a batch caret operation: an action run for each caret, or a nested batch. */
  datatype BatchStep = ForEachCaret(action: Caret -> Caret) | Batch(steps: seq<BatchStep>)

  /** A caret action may move a caret or change its selection, but it stays the same caret. */
  ghost predicate KeepsIdentity(action: Caret -> Caret) {
    forall c :: action(c).id == c.id
  }

  ghost predicate StepKeepsIdentity(step: BatchStep)
    decreases step
  {
    match step
    case ForEachCaret(action) => KeepsIdentity(action)
    case Batch(steps) => StepsKeepIdentity(steps)
  }

  ghost predicate StepsKeepIdentity(steps: seq<BatchStep>)
    decreases steps
  {
    forall i :: 0 <= i < |steps| ==> StepKeepsIdentity(steps[i])
  }

  /** A caret blocks a new caret at the same position, or one whose offset lies in its selection. */
  predicate Blocks(existing: Caret, added: Caret) {
    existing.pos == added.pos || existing.SelectionContains(added.offset)
  }

  function MoveTo(c: Caret, target: Option<CaretTarget>): Caret {
    match target
    case None => c
    case Some(t) => c.(pos := t.pos, offset := t.offset)
  }

  function WithSelection(c: Caret, selection: Option<Segment>): Caret {
    if selection.Some? then c.(selection := selection) else c
  }

  /** The action applied to every caret, in place. */
  function ApplyToAll(action: Caret -> Caret, s: seq<Caret>): (r: seq<Caret>)
    requires KeepsIdentity(action)
    ensures |r| == |s| && Ids(r) == Ids(s)
    ensures forall i :: 0 <= i < |s| ==> r[i] == action(s[i])
  {
    seq(|s|, i requires 0 <= i < |s| => action(s[i]))
  }

  /** The action applied to the primary (last) caret only. */
  function ApplyToPrimary(action: Caret -> Caret, s: seq<Caret>): (r: seq<Caret>)
    requires KeepsIdentity(action)
    ensures |r| == |s| && Ids(r) == Ids(s)
    ensures |s| > 0 ==> r[..|s| - 1] == s[..|s| - 1] && r[|s| - 1] == action(s[|s| - 1])
  {
    if s == [] then s else s[|s| - 1 := action(s[|s| - 1])]
  }

  /** The action applied to the carets whose ids are in `done`, the others left alone. */
  function ApplyTo(action: Caret -> Caret, s: seq<Caret>, done: seq<nat>): (r: seq<Caret>)
    ensures |r| == |s|
  {
    seq(|s|, i requires 0 <= i < |s| => if s[i].id in done then action(s[i]) else s[i])
  }

  /** A step of a batch run on a caret list (inside an operation that merges only at its end). */
  function RunStep(step: BatchStep, s: seq<Caret>, supportsMultipleCarets: bool): seq<Caret>
    requires StepKeepsIdentity(step)
    decreases step
  {
    match step
    case ForEachCaret(action) =>
      if supportsMultipleCarets then ApplyToAll(action, s) else ApplyToPrimary(action, s)
    case Batch(steps) => RunSteps(steps, s, supportsMultipleCarets)
  }

  /** The steps of a batch run one after the other. */
  function RunSteps(steps: seq<BatchStep>, s: seq<Caret>, supportsMultipleCarets: bool): seq<Caret>
    requires StepsKeepIdentity(steps)
    decreases steps
  {
    if steps == [] then s
    else
      var last := steps[|steps| - 1];
      assert StepKeepsIdentity(last);
      RunStep(last, RunSteps(steps[..|steps| - 1], s, supportsMultipleCarets), supportsMultipleCarets)
  }

  /** A batch step neither adds nor removes carets, and keeps their identities in order. */
  lemma {:induction false} RunStepIds(step: BatchStep, s: seq<Caret>, supportsMultipleCarets: bool)
    requires StepKeepsIdentity(step)
    ensures var r := RunStep(step, s, supportsMultipleCarets); |r| == |s| && Ids(r) == Ids(s)
    decreases step, 1
  {
    match step
    case ForEachCaret(action) =>
    case Batch(steps) => RunStepsIds(steps, s, supportsMultipleCarets);
  }

  /** A batch neither adds nor removes carets, and keeps their identities in order. */
  lemma {:induction false} RunStepsIds(steps: seq<BatchStep>, s: seq<Caret>, supportsMultipleCarets: bool)
    requires StepsKeepIdentity(steps)
    ensures var r := RunSteps(steps, s, supportsMultipleCarets); |r| == |s| && Ids(r) == Ids(s)
    decreases steps, 0
  {
    if steps != [] {
      var last := steps[|steps| - 1];
      assert StepKeepsIdentity(last);
      RunStepsIds(steps[..|steps| - 1], s, supportsMultipleCarets);
      RunStepIds(last, RunSteps(steps[..|steps| - 1], s, supportsMultipleCarets), supportsMultipleCarets);
    }
  }

  /** The caret list setCarets builds before merging: existing carets moved and reselected, fresh ones appended, surplus ones dropped. */
  function Placed(carets: seq<Caret>, positions: seq<Option<CaretTarget>>, selections: seq<Option<Segment>>, firstId: nat): seq<Caret>
    requires |positions| == |selections|
    requires forall i :: |carets| <= i < |positions| ==> positions[i].Some?
  {
    seq(|positions|, i requires 0 <= i < |positions| =>
      if i < |carets| then WithSelection(MoveTo(carets[i], positions[i]), selections[i])
      else WithSelection(Caret(firstId + (i - |carets|), positions[i].value.pos, positions[i].value.offset, None), selections[i]))
  }

  /** How many of the existing carets the first `index` positions have taken over. */
  function Kept(index: nat, existing: nat): nat {
    if index < existing then index else existing
  }

  /** How many carets setCarets creates. */
  function FreshCount(existing: nat, wanted: nat): nat {
    if wanted > existing then wanted - existing else 0
  }

  function AddedEvents(firstId: nat, n: nat): (r: seq<CaretEvent>)
    ensures |r| == n && forall k :: 0 <= k < n ==> r[k] == CaretAdded(firstId + k)
  {
    seq(n, k requires 0 <= k < n => CaretAdded(firstId + k))
  }

  /** Removal notices for the carets of `s`, last caret first. */
  function RemovalEvents(s: seq<Caret>): (r: seq<CaretEvent>)
    ensures |r| == |s|
    ensures forall k :: 0 <= k < |s| ==> r[k] == CaretRemoved(s[|s| - 1 - k].id)
  {
    if s == [] then [] else RemovalEvents(s[1..]) + [CaretRemoved(s[0].id)]
  }

  /** Dropping the caret at `k` off the prefix `s[..k + 1]` adds its removal notice after those of the carets behind it. */
  lemma DropLastStep(s: seq<Caret>, k: nat)
    requires k < |s|
    ensures s[..k + 1][..k] == s[..k] && s[..k + 1][k] == s[k]
    ensures RemovalEvents(s[k..]) == RemovalEvents(s[k + 1..]) + [CaretRemoved(s[k].id)]
  {
    assert s[k..][1..] == s[k + 1..];
  }

  /** Removal notices for the ids of `ids`, in order. */
  function RemovedEvents(ids: seq<nat>): (r: seq<CaretEvent>)
    ensures |r| == |ids| && forall k :: 0 <= k < |ids| ==> r[k] == CaretRemoved(ids[k])
  {
    seq(|ids|, k requires 0 <= k < |ids| => CaretRemoved(ids[k]))
  }

  lemma RemovedEventsAppend(ids: seq<nat>, id: nat)
    ensures RemovedEvents(ids + [id]) == RemovedEvents(ids) + [CaretRemoved(id)]
  {
    assert RemovedEvents(ids + [id])[|ids|] == CaretRemoved(id);
  }

  /** The notices setCarets sends: additions of the fresh carets, then removals of the surplus ones from the end. */
  function PlacementEvents(carets: seq<Caret>, wanted: nat, firstId: nat): seq<CaretEvent> {
    AddedEvents(firstId, FreshCount(|carets|, wanted)) + (if wanted < |carets| then RemovalEvents(carets[wanted..]) else [])
  }

  /** Removes the first occurrence of `w`. */
  function RemoveFirst(s: seq<DispatchedListener>, w: DispatchedListener): (r: seq<DispatchedListener>)
    ensures w in s ==> |r| == |s| - 1
    ensures w !in s ==> r == s
  {
    if s == [] then s
    else if s[0] == w then s[1..]
    else [s[0]] + RemoveFirst(s[1..], w)
  }

  /** What RemoveFirst removes is the first occurrence of `w`; the others keep their order. */
  lemma {:induction false} RemoveFirstFirst(s: seq<DispatchedListener>, w: DispatchedListener)
    requires w in s
    ensures exists k :: 0 <= k < |s| && s[k] == w && w !in s[..k] && RemoveFirst(s, w) == s[..k] + s[k + 1..]
    decreases |s|
  {
    if s[0] == w {
      assert s[..0] + s[0 + 1..] == RemoveFirst(s, w);
    } else {
      var t := s[1..];
      RemoveFirstFirst(t, w);
      var k :| 0 <= k < |t| && t[k] == w && w !in t[..k] && RemoveFirst(t, w) == t[..k] + t[k + 1..];
      ShiftFirst(s, w, k);
    }
  }

  lemma ShiftFirst(s: seq<DispatchedListener>, w: DispatchedListener, k: nat)
    requires |s| > 0 && s[0] != w && k < |s| - 1
    requires s[1..][k] == w && w !in s[1..][..k] && RemoveFirst(s[1..], w) == s[1..][..k] + s[1..][k + 1..]
    ensures s[k + 1] == w && w !in s[..k + 1] && RemoveFirst(s, w) == s[..k + 1] + s[k + 2..]
  {
    assert s[..k + 1] == [s[0]] + s[1..][..k];
    assert s[k + 2..] == s[1..][k + 1..];
  }

  class CaretModelImpl {
    const supportsMultipleCarets: bool
    /** All carets; the last one is the primary caret. */
    var carets: seq<Caret>
    /** The id the next created caret receives (caret identity). */
    var nextId: nat
    /** The caret an action currently runs for, inside runForEachCaret. */
    var currentCaret: Option<Caret>
    var mergeAfterCurrentOperation: bool
    var listenerMap: map<Listener, DispatchedListener>
    var dispatcher: seq<DispatchedListener>
    var nextAdapter: nat
    /** The notices sent to the caret listeners. */
    ghost var events: seq<CaretEvent>
    /** How many times the merge has run. */
    ghost var mergeRuns: nat

    ghost predicate Valid()
      reads this
    {
      && |carets| >= 1
      && DistinctIds(carets)
      && forall i :: 0 <= i < |carets| ==> carets[i].id < nextId
    }

    /** The state an operation run inside doWithCaretMerging leaves: `ran` is the caret list the operation produced, `sent` the notices it sent. */
    twostate predicate Finished(ran: seq<Caret>, sent: seq<CaretEvent>)
      reads this
    {
      if old(mergeAfterCurrentOperation) then
        && mergeAfterCurrentOperation
        && carets == ran
        && events == old(events) + sent
        && mergeRuns == old(mergeRuns)
      else
        && !mergeAfterCurrentOperation
        && carets == Merged(ran, supportsMultipleCarets).carets
        && events == old(events) + sent + RemovedEvents(Merged(ran, supportsMultipleCarets).removed)
        && mergeRuns == old(mergeRuns) + 1
    }

    /** A model with one caret at the start of the document. */
    constructor (supportsMultipleCarets: bool)
      ensures Valid()
      ensures this.supportsMultipleCarets == supportsMultipleCarets
      ensures carets == [Caret(0, VisualPosition(0, 0), 0, None)] && nextId == 1
      ensures currentCaret == None && !mergeAfterCurrentOperation
      ensures listenerMap == map[] && dispatcher == [] && nextAdapter == 0
      ensures events == [] && mergeRuns == 0
    {
      this.supportsMultipleCarets := supportsMultipleCarets;
      carets := [Caret(0, VisualPosition(0, 0), 0, None)];
      nextId := 1;
      currentCaret := None;
      mergeAfterCurrentOperation := false;
      listenerMap := map[];
      dispatcher := [];
      nextAdapter := 0;
      events := [];
      mergeRuns := 0;
    }

    /** The primary caret is the last one of the list. */
    function PrimaryCaret(): (r: Caret)
      requires Valid()
      reads this
      ensures r in carets
      ensures forall i :: 0 <= i < |carets| - 1 ==> carets[i].id != r.id
    {
      carets[|carets| - 1]
    }

    /** All carets ordered by visual position; carets at the same position keep their list order. */
    function AllCarets(): (r: seq<Caret>)
      reads this
      ensures Sorted(r)
      ensures multiset(r) == multiset(carets)
      ensures forall p :: AtPosition(r, p) == AtPosition(carets, p)
    {
      SortCaretsStableEverywhere(carets);
      SortCarets(carets)
    }

    /** The first caret, in list order, at the given visual position (see FirstAt). */
    function CaretAt(pos: VisualPosition): (r: Option<Caret>)
      reads this
      ensures r == FirstAt(carets, pos)
    {
      FirstAt(carets, pos)
    }

    /** The current caret when on the dispatch thread and one is set, otherwise the primary caret. */
    function CurrentCaret(onDispatchThread: bool): (r: Caret)
      requires Valid()
      reads this
      ensures onDispatchThread && currentCaret.Some? ==> r == currentCaret.value
      ensures !(onDispatchThread && currentCaret.Some?) ==>
                r in carets && forall i :: 0 <= i < |carets| - 1 ==> carets[i].id != r.id
    {
      if onDispatchThread && currentCaret.Some? then currentCaret.value else PrimaryCaret()
    }

    /** A new caret, not yet in the list, placed at the target. */
    method NewCaret(target: CaretTarget) returns (c: Caret)
      modifies this`nextId
      ensures c == Caret(old(nextId), target.pos, target.offset, None)
      ensures nextId == old(nextId) + 1
    {
      c := Caret(nextId, target.pos, target.offset, None);
      nextId := nextId + 1;
    }

    /** Whether no caret blocks `c`: the scan of addCaret. */
    method Admits(c: Caret) returns (ok: bool)
      ensures ok <==> forall i :: 0 <= i < |carets| ==> !Blocks(carets[i], c)
    {
      var i := 0;
      while i < |carets|
        invariant 0 <= i <= |carets|
        invariant forall j :: 0 <= j < i ==> !Blocks(carets[j], c)
      {
        if Blocks(carets[i], c) {
          return false;
        }
        i := i + 1;
      }
      return true;
    }

    /** Appends a new caret unless an existing one blocks it. */
    method AddCaret(c: Caret) returns (added: bool)
      requires Valid() && c.id < nextId && c.id !in Ids(carets)
      modifies this`carets, this`events
      ensures Valid()
      ensures added <==> forall i :: 0 <= i < |old(carets)| ==> !Blocks(old(carets)[i], c)
      ensures added ==> carets == old(carets) + [c] && events == old(events) + [CaretAdded(c.id)]
      ensures !added ==> carets == old(carets) && events == old(events)
    {
      added := Admits(c);
      if added {
        carets := carets + [c];
        events := events + [CaretAdded(c.id)];
        forall i, j | 0 <= i < j < |carets| ensures carets[i].id != carets[j].id {
          if j == |carets| - 1 {
            assert Ids(old(carets))[i] == carets[i].id;
          }
        }
      }
    }

    /** addCaret(VisualPosition): a new caret at the target, returned when it was added. */
    method AddCaretAt(target: CaretTarget) returns (r: Option<Caret>)
      requires Valid()
      modifies this`carets, this`events, this`nextId
      ensures Valid()
      ensures nextId == old(nextId) + 1
      ensures var c := Caret(old(nextId), target.pos, target.offset, None);
              && (r.Some? <==> forall i :: 0 <= i < |old(carets)| ==> !Blocks(old(carets)[i], c))
              && (r.Some? ==> r.value == c && carets == old(carets) + [c] && events == old(events) + [CaretAdded(c.id)])
              && (r.None? ==> carets == old(carets) && events == old(events))
    {
      var c := NewCaret(target);
      var added := AddCaret(c);
      r := if added then Some(c) else None;
    }

    /** Removes a caret by identity, unless it is the only one or not in the list. */
    method RemoveCaret(c: Caret) returns (removed: bool)
      requires Valid()
      modifies this`carets, this`events
      ensures Valid()
      ensures removed <==> CanRemove(old(carets), c.id)
      ensures carets == if removed then RemoveById(old(carets), c.id) else old(carets)
      ensures events == old(events) + (if removed then [CaretRemoved(c.id)] else [])
    {
      removed := CanRemove(carets, c.id);
      if removed {
        var k := IndexOfId(carets, c.id);
        DeleteAtDistinct(carets, k);
        carets := carets[..k] + carets[k + 1..];
        events := events + [CaretRemoved(c.id)];
      }
    }

    /** Removes every caret but the primary one, from the last secondary caret backwards. */
    method RemoveSecondaryCarets()
      requires Valid()
      modifies this`carets, this`events
      ensures Valid()
      ensures !supportsMultipleCarets ==> carets == old(carets) && events == old(events)
      ensures supportsMultipleCarets ==>
                carets == [old(carets)[|old(carets)| - 1]] &&
                events == old(events) + RemovalEvents(old(carets)[..|old(carets)| - 1])
    {
      if !supportsMultipleCarets {
        return;
      }
      ghost var secondary := carets[..|carets| - 1];
      var i := |carets| - 1;
      while i > 0
        invariant 0 <= i <= |secondary|
        invariant carets == secondary[..i] + [old(carets)[|old(carets)| - 1]]
        invariant events == old(events) + RemovalEvents(secondary[i..])
      {
        i := i - 1;
        var caret := carets[i];
        RemoveSecondaryStep(secondary, old(carets)[|old(carets)| - 1], i);
        carets := carets[..i] + carets[i + 1..];
        events := events + [CaretRemoved(caret.id)];
      }
    }

    /** The prologue of doWithCaretMerging: `outer` is whether this is the outermost operation. */
    method EnterMerging() returns (outer: bool)
      modifies this`mergeAfterCurrentOperation
      ensures outer == !old(mergeAfterCurrentOperation)
      ensures mergeAfterCurrentOperation
    {
      outer := !mergeAfterCurrentOperation;
      mergeAfterCurrentOperation := true;
    }

    /** The epilogue of doWithCaretMerging: the outermost operation clears the flag and merges. */
    method ExitMerging(outer: bool)
      requires Valid() && mergeAfterCurrentOperation
      modifies this
      ensures Valid()
      ensures !outer ==> mergeAfterCurrentOperation && carets == old(carets) && events == old(events) && mergeRuns == old(mergeRuns)
      ensures outer ==> !mergeAfterCurrentOperation &&
                        carets == Merged(old(carets), supportsMultipleCarets).carets &&
                        events == old(events) + RemovedEvents(Merged(old(carets), supportsMultipleCarets).removed) &&
                        mergeRuns == old(mergeRuns) + 1
      ensures nextId == old(nextId) && currentCaret == old(currentCaret)
      ensures unchanged(this`listenerMap, this`dispatcher, this`nextAdapter)
    {
      if outer {
        mergeAfterCurrentOperation := false;
        MergeOverlappingCaretsAndSelections();
      }
    }

    /**
     * Walks a position-sorted copy of the carets; each pair of neighbours at the same
     * position or with overlapping selections is merged into one caret, the other caret
     * being removed from the model.
     */
    method MergeOverlappingCaretsAndSelections()
      requires Valid()
      modifies this`carets, this`events, this`mergeRuns
      ensures Valid()
      ensures carets == Merged(old(carets), supportsMultipleCarets).carets
      ensures events == old(events) + RemovedEvents(Merged(old(carets), supportsMultipleCarets).removed)
      ensures mergeRuns == old(mergeRuns) + 1
    {
      mergeRuns := mergeRuns + 1;
      if !supportsMultipleCarets || |carets| <= 1 {
        return;
      }
      var copy := SortCarets(carets);
      DistinctIdsPermutation(carets, copy);
      assert WalkInv(copy, carets, 0);
      Walk(copy);
    }

    /** The list-iterator walk over the sorted copy, merging neighbours as it goes. */
    method Walk(sorted: seq<Caret>)
      requires Valid() && WalkInv(sorted, carets, 0)
      modifies this`carets, this`events
      ensures Valid()
      ensures carets == MergeFrom(sorted, old(carets), 0).carets
      ensures events == old(events) + RemovedEvents(MergeFrom(sorted, old(carets), 0).removed)
    {
      var copy := sorted;
      var c := 0;
      ghost var removed: seq<nat> := [];
      while c < |copy|
        invariant Valid()
        invariant WalkAt(sorted, old(carets), copy, carets, c, removed)
        invariant events == old(events) + RemovedEvents(removed)
        decreases 2 * |copy| - c
      {
        if c > 0 && ShouldMerge(copy[c - 1], copy[c]) {
          ghost var id := MergePair(copy[c - 1], copy[c]).removed.id;
          WalkAdvanceMerge(sorted, old(carets), copy, carets, c, removed);
          MergePairAt(copy, c);
          RemovedEventsAppend(removed, id);
          removed := removed + [id];
          copy := StepCopy(copy, c);
          c := c - 1;
        } else {
          WalkAdvanceSkip(sorted, old(carets), copy, carets, c, removed);
          c := c + 1;
        }
      }
      WalkAtEnd(sorted, old(carets), copy, carets, removed);
    }

    /** One merge of the walk: the pair's loser removed from the model, the survivor's selection widened. */
    method MergePairAt(copy: seq<Caret>, c: nat)
      requires Valid() && 0 < c < |copy| && WalkInv(copy, carets, c) && ShouldMerge(copy[c - 1], copy[c])
      modifies this`carets, this`events
      ensures Valid()
      ensures carets == StepList(copy, old(carets), c)
      ensures events == old(events) + [CaretRemoved(MergePair(copy[c - 1], copy[c]).removed.id)]
    {
      MergeStep(copy, carets, c);
      var m := MergePair(copy[c - 1], copy[c]);
      var removed := RemoveCaret(m.removed);
      if m.selectionSet {
        carets := Replace(carets, m.retained);
      }
    }

    /**
     * runForEachCaret: without multiple-caret support the action runs on the primary caret;
     * with a current caret set the call is refused; otherwise the action runs once per
     * caret in position order, with that caret current, inside doWithCaretMerging.
     */
    method RunForEachCaret(action: Caret -> Caret) returns (r: Outcome)
      requires Valid() && KeepsIdentity(action)
      modifies this
      ensures Valid()
      ensures !supportsMultipleCarets ==>
                r == Done && carets == ApplyToPrimary(action, old(carets)) &&
                unchanged(this`events, this`mergeRuns, this`mergeAfterCurrentOperation, this`currentCaret)
      ensures supportsMultipleCarets && old(currentCaret).Some? ==>
                r == Failed(CurrentCaretDefined) && unchanged(this)
      ensures supportsMultipleCarets && old(currentCaret).None? ==>
                r == Done && currentCaret == None && Finished(ApplyToAll(action, old(carets)), [])
      ensures nextId == old(nextId)
      ensures unchanged(this`listenerMap, this`dispatcher, this`nextAdapter)
    {
      if !supportsMultipleCarets {
        carets := ApplyToPrimary(action, carets);
        return Done;
      }
      if currentCaret.Some? {
        return Failed(CurrentCaretDefined);
      }
      ForEachMerging(action);
      r := Done;
    }

    /** The doWithCaretMerging call of runForEachCaret, around the loop over the carets. */
    method ForEachMerging(action: Caret -> Caret)
      requires Valid() && KeepsIdentity(action) && currentCaret.None?
      modifies this
      ensures Valid() && currentCaret == None
      ensures Finished(ApplyToAll(action, old(carets)), [])
      ensures nextId == old(nextId)
      ensures unchanged(this`listenerMap, this`dispatcher, this`nextAdapter)
    {
      var outer := EnterMerging();
      ghost var current := EachCaret(action);
      ExitMerging(outer);
    }

    /** The runnable runForEachCaret hands to doWithCaretMerging: the carets in position order, each made current and acted on. */
    method EachCaret(action: Caret -> Caret) returns (ghost current: seq<Caret>)
      requires Valid() && KeepsIdentity(action)
      modifies this`carets, this`currentCaret
      ensures Valid() && currentCaret == None
      ensures carets == ApplyToAll(action, old(carets))
      ensures Sorted(current) && multiset(current) == multiset(old(carets))
      ensures forall p :: AtPosition(current, p) == AtPosition(old(carets), p)
    {
      var sorted := AllCarets();
      current := ApplyEach(action, sorted);
    }

    /**
     * The loop of runForEachCaret: each caret in position order becomes current and is acted on.
     * `current` records, at each step, the caret getCurrentCaret returns on the dispatch thread.
     */
    method ApplyEach(action: Caret -> Caret, sorted: seq<Caret>) returns (ghost current: seq<Caret>)
      requires Valid() && KeepsIdentity(action)
      requires multiset(sorted) == multiset(carets)
      modifies this`carets, this`currentCaret
      ensures Valid()
      ensures current == sorted
      ensures carets == ApplyToAll(action, old(carets))
      ensures currentCaret == None
    {
      ghost var start := carets;
      DistinctIdsPermutation(start, sorted);
      current := [];
      var i := 0;
      while i < |sorted|
        invariant 0 <= i <= |sorted|
        invariant carets == ApplyTo(action, start, Ids(sorted[..i]))
        invariant Ids(carets) == Ids(start) && Valid()
        invariant current == sorted[..i]
      {
        var caret := sorted[i];
        currentCaret := Some(caret);
        current := current + [CurrentCaret(true)];
        ApplyStep(action, start, sorted, i);
        carets := ApplyById(carets, action, caret.id);
        i := i + 1;
      }
      currentCaret := None;
      assert sorted[..i] == sorted;
      AllDone(action, start, sorted);
    }

    /**
     * doWithCaretMerging around runBatchCaretOperation's runnable: the steps run one after
     * the other, and only the outermost operation merges at its end.
     */
    method DoWithCaretMerging(steps: seq<BatchStep>)
      requires Valid() && currentCaret.None? && StepsKeepIdentity(steps)
      modifies this
      decreases steps, 1
      ensures Valid() && currentCaret.None?
      ensures Finished(RunSteps(steps, old(carets), supportsMultipleCarets), [])
      ensures nextId == old(nextId)
      ensures unchanged(this`listenerMap, this`dispatcher, this`nextAdapter)
    {
      var outer := EnterMerging();
      var i := 0;
      while i < |steps|
        invariant 0 <= i <= |steps|
        invariant Valid() && currentCaret.None? && mergeAfterCurrentOperation
        invariant carets == RunSteps(steps[..i], old(carets), supportsMultipleCarets)
        invariant events == old(events) && mergeRuns == old(mergeRuns) && nextId == old(nextId)
        invariant unchanged(this`listenerMap, this`dispatcher, this`nextAdapter)
        decreases |steps| - i
      {
        assert steps[..i + 1][..i] == steps[..i];
        RunBatchStep(steps, i);
        i := i + 1;
      }
      assert steps[..i] == steps;
      ExitMerging(outer);
    }

    /** One step of a batch, run while merging is deferred. */
    method RunBatchStep(steps: seq<BatchStep>, i: nat)
      requires Valid() && currentCaret.None? && mergeAfterCurrentOperation
      requires StepsKeepIdentity(steps) && i < |steps|
      modifies this
      decreases steps, 0
      ensures Valid() && currentCaret.None? && mergeAfterCurrentOperation
      ensures StepKeepsIdentity(steps[i]) && carets == RunStep(steps[i], old(carets), supportsMultipleCarets)
      ensures events == old(events) && mergeRuns == old(mergeRuns) && nextId == old(nextId)
      ensures unchanged(this`listenerMap, this`dispatcher, this`nextAdapter)
    {
      assert StepKeepsIdentity(steps[i]);
      match steps[i] {
        case ForEachCaret(action) =>
          var r := RunForEachCaret(action);
        case Batch(inner) =>
          DoWithCaretMerging(inner);
      }
    }

    /**
     * setCarets: refuses an empty position list and lists of different sizes; otherwise,
     * inside doWithCaretMerging, places the carets and drops the surplus ones.
     */
    method SetCarets(positions: seq<Option<CaretTarget>>, selections: seq<Option<Segment>>) returns (r: Outcome)
      requires Valid()
      requires positions != [] && |positions| == |selections| ==>
                 forall i :: |carets| <= i < |positions| ==> positions[i].Some?
      modifies this
      ensures Valid()
      ensures positions == [] ==> r == Failed(NoCarets) && unchanged(this)
      ensures positions != [] && |positions| != |selections| ==> r == Failed(SizeMismatch) && unchanged(this)
      ensures positions != [] && |positions| == |selections| ==>
                && r == Done
                && nextId == old(nextId) + FreshCount(|old(carets)|, |positions|)
                && Finished(Placed(old(carets), positions, selections, old(nextId)),
                            PlacementEvents(old(carets), |positions|, old(nextId)))
      ensures currentCaret == old(currentCaret)
      ensures unchanged(this`listenerMap, this`dispatcher, this`nextAdapter)
    {
      if positions == [] {
        return Failed(NoCarets);
      }
      if |positions| != |selections| {
        return Failed(SizeMismatch);
      }
      var outer := EnterMerging();
      PlaceCarets(positions, selections);
      ExitMerging(outer);
      r := Done;
    }

    /** The runnable of setCarets: the carets placed at the positions, then the surplus ones removed from the end. */
    method PlaceCarets(positions: seq<Option<CaretTarget>>, selections: seq<Option<Segment>>)
      requires Valid() && positions != [] && |positions| == |selections|
      requires forall i :: |carets| <= i < |positions| ==> positions[i].Some?
      modifies this`carets, this`events, this`nextId
      ensures Valid()
      ensures carets == Placed(old(carets), positions, selections, old(nextId))
      ensures nextId == old(nextId) + FreshCount(|old(carets)|, |positions|)
      ensures events == old(events) + PlacementEvents(old(carets), |positions|, old(nextId))
    {
      MoveAndAdd(positions, selections);
      DropSurplus(|positions|);
      assert |positions| < |old(carets)| ==> old(carets)[|positions|..][|positions| - |positions|..] == old(carets)[|positions|..];
      PlacedValid(old(carets), positions, selections, old(nextId));
    }

    /** The loop over the positions: the i-th existing caret is moved and reselected, a fresh caret is added for each further position. */
    method MoveAndAdd(positions: seq<Option<CaretTarget>>, selections: seq<Option<Segment>>)
      requires |positions| == |selections|
      requires forall i :: |carets| <= i < |positions| ==> positions[i].Some?
      modifies this`carets, this`events, this`nextId
      ensures carets == Placed(old(carets), positions, selections, old(nextId)) + old(carets)[Kept(|positions|, |old(carets)|)..]
      ensures nextId == old(nextId) + FreshCount(|old(carets)|, |positions|)
      ensures events == old(events) + AddedEvents(old(nextId), FreshCount(|old(carets)|, |positions|))
    {
      ghost var placed := Placed(carets, positions, selections, nextId);
      var oldCaretCount := |carets|;
      var index := 0;
      while index < |positions|
        invariant 0 <= index <= |positions|
        invariant nextId == old(nextId) + FreshCount(oldCaretCount, index)
        invariant carets == placed[..index] + old(carets)[Kept(index, oldCaretCount)..]
        invariant events == old(events) + AddedEvents(old(nextId), FreshCount(oldCaretCount, index))
      {
        if index < oldCaretCount {
          var caret := WithSelection(MoveTo(carets[index], positions[index]), selections[index]);
          PlacedStep(placed[..index], old(carets), index, caret);
          carets := carets[index := caret];
        } else {
          var caret := NewCaret(positions[index].value);
          events := events + [CaretAdded(caret.id)];
          carets := carets + [WithSelection(caret, selections[index])];
        }
        assert placed[..index + 1] == placed[..index] + [placed[index]];
        index := index + 1;
      }
      assert placed[..index] == placed;
    }

    /** The loop that removes the last caret until `n` are left. */
    method DropSurplus(n: nat)
      modifies this`carets, this`events
      ensures n <= |old(carets)| ==> carets == old(carets)[..n] && events == old(events) + RemovalEvents(old(carets)[n..])
      ensures n > |old(carets)| ==> carets == old(carets) && events == old(events)
    {
      ghost var o := carets;
      var caretsToRemove := |carets| - n;
      var i := 0;
      while i < caretsToRemove
        invariant 0 <= i <= (if caretsToRemove > 0 then caretsToRemove else 0)
        invariant carets == o[..|o| - i]
        invariant events == old(events) + RemovalEvents(o[|o| - i..])
      {
        var caret := carets[|carets| - 1];
        DropLastStep(o, |o| - i - 1);
        carets := carets[..|carets| - 1];
        events := events + [CaretRemoved(caret.id)];
        i := i + 1;
      }
    }

    /** Registers a listener, wrapping one that is not a MultipleCaretListener in a fresh adapter. */
    method AddCaretListener(l: Listener)
      modifies this`listenerMap, this`dispatcher, this`nextAdapter
      ensures var w := if l.multiple then Itself(l) else Adapter(l, old(nextAdapter));
              listenerMap == old(listenerMap)[l := w] && dispatcher == old(dispatcher) + [w]
      ensures nextAdapter == old(nextAdapter) + (if l.multiple then 0 else 1)
    {
      var w;
      if l.multiple {
        w := Itself(l);
      } else {
        w := Adapter(l, nextAdapter);
        nextAdapter := nextAdapter + 1;
      }
      listenerMap := listenerMap[l := w];
      dispatcher := dispatcher + [w];
    }

    /** Unregisters a listener: its map entry goes, and its dispatched form leaves the dispatcher. */
    method RemoveCaretListener(l: Listener)
      modifies this`listenerMap, this`dispatcher
      ensures l in old(listenerMap) ==>
                listenerMap == old(listenerMap) - {l} && dispatcher == RemoveFirst(old(dispatcher), old(listenerMap)[l])
      ensures l !in old(listenerMap) ==> listenerMap == old(listenerMap) && dispatcher == old(dispatcher)
    {
      if l in listenerMap {
        var w := listenerMap[l];
        listenerMap := listenerMap - {l};
        dispatcher := RemoveFirst(dispatcher, w);
      }
    }
  }

  /** The first caret of the list at the given position. */
  function FirstAt(s: seq<Caret>, pos: VisualPosition): (r: Option<Caret>)
    ensures r.None? <==> forall i :: 0 <= i < |s| ==> s[i].pos != pos
    ensures r.Some? ==> exists k :: 0 <= k < |s| && s[k] == r.value && r.value.pos == pos &&
                                    forall j :: 0 <= j < k ==> s[j].pos != pos
  {
    if s == [] then None
    else if s[0].pos == pos then Some(s[0])
    else
      var r := FirstAt(s[1..], pos);
      if r.Some? then
        var k :| 0 <= k < |s| - 1 && s[1..][k] == r.value && r.value.pos == pos &&
                 forall j :: 0 <= j < k ==> s[1..][j].pos != pos;
        assert s[k + 1] == r.value;
        r
      else r
  }

  /** The action applied to the caret with the given id. */
  function ApplyById(s: seq<Caret>, action: Caret -> Caret, id: nat): (r: seq<Caret>)
    requires KeepsIdentity(action)
    ensures |r| == |s| && Ids(r) == Ids(s)
  {
    seq(|s|, i requires 0 <= i < |s| => if s[i].id == id then action(s[i]) else s[i])
  }

  /** Removing the secondary caret at `i` shortens the list by that caret and adds its removal notice. */
  lemma RemoveSecondaryStep(secondary: seq<Caret>, last: Caret, i: nat)
    requires i < |secondary|
    ensures var l := secondary[..i + 1] + [last];
            l[i] == secondary[i] && l[..i] + l[i + 1..] == secondary[..i] + [last]
    ensures RemovalEvents(secondary[i..]) == RemovalEvents(secondary[i + 1..]) + [CaretRemoved(secondary[i].id)]
  {
    assert secondary[i..] == [secondary[i]] + secondary[i + 1..];
    assert secondary[..i + 1][..i] == secondary[..i];
  }

  /**
   * The state of the walk over `sorted`, begun on the list `start`: the cursor is at `c` in
   * `copy`, the list is `list`, `removed` holds the ids removed so far, and finishing the walk
   * from here gives what the whole walk gives.
   */
  ghost predicate WalkAt(sorted: seq<Caret>, start: seq<Caret>, copy: seq<Caret>, list: seq<Caret>, c: nat, removed: seq<nat>) {
    && WalkInv(copy, list, c)
    && MergeFrom(copy, list, c).carets == MergeFrom(sorted, start, 0).carets
    && removed + MergeFrom(copy, list, c).removed == MergeFrom(sorted, start, 0).removed
  }

  lemma WalkAdvanceMerge(sorted: seq<Caret>, start: seq<Caret>, copy: seq<Caret>, list: seq<Caret>, c: nat, removed: seq<nat>)
    requires WalkAt(sorted, start, copy, list, c, removed) && 0 < c < |copy| && ShouldMerge(copy[c - 1], copy[c])
    ensures WalkAt(sorted, start, StepCopy(copy, c), StepList(copy, list, c), c - 1,
                   removed + [MergePair(copy[c - 1], copy[c]).removed.id])
  {
    MergeStep(copy, list, c);
    WalkStepRemoved(copy, list, c);
    var id := MergePair(copy[c - 1], copy[c]).removed.id;
    assert removed + [id] + MergeFrom(StepCopy(copy, c), StepList(copy, list, c), c - 1).removed
        == removed + ([id] + MergeFrom(StepCopy(copy, c), StepList(copy, list, c), c - 1).removed);
  }

  lemma WalkAdvanceSkip(sorted: seq<Caret>, start: seq<Caret>, copy: seq<Caret>, list: seq<Caret>, c: nat, removed: seq<nat>)
    requires WalkAt(sorted, start, copy, list, c, removed) && c < |copy| && !(c > 0 && ShouldMerge(copy[c - 1], copy[c]))
    ensures WalkAt(sorted, start, copy, list, c + 1, removed)
  {
    WalkSkip(copy, list, c);
  }

  lemma WalkAtEnd(sorted: seq<Caret>, start: seq<Caret>, copy: seq<Caret>, list: seq<Caret>, removed: seq<nat>)
    requires WalkAt(sorted, start, copy, list, |copy|, removed)
    ensures list == MergeFrom(sorted, start, 0).carets
    ensures removed == MergeFrom(sorted, start, 0).removed
  {
    assert MergeFrom(copy, list, |copy|) == MergeOutcome(list, [], copy);
  }

  /** A merge step of the walk: its removal comes first, then those of the rest of the walk, which ends with the same carets. */
  lemma WalkStepRemoved(copy: seq<Caret>, list: seq<Caret>, c: nat)
    requires 0 < c < |copy| && ShouldMerge(copy[c - 1], copy[c]) && StepRemoves(copy, list, c)
    ensures MergeFrom(copy, list, c).removed ==
            [MergePair(copy[c - 1], copy[c]).removed.id] + MergeFrom(StepCopy(copy, c), StepList(copy, list, c), c - 1).removed
    ensures MergeFrom(copy, list, c).carets == MergeFrom(StepCopy(copy, c), StepList(copy, list, c), c - 1).carets
  {
  }

  /** Where the pair at the cursor does not merge, the walk moves on with nothing changed. */
  lemma WalkSkip(copy: seq<Caret>, list: seq<Caret>, c: nat)
    requires WalkInv(copy, list, c) && c < |copy| && !(c > 0 && ShouldMerge(copy[c - 1], copy[c]))
    ensures WalkInv(copy, list, c + 1)
    ensures MergeFrom(copy, list, c + 1) == MergeFrom(copy, list, c)
  {
  }

  /** Updating the first caret not yet placed extends the placed prefix by one. */
  lemma PlacedStep(done: seq<Caret>, rest: seq<Caret>, index: nat, caret: Caret)
    requires |done| == index < |rest|
    ensures (done + rest[index..])[index := caret] == done + [caret] + rest[index + 1..]
  {
  }

  /** Acting on the next caret of the sorted copy extends the set of carets acted on by that caret. */
  lemma ApplyStep(action: Caret -> Caret, start: seq<Caret>, sorted: seq<Caret>, i: nat)
    requires KeepsIdentity(action) && DistinctIds(sorted) && i < |sorted|
    ensures ApplyById(ApplyTo(action, start, Ids(sorted[..i])), action, sorted[i].id) == ApplyTo(action, start, Ids(sorted[..i + 1]))
  {
    var done := Ids(sorted[..i]);
    assert Ids(sorted[..i + 1]) == done + [sorted[i].id];
  }

  /** Once every caret of a permutation was visited, every caret of the list was acted on. */
  lemma AllDone(action: Caret -> Caret, start: seq<Caret>, sorted: seq<Caret>)
    requires KeepsIdentity(action) && multiset(sorted) == multiset(start)
    ensures ApplyTo(action, start, Ids(sorted)) == ApplyToAll(action, start)
  {
    forall i | 0 <= i < |start| ensures start[i].id in Ids(sorted) {
      assert start[i] in multiset(sorted);
      var j :| 0 <= j < |sorted| && sorted[j] == start[i];
      assert Ids(sorted)[j] == start[i].id;
    }
  }

  /** The list setCarets places has one caret per position, distinct ids, and ids below the next fresh id. */
  lemma PlacedValid(carets: seq<Caret>, positions: seq<Option<CaretTarget>>, selections: seq<Option<Segment>>, firstId: nat)
    requires |positions| == |selections|
    requires forall i :: |carets| <= i < |positions| ==> positions[i].Some?
    requires DistinctIds(carets) && forall i :: 0 <= i < |carets| ==> carets[i].id < firstId
    ensures var r := Placed(carets, positions, selections, firstId);
            && |r| == |positions|
            && DistinctIds(r)
            && forall i :: 0 <= i < |r| ==> r[i].id < firstId + FreshCount(|carets|, |positions|)
  {
  }

  /** A successful removal deletes exactly the caret with that id; the others keep their order. */
  lemma RemoveByIdOrder(s: seq<Caret>, id: nat)
    requires CanRemove(s, id)
    ensures var k := IndexOfId(s, id);
            && k < |s| && s[k].id == id
            && |RemoveById(s, id)| == |s| - 1
            && RemoveById(s, id)[..k] == s[..k]
            && RemoveById(s, id)[k..] == s[k + 1..]
  {
  }

  /** Removing a caret just added restores the list: addCaret and removeCaret are inverse. */
  lemma {:induction false} AddThenRemove(s: seq<Caret>, c: Caret)
    requires |s| >= 1 && c.id !in Ids(s)
    ensures CanRemove(s + [c], c.id)
    ensures RemoveById(s + [c], c.id) == s
  {
    var t := s + [c];
    forall j | 0 <= j < |s| ensures t[j].id != c.id {
      assert Ids(s)[j] == s[j].id;
    }
    var k := IndexOfId(t, c.id);
    assert t[|s|].id == c.id;
    assert k == |s|;
    assert t[..|s|] == s;
  }

  /** Removing the first occurrence of a wrapper just appended (and not already there) restores the dispatcher. */
  lemma {:induction false} RemoveFirstAppended(s: seq<DispatchedListener>, w: DispatchedListener)
    requires w !in s
    ensures RemoveFirst(s + [w], w) == s
    decreases |s|
  {
    if s != [] {
      assert (s + [w])[1..] == s[1..] + [w];
      RemoveFirstAppended(s[1..], w);
    }
  }

  /** Running two batches one after the other is running their concatenation: nesting does not matter. */
  lemma {:induction false} RunStepsAppend(a: seq<BatchStep>, b: seq<BatchStep>, s: seq<Caret>, supportsMultipleCarets: bool)
    requires StepsKeepIdentity(a) && StepsKeepIdentity(b)
    ensures StepsKeepIdentity(a + b)
    ensures RunSteps(a + b, s, supportsMultipleCarets) == RunSteps(b, RunSteps(a, s, supportsMultipleCarets), supportsMultipleCarets)
    decreases |b|
  {
    assert forall i :: 0 <= i < |a + b| ==> (a + b)[i] == if i < |a| then a[i] else b[i - |a|];
    if b != [] {
      var b' := b[..|b| - 1];
      assert (a + b)[..|a + b| - 1] == a + b';
      assert StepsKeepIdentity(b');
      RunStepsAppend(a, b', s, supportsMultipleCarets);
    } else {
      assert a + b == a;
    }
  }

  /** A nested batch runs exactly as its steps inlined. */
  lemma NestedBatch(a: seq<BatchStep>, inner: seq<BatchStep>, b: seq<BatchStep>, s: seq<Caret>, supportsMultipleCarets: bool)
    requires StepsKeepIdentity(a) && StepsKeepIdentity(inner) && StepsKeepIdentity(b)
    ensures StepsKeepIdentity(a + [Batch(inner)] + b) && StepsKeepIdentity(a + inner + b)
    ensures RunSteps(a + [Batch(inner)] + b, s, supportsMultipleCarets) == RunSteps(a + inner + b, s, supportsMultipleCarets)
  {
    assert StepsKeepIdentity([Batch(inner)]) by {
      assert StepKeepsIdentity(Batch(inner));
    }
    RunStepsAppend(a, [Batch(inner)], s, supportsMultipleCarets);
    RunStepsAppend(a + [Batch(inner)], b, s, supportsMultipleCarets);
    RunStepsAppend(a, inner, s, supportsMultipleCarets);
    RunStepsAppend(a + inner, b, s, supportsMultipleCarets);
    assert [Batch(inner)][..0] == [];
  }
}
