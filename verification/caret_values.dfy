/**
 * The values the caret model works on: visual positions, selections, carets and the
 * events the model fires, and the position comparator the model sorts carets by.
 */
module CaretValues {
  import opened Options

  /** A position on the screen: visual line and column, both counted from zero. */
  datatype VisualPosition = VisualPosition(line: nat, column: nat)

  /** A selected range of document offsets, from start to end. */
  datatype Segment = Segment(start: int, end: int)

  /**
   * One caret. `id` stands for the identity of the caret object, so two carets
   * are "the same caret" exactly when their ids agree; `pos` is the caret's visual
   * position, `offset` the document offset the editor maps that position to, and
   * `selection` the caret's selection, if it has one.
   */
  datatype Caret = Caret(id: nat, pos: VisualPosition, offset: int, selection: Option<Segment>)
  {
    /** Start of the selection; a caret without a selection reports its own offset. */
    function SelectionStart(): int {
      if selection.Some? then selection.value.start else offset
    }

    /** End of the selection; a caret without a selection reports its own offset. */
    function SelectionEnd(): int {
      if selection.Some? then selection.value.end else offset
    }

    /** Whether `off` lies in the closed range [SelectionStart(), SelectionEnd()]. */
    predicate SelectionContains(off: int) {
      SelectionStart() <= off <= SelectionEnd()
    }
  }

  /** What the model reports to its caret listeners. */
  datatype CaretEvent = CaretAdded(caretId: nat) | CaretRemoved(caretId: nat)

  /** `a` comes strictly before `b`: on an earlier line, or on the same line further left. */
  predicate Before(a: VisualPosition, b: VisualPosition) {
    a.line < b.line || (a.line == b.line && a.column < b.column)
  }

  /**
   * The visual position comparator: the difference of the lines, or, on the same line,
   * the difference of the columns. Its sign orders positions by line, then by column.
   * Lines and columns are natural numbers here, so the differences cannot overflow as
   * 32-bit subtraction could for arbitrary integers.
   */
  function ComparePositions(a: VisualPosition, b: VisualPosition): (r: int)
    ensures r == 0 <==> a == b
    ensures r < 0 <==> Before(a, b)
    ensures r > 0 <==> Before(b, a)
  {
    if a.line != b.line then a.line - b.line else a.column - b.column
  }

  /** The caret comparator: carets compare as their visual positions do. */
  function CompareCarets(a: Caret, b: Caret): (r: int)
    ensures r == 0 <==> a.pos == b.pos
    ensures r < 0 <==> Before(a.pos, b.pos)
  {
    ComparePositions(a.pos, b.pos)
  }

  /** The ids of a list of carets, in list order. */
  function Ids(s: seq<Caret>): (r: seq<nat>)
    ensures |r| == |s|
    ensures forall i :: 0 <= i < |s| ==> r[i] == s[i].id
  {
    seq(|s|, i requires 0 <= i < |s| => s[i].id)
  }

  lemma IdsAppend(a: seq<Caret>, b: seq<Caret>)
    ensures Ids(a + b) == Ids(a) + Ids(b)
  {
  }

  /** No two carets of the list are the same caret. */
  predicate DistinctIds(s: seq<Caret>) {
    forall i, j :: 0 <= i < j < |s| ==> s[i].id != s[j].id
  }
}
