/** The compute-once cells behind `Person._names`, `Translation._authors`,
    `Translation._translators`, `KnowledgeBase._translations` and
    `KnowledgeBase._translators`: a field that starts as `None` and is
    filled by the first access. */
module Memo {
  import opened Wrappers

  /** Read a cell: an empty cell takes `computed` (what the first access
      computes) and keeps it; a filled cell answers with what it holds and
      stays as it is, whatever `computed` would now be. */
  function Force<T>(cell: Option<T>, computed: T): (r: (T, Option<T>))
    ensures r.1 == Some(r.0)
    ensures cell.Some? ==> r.0 == cell.value && r.1 == cell
    ensures cell.None? ==> r.0 == computed
  {
    match cell
    case Some(v) => (v, cell)
    case None => (computed, Some(computed))
  }

  /** A second access answers as the first did and changes nothing, even when
      the value it would compute has changed in between. */
  lemma ForceOnce<T>(cell: Option<T>, first: T, later: T)
    ensures Force(Force(cell, first).1, later) == Force(cell, first)
  {
  }
}
