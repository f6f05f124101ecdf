/**
 Item comparators consulted while diffing one feature's old and new item lists.
 A comparator is either the library's default one or a feature-supplied pair of
 predicates (foreign code, given as functions).
 */
module DiffUtilComparators {

  datatype DiffUtilComparator<!M> =
    | DefaultDiffUtilComparator
    | CustomDiffUtilComparator(itemsSame: (M, M) -> bool, contentsSame: (M, M) -> bool)

  /** Whether two models stand for the same item (so the diff may pair them). The
      default comparator treats every pair as the same placeholder. */
  function AreItemsTheSame<M>(c: DiffUtilComparator<M>, oldModel: M, newModel: M): (r: bool)
    ensures c.DefaultDiffUtilComparator? ==> r
    ensures c.CustomDiffUtilComparator? ==> r == c.itemsSame(oldModel, newModel)
  {
    match c
    case DefaultDiffUtilComparator => true
    case CustomDiffUtilComparator(itemsSame, _) => itemsSame(oldModel, newModel)
  }

  /** Whether a paired item's content is unchanged. The default comparator uses
      model equality (Java `equals`, modelled as value equality). */
  function AreContentsTheSame<M(==)>(c: DiffUtilComparator<M>, oldModel: M, newModel: M): (r: bool)
    ensures c.DefaultDiffUtilComparator? ==> (r <==> oldModel == newModel)
    ensures c.CustomDiffUtilComparator? ==> r == c.contentsSame(oldModel, newModel)
  {
    match c
    case DefaultDiffUtilComparator => oldModel == newModel
    case CustomDiffUtilComparator(_, contentsSame) => contentsSame(oldModel, newModel)
  }

  /** Under the default comparator, content sameness is an equivalence relation:
      every model has the same content as itself, and the relation is symmetric
      and transitive. */
  lemma DefaultContentsIsEquivalence<M>(x: M, y: M, z: M)
    ensures AreContentsTheSame(DefaultDiffUtilComparator, x, x)
    ensures AreContentsTheSame(DefaultDiffUtilComparator, x, y) == AreContentsTheSame(DefaultDiffUtilComparator, y, x)
    ensures AreContentsTheSame(DefaultDiffUtilComparator, x, y) && AreContentsTheSame(DefaultDiffUtilComparator, y, z)
            ==> AreContentsTheSame(DefaultDiffUtilComparator, x, z)
  {
  }
}
