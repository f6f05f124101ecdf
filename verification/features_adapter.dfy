/**
 A recycler-view adapter built from features. Each feature controller owns one
 segment of view items; the adapter keeps the flat list of all items, one
 segment per controller, and a registry that hands every view-type delegate a
 view type and remembers the delegate's item comparator.

 The adapter is a value: every operation returns the new adapter, and the
 `notifyItemRange*` calls an update makes are returned beside it, in order.
 */
module FeaturesAdapter {
  import opened Wrappers
  import opened Segments
  import opened ListUpdates
  import C = DiffUtilComparators

  /** The recycler view's marker for "no view type". */
  const InvalidType: int := -1

  /** A model to render, tagged with the view type of the delegate that renders it. */
  datatype ViewItem<M> = ViewItem(model: M, viewType: int)

  /** A feature controller, as far as the adapter's bookkeeping sees it: the
      view-type delegates it contributes, in order. */
  datatype FeatureController<D> = FeatureController(adapterViewTypeDelegates: seq<D>)

  /** View type -> delegate, and view type -> the delegate's item comparator. */
  datatype Registry<D, !M> = Registry(delegates: map<int, D>, comparators: map<int, C.DiffUtilComparator<M>>)

  datatype Adapter<!M, D> = Adapter(
    controllers: seq<FeatureController<D>>,
    segments: seq<seq<ViewItem<M>>>,
    items: seq<ViewItem<M>>,
    registry: Registry<D, M>)

  /** An update of one feature: the items its controller built (None when it built
      none) and the diff of its old segment against them. */
  datatype FeatureUpdate<M, P> = FeatureUpdate(
    featureIndex: nat,
    newItems: Option<seq<ViewItem<M>>>,
    diffResult: Option<seq<DiffOp<P>>>)

  datatype UpdateResult<!M, D, P> = UpdateResult(adapter: Adapter<M, D>, notifications: seq<Notification<P>>)

  /** What the diff routine is given to compare one feature's old and new items. */
  datatype DiffUtilCallback<!M> = DiffUtilCallback(
    comparators: map<int, C.DiffUtilComparator<M>>,
    oldList: seq<ViewItem<M>>,
    newList: seq<ViewItem<M>>)

  // ---------------------------------------------------------------------------
  // Registry

  /** The view types handed out so far are exactly 0 .. size-1, each with a comparator. */
  ghost predicate WellFormed<D, M>(r: Registry<D, M>)
  {
    && (forall t :: t in r.delegates <==> 0 <= t < |r.delegates|)
    && r.comparators.Keys == r.delegates.Keys
  }

  function EmptyRegistry<D, M>(): (r: Registry<D, M>)
    ensures WellFormed(r) && |r.delegates| == 0
  {
    Registry(map[], map[])
  }

  /** Every entry of `r` is still in `r'`, unchanged. */
  ghost predicate Keeps<D, M>(r: Registry<D, M>, r': Registry<D, M>)
  {
    forall t :: t in r.delegates ==>
      && t in r'.delegates && t in r'.comparators && t in r.comparators
      && r'.delegates[t] == r.delegates[t]
      && r'.comparators[t] == r.comparators[t]
  }

  /** View type `base + k` maps to `ds[k]` and to the comparator `ds[k]` creates. */
  ghost predicate RegisteredAt<D, M>(r: Registry<D, M>, base: int, ds: seq<D>, comparatorOf: D -> C.DiffUtilComparator<M>)
  {
    forall t :: base <= t < base + |ds| ==>
      && t in r.delegates && t in r.comparators
      && r.delegates[t] == ds[t - base]
      && r.comparators[t] == comparatorOf(ds[t - base])
  }

  /** The registry maps each view type `t < |ds|` to `ds[t]` and its comparator. */
  ghost predicate RegisteredInOrder<D, M>(r: Registry<D, M>, ds: seq<D>, comparatorOf: D -> C.DiffUtilComparator<M>)
  {
    RegisteredAt(r, 0, ds, comparatorOf)
  }

  /** Registering one delegate under the next free view type. */
  function Put<D, M>(r: Registry<D, M>, d: D, comparatorOf: D -> C.DiffUtilComparator<M>): (r': Registry<D, M>)
    requires WellFormed(r)
    ensures WellFormed(r') && |r'.delegates| == |r.delegates| + 1
    ensures Keeps(r, r') && RegisteredAt(r', |r.delegates|, [d], comparatorOf)
  {
    var viewType := |r.delegates|;
    var r' := Registry(r.delegates[viewType := d], r.comparators[viewType := comparatorOf(d)]);
    assert viewType !in r.delegates;
    assert forall t :: t in r'.delegates <==> 0 <= t < viewType + 1 by {
      forall t ensures t in r'.delegates <==> 0 <= t < viewType + 1 {
        assert t in r'.delegates <==> t == viewType || t in r.delegates;
      }
    }
    r'
  }

  /** Registers delegates in order; each one gets the current registry size as its
      view type, and the comparator it creates is stored under that type. */
  function RegisterAdapterViewTypeDelegates<D, M>(
    r: Registry<D, M>, ds: seq<D>, comparatorOf: D -> C.DiffUtilComparator<M>): (r': Registry<D, M>)
    requires WellFormed(r)
    ensures WellFormed(r')
    ensures |r'.delegates| == |r.delegates| + |ds|
    ensures Keeps(r, r')
    ensures RegisteredAt(r', |r.delegates|, ds, comparatorOf)
    decreases |ds|
  {
    if |ds| == 0 then
      r
    else
      var next := Put(r, ds[0], comparatorOf);
      var r' := RegisterAdapterViewTypeDelegates(next, ds[1..], comparatorOf);
      RegisterStep(r, next, r', ds, comparatorOf);
      r'
  }

  /** Registering `ds[0]` and then `ds[1..]` registers `ds`. */
  lemma RegisterStep<D, M>(r: Registry<D, M>, next: Registry<D, M>, r': Registry<D, M>, ds: seq<D>,
                           comparatorOf: D -> C.DiffUtilComparator<M>)
    requires |ds| > 0 && |next.delegates| == |r.delegates| + 1
    requires Keeps(r, next) && RegisteredAt(next, |r.delegates|, [ds[0]], comparatorOf)
    requires Keeps(next, r') && RegisteredAt(r', |next.delegates|, ds[1..], comparatorOf)
    ensures Keeps(r, r') && RegisteredAt(r', |r.delegates|, ds, comparatorOf)
  {
    var n := |r.delegates|;
    forall t | n <= t < n + |ds|
      ensures t in r'.delegates && t in r'.comparators
      ensures r'.delegates[t] == ds[t - n] && r'.comparators[t] == comparatorOf(ds[t - n])
    {
      if t == n {
        assert t in next.delegates && next.delegates[t] == [ds[0]][t - n];
      } else {
        assert ds[1..][t - (n + 1)] == ds[t - n];
      }
    }
  }

  /** Delegates `prior` registered from view type 0, kept while `ds` is registered
      right after them, make `prior + ds` registered from view type 0. */
  lemma RegisteredAtConcat<D, M>(r: Registry<D, M>, r': Registry<D, M>, prior: seq<D>, ds: seq<D>,
                                 comparatorOf: D -> C.DiffUtilComparator<M>)
    requires RegisteredAt(r, 0, prior, comparatorOf) && Keeps(r, r')
    requires RegisteredAt(r', |prior|, ds, comparatorOf)
    ensures RegisteredAt(r', 0, prior + ds, comparatorOf)
  {
    var all := prior + ds;
    var n := |prior|;
    forall t | 0 <= t < |all|
      ensures t in r'.delegates && t in r'.comparators
      ensures r'.delegates[t] == all[t - 0] && r'.comparators[t] == comparatorOf(all[t - 0])
    {
      if t < n {
        assert t in r.delegates && r.delegates[t] == prior[t - 0];
        assert all[t] == prior[t];
      } else {
        assert all[t] == ds[t - n];
      }
    }
  }

  /** All delegates of all controllers, in registration order. */
  function AllDelegates<D>(cs: seq<FeatureController<D>>): seq<D>
    decreases |cs|
  {
    if |cs| == 0 then [] else AllDelegates(cs[..|cs| - 1]) + cs[|cs| - 1].adapterViewTypeDelegates
  }

  // ---------------------------------------------------------------------------
  // State invariant and construction

  /** The class invariant: one segment per controller, the flat list is the
      concatenation of the segments in feature order, and the registry is well formed. */
  ghost predicate Valid<M, D>(a: Adapter<M, D>)
  {
    && |a.segments| == |a.controllers|
    && a.items == Flatten(a.segments)
    && WellFormed(a.registry)
  }

  /** Installs the controllers in order: each gets an empty segment and its
      delegates are registered, so view types run 0, 1, 2, ... across all of them. */
  function Create<M, D>(cs: seq<FeatureController<D>>, comparatorOf: D -> C.DiffUtilComparator<M>): (a: Adapter<M, D>)
    ensures Valid(a)
    ensures a.controllers == cs
    ensures forall i :: 0 <= i < |a.segments| ==> a.segments[i] == []
    ensures a.items == []
    ensures |a.registry.delegates| == |AllDelegates(cs)|
    ensures RegisteredInOrder(a.registry, AllDelegates(cs), comparatorOf)
    ensures InvalidType !in a.registry.delegates
  {
    var segments := seq(|cs|, _ => []);
    FlattenAllEmpty(segments);
    Adapter(cs, segments, [], RegisterControllers(cs, comparatorOf))
  }

  /** The registry after the delegates of every controller were registered,
      controller by controller. */
  function RegisterControllers<M, D>(cs: seq<FeatureController<D>>, comparatorOf: D -> C.DiffUtilComparator<M>): (r: Registry<D, M>)
    ensures WellFormed(r)
    ensures |r.delegates| == |AllDelegates(cs)|
    ensures RegisteredInOrder(r, AllDelegates(cs), comparatorOf)
    decreases |cs|
  {
    if |cs| == 0 then
      EmptyRegistry()
    else
      var init := cs[..|cs| - 1];
      var prior := RegisterControllers(init, comparatorOf);
      var ds := cs[|cs| - 1].adapterViewTypeDelegates;
      var r := RegisterAdapterViewTypeDelegates(prior, ds, comparatorOf);
      RegisteredAtConcat(prior, r, AllDelegates(init), ds, comparatorOf);
      r
  }

  // ---------------------------------------------------------------------------
  // Queries

  function GetItemCount<M, D>(a: Adapter<M, D>): (n: nat)
    ensures Valid(a) ==> n == Offset(a.segments, |a.segments|)
  {
    assert a.segments[..|a.segments|] == a.segments;
    |a.items|
  }

  function GetItemViewType<M, D>(a: Adapter<M, D>, position: int): int
    requires 0 <= position < |a.items|
  {
    a.items[position].viewType
  }

  /** Linear search for the first item of a view type; -1 when there is none. */
  method GetFirstItemPositionForType<M, D>(a: Adapter<M, D>, viewType: int) returns (position: int)
    ensures -1 <= position < |a.items|
    ensures position == -1 <==> forall k :: 0 <= k < |a.items| ==> a.items[k].viewType != viewType
    ensures position >= 0 ==> a.items[position].viewType == viewType
    ensures forall k :: 0 <= k < position ==> a.items[k].viewType != viewType
  {
    var indexViewItem := 0;
    while indexViewItem < |a.items|
      invariant 0 <= indexViewItem <= |a.items|
      invariant forall k :: 0 <= k < indexViewItem ==> a.items[k].viewType != viewType
    {
      if a.items[indexViewItem].viewType == viewType {
        return indexViewItem;
      }
      indexViewItem := indexViewItem + 1;
    }
    return -1;
  }

  // ---------------------------------------------------------------------------
  // Diff callback

  /** Two items may be paired only when their view types agree, and then only if
      their view type's comparator says so. */
  function AreItemsTheSame<M>(cb: DiffUtilCallback<M>, oldItemPosition: int, newItemPosition: int): (r: bool)
    requires 0 <= oldItemPosition < |cb.oldList| && 0 <= newItemPosition < |cb.newList|
    requires cb.oldList[oldItemPosition].viewType == cb.newList[newItemPosition].viewType
             ==> cb.oldList[oldItemPosition].viewType in cb.comparators
    ensures r ==> cb.oldList[oldItemPosition].viewType == cb.newList[newItemPosition].viewType
    ensures cb.oldList[oldItemPosition].viewType in cb.comparators
            && cb.comparators[cb.oldList[oldItemPosition].viewType].DefaultDiffUtilComparator?
            ==> (r <==> cb.oldList[oldItemPosition].viewType == cb.newList[newItemPosition].viewType)
  {
    var oldItem := cb.oldList[oldItemPosition];
    var newItem := cb.newList[newItemPosition];
    oldItem.viewType == newItem.viewType
    && C.AreItemsTheSame(cb.comparators[oldItem.viewType], oldItem.model, newItem.model)
  }

  /** Content sameness is decided by the old item's view-type comparator. */
  function AreContentsTheSame<M(==)>(cb: DiffUtilCallback<M>, oldItemPosition: int, newItemPosition: int): (r: bool)
    requires 0 <= oldItemPosition < |cb.oldList| && 0 <= newItemPosition < |cb.newList|
    requires cb.oldList[oldItemPosition].viewType in cb.comparators
    ensures cb.comparators[cb.oldList[oldItemPosition].viewType].DefaultDiffUtilComparator?
            ==> (r <==> cb.oldList[oldItemPosition].model == cb.newList[newItemPosition].model)
  {
    var oldItem := cb.oldList[oldItemPosition];
    var newItem := cb.newList[newItemPosition];
    C.AreContentsTheSame(cb.comparators[oldItem.viewType], oldItem.model, newItem.model)
  }

  // ---------------------------------------------------------------------------
  // Updates

  /** Prepares the update of one feature from the items its controller built. When
      items were built, the diff routine compares the feature's current segment with
      them, using the registered comparators. */
  function ToFeatureUpdate<M, D, P>(
    a: Adapter<M, D>, featureIndex: nat, newItems: Option<seq<ViewItem<M>>>,
    calculateDiff: DiffUtilCallback<M> -> seq<DiffOp<P>>): (u: FeatureUpdate<M, P>)
    requires newItems.Some? ==> featureIndex < |a.segments|
    ensures u.featureIndex == featureIndex && u.newItems == newItems
    ensures u.diffResult.Some? <==> newItems.Some?
    ensures newItems.Some? ==>
              u.diffResult == Some(calculateDiff(DiffUtilCallback(a.registry.comparators, a.segments[featureIndex], newItems.value)))
  {
    if newItems.Some? then
      var oldItems := a.segments[featureIndex];
      FeatureUpdate(featureIndex, newItems, Some(calculateDiff(DiffUtilCallback(a.registry.comparators, oldItems, newItems.value))))
    else
      FeatureUpdate(featureIndex, None, None)
  }

  /** `times` successive removals at the same index. */
  function RemoveRepeatedly<T>(items: seq<T>, offset: nat, times: nat): (r: seq<T>)
    requires offset + times <= |items|
    ensures r == items[..offset] + items[offset + times..]
    decreases times
  {
    if times == 0 then
      items
    else
      var once := items[..offset] + items[offset + 1..];
      assert once[..offset] == items[..offset];
      assert once[offset + times - 1..] == items[offset + times..];
      RemoveRepeatedly(once, offset, times - 1)
  }

  /** Inserts `newItems` at `offset`, shifting the rest to the right. */
  function InsertAll<T>(items: seq<T>, offset: nat, newItems: seq<T>): seq<T>
    requires offset <= |items|
  {
    items[..offset] + newItems + items[offset..]
  }

  /** Replaces the old segment's slice of the flat list, which starts at `offset`,
      with the new items. */
  function UpdateItems<T>(items: seq<T>, offset: nat, oldSegment: seq<T>, newItems: seq<T>): (r: seq<T>)
    requires offset + |oldSegment| <= |items|
    ensures Spliced(r, items, offset, |oldSegment|, newItems)
  {
    var removed := if |oldSegment| != 0 then RemoveRepeatedly(items, offset, |oldSegment|) else items;
    var r := if |newItems| != 0 then InsertAll(removed, offset, newItems) else removed;
    assert r == items[..offset] + newItems + items[offset + |oldSegment|..] by {
      assert removed == items[..offset] + items[offset + |oldSegment|..];
      assert removed[..offset] == items[..offset];
      assert removed[offset..] == items[offset + |oldSegment|..];
    }
    SplicedByConcat(items, offset, |oldSegment|, newItems);
    r
  }

  /** Applies one feature update: nothing when no items were built; otherwise the
      feature's slice of the flat list and its segment are replaced by the new
      items, and the diff is forwarded shifted by the feature's offset. */
  function UpdateFeatureItems<M, D, P>(a: Adapter<M, D>, u: FeatureUpdate<M, P>): (r: UpdateResult<M, D, P>)
    requires Valid(a)
    requires u.newItems.Some? ==> u.featureIndex < |a.segments|
    ensures r.adapter.controllers == a.controllers && r.adapter.registry == a.registry
    ensures u.newItems.None? ==> r.adapter == a && r.notifications == []
    ensures u.newItems.Some? ==>
              && r.adapter.segments == a.segments[u.featureIndex := u.newItems.value]
              && Spliced(r.adapter.items, a.items, Offset(a.segments, u.featureIndex),
                         |a.segments[u.featureIndex]|, u.newItems.value)
              && (u.diffResult.None? ==> r.notifications == [])
              && (u.diffResult.Some? ==> r.notifications == Dispatch(u.diffResult.value, Offset(a.segments, u.featureIndex)))
  {
    if u.newItems.None? then
      UpdateResult(a, [])
    else
      var offset := Offset(a.segments, u.featureIndex);
      var dataSegment := a.segments[u.featureIndex];
      var items := UpdateItems(a.items, offset, dataSegment, u.newItems.value);
      var a' := Adapter(a.controllers, a.segments[u.featureIndex := u.newItems.value], items, a.registry);
      var notifications := if u.diffResult.Some? then Dispatch(u.diffResult.value, offset) else [];
      UpdateResult(a', notifications)
  }

  /** Rebuilds features `i ..` in order: each controller's built items (None when it
      built nothing) are diffed against that feature's current segment and applied. */
  function UpdateFeaturesFrom<M, D, P>(
    a: Adapter<M, D>, built: seq<Option<seq<ViewItem<M>>>>,
    calculateDiff: DiffUtilCallback<M> -> seq<DiffOp<P>>, i: nat): (r: UpdateResult<M, D, P>)
    requires Valid(a)
    requires |built| == |a.controllers| && i <= |a.controllers|
    ensures Valid(r.adapter)
    ensures r.adapter.controllers == a.controllers && r.adapter.registry == a.registry
    ensures |r.adapter.segments| == |a.segments|
    ensures forall j :: 0 <= j < i ==> r.adapter.segments[j] == a.segments[j]
    ensures forall j :: i <= j < |a.segments| ==>
              r.adapter.segments[j] == (if built[j].Some? then built[j].value else a.segments[j])
    decreases |a.controllers| - i
  {
    if i == |a.controllers| then
      UpdateResult(a, [])
    else
      var u := ToFeatureUpdate(a, i, built[i], calculateDiff);
      var step := UpdateFeatureItems(a, u);
      UpdatePreservesValid(a, u);
      var rest := UpdateFeaturesFrom(step.adapter, built, calculateDiff, i + 1);
      UpdateResult(rest.adapter, step.notifications + rest.notifications)
  }

  /** Rebuilds every feature from the items its controller built, in feature order. */
  function UpdateAllFeatureItems<M, D, P>(
    a: Adapter<M, D>, built: seq<Option<seq<ViewItem<M>>>>,
    calculateDiff: DiffUtilCallback<M> -> seq<DiffOp<P>>): (r: UpdateResult<M, D, P>)
    requires Valid(a) && |built| == |a.controllers|
    ensures Valid(r.adapter)
    ensures r.adapter.controllers == a.controllers && r.adapter.registry == a.registry
    ensures |r.adapter.segments| == |a.segments|
    ensures forall j :: 0 <= j < |a.segments| ==>
              r.adapter.segments[j] == (if built[j].Some? then built[j].value else a.segments[j])
    ensures r.notifications == ShiftedDiffs(a.registry.comparators, a.segments, built, calculateDiff, r.adapter.segments, 0)
  {
    RebuildNotifications(a, built, calculateDiff, 0, a.segments);
    UpdateFeaturesFrom(a, built, calculateDiff, 0)
  }

  /** The notifications of a rebuild of features `i ..`, described from its start and
      its end alone: for each feature `j` that built items, in order, the diff of its
      old items `olds[j]` against them, shifted by feature `j`'s offset in the final
      segments `finals`; nothing for a feature that built nothing. */
  function ShiftedDiffs<M, P>(
    comparators: map<int, C.DiffUtilComparator<M>>, olds: seq<seq<ViewItem<M>>>,
    built: seq<Option<seq<ViewItem<M>>>>, calculateDiff: DiffUtilCallback<M> -> seq<DiffOp<P>>,
    finals: seq<seq<ViewItem<M>>>, i: nat): seq<Notification<P>>
    requires |olds| == |built| == |finals| && i <= |built|
    decreases |built| - i
  {
    if i == |built| then
      []
    else
      var own := if built[i].Some? then
                   Dispatch(calculateDiff(DiffUtilCallback(comparators, olds[i], built[i].value)), Offset(finals, i))
                 else [];
      own + ShiftedDiffs(comparators, olds, built, calculateDiff, finals, i + 1)
  }

  // ---------------------------------------------------------------------------
  // Properties

  /** Every feature update keeps the flat list equal to the concatenation of the segments. */
  lemma UpdatePreservesValid<M, D, P>(a: Adapter<M, D>, u: FeatureUpdate<M, P>)
    requires Valid(a)
    requires u.newItems.Some? ==> u.featureIndex < |a.segments|
    ensures Valid(UpdateFeatureItems(a, u).adapter)
  {
    if u.newItems.Some? {
      var r := UpdateFeatureItems(a, u).adapter;
      SpliceIsFlattenUpdate(a.segments, u.featureIndex, u.newItems.value, r.items);
    }
  }

  /** A rebuild of features `i ..` sends, in feature order, each building feature's
      diff against its old items, shifted by where that feature starts once the rebuild
      is over. The offset used when feature `j` is applied already is that final one,
      because only the features before `j` decide it and they are final by then. */
  lemma {:induction false} RebuildNotifications<M, D, P>(
    a: Adapter<M, D>, built: seq<Option<seq<ViewItem<M>>>>,
    calculateDiff: DiffUtilCallback<M> -> seq<DiffOp<P>>, i: nat, olds: seq<seq<ViewItem<M>>>)
    requires Valid(a)
    requires |built| == |a.controllers| && i <= |a.controllers|
    requires |olds| == |a.segments| && forall j :: i <= j < |olds| ==> olds[j] == a.segments[j]
    ensures var r := UpdateFeaturesFrom(a, built, calculateDiff, i);
            r.notifications == ShiftedDiffs(a.registry.comparators, olds, built, calculateDiff, r.adapter.segments, i)
    decreases |a.controllers| - i
  {
    if i < |a.controllers| {
      var u := ToFeatureUpdate(a, i, built[i], calculateDiff);
      var step := UpdateFeatureItems(a, u);
      UpdatePreservesValid(a, u);
      RebuildNotifications(step.adapter, built, calculateDiff, i + 1, olds);
      var finals := UpdateFeaturesFrom(a, built, calculateDiff, i).adapter.segments;
      assert finals[..i] == a.segments[..i] by {
        forall j | 0 <= j < i ensures finals[j] == a.segments[j] {
          assert finals[j] == step.adapter.segments[j];
        }
      }
      StepNotifications(a, built[i], calculateDiff, i, olds[i], finals);
    }
  }

  /** The notifications of feature `i`'s update are its diff shifted by its offset in
      any segments that agree with the current ones before `i`. */
  lemma StepNotifications<M, D, P>(
    a: Adapter<M, D>, b: Option<seq<ViewItem<M>>>, calculateDiff: DiffUtilCallback<M> -> seq<DiffOp<P>>,
    i: nat, oldItems: seq<ViewItem<M>>, finals: seq<seq<ViewItem<M>>>)
    requires Valid(a) && i < |a.segments| && oldItems == a.segments[i]
    requires i <= |finals| && finals[..i] == a.segments[..i]
    ensures UpdateFeatureItems(a, ToFeatureUpdate(a, i, b, calculateDiff)).notifications
            == if b.Some? then Dispatch(calculateDiff(DiffUtilCallback(a.registry.comparators, oldItems, b.value)), Offset(finals, i))
               else []
  {
    assert Offset(finals, i) == Offset(a.segments, i);
  }

  /** When no controller built anything, a rebuild leaves the adapter as it was and
      notifies nothing. */
  lemma NothingBuiltChangesNothing<M, D, P>(
    a: Adapter<M, D>, built: seq<Option<seq<ViewItem<M>>>>, calculateDiff: DiffUtilCallback<M> -> seq<DiffOp<P>>)
    requires Valid(a) && |built| == |a.controllers|
    requires forall j :: 0 <= j < |built| ==> built[j].None?
    ensures UpdateAllFeatureItems(a, built, calculateDiff).adapter == a
    ensures UpdateAllFeatureItems(a, built, calculateDiff).notifications == []
  {
    var r := UpdateAllFeatureItems(a, built, calculateDiff);
    assert r.adapter.segments == a.segments;
    NoDiffsWhenNothingBuilt(a.registry.comparators, a.segments, built, calculateDiff, r.adapter.segments, 0);
  }

  lemma {:induction false} NoDiffsWhenNothingBuilt<M, P>(
    comparators: map<int, C.DiffUtilComparator<M>>, olds: seq<seq<ViewItem<M>>>,
    built: seq<Option<seq<ViewItem<M>>>>, calculateDiff: DiffUtilCallback<M> -> seq<DiffOp<P>>,
    finals: seq<seq<ViewItem<M>>>, i: nat)
    requires |olds| == |built| == |finals| && i <= |built|
    requires forall j :: i <= j < |built| ==> built[j].None?
    ensures ShiftedDiffs(comparators, olds, built, calculateDiff, finals, i) == []
    decreases |built| - i
  {
    if i < |built| {
      NoDiffsWhenNothingBuilt(comparators, olds, built, calculateDiff, finals, i + 1);
    }
  }

  /** Preparing and then applying the update of feature `i`, as the rebuild does: the
      diff compares the feature's segment, which is exactly the flat-list slice at the
      feature's offset, and its shifted notifications replay that diff on that slice
      while everything around it agrees with the new flat list. */
  lemma PreparedUpdateReplays<M, D, P>(
    a: Adapter<M, D>, i: nat, x: seq<ViewItem<M>>, calculateDiff: DiffUtilCallback<M> -> seq<DiffOp<P>>)
    requires Valid(a) && i < |a.segments|
    requires NoMoves(calculateDiff(DiffUtilCallback(a.registry.comparators, a.segments[i], x)))
    requires AllFit(calculateDiff(DiffUtilCallback(a.registry.comparators, a.segments[i], x)), |a.segments[i]|)
    ensures Offset(a.segments, i) + |a.segments[i]| <= |a.items|
    ensures a.segments[i] == a.items[Offset(a.segments, i)..Offset(a.segments, i) + |a.segments[i]|]
    ensures var r := UpdateFeatureItems(a, ToFeatureUpdate(a, i, Some(x), calculateDiff));
            ReplaysAround(r.notifications, a.items, r.adapter.items, Offset(a.segments, i), x,
                          ApplyAll(calculateDiff(DiffUtilCallback(a.registry.comparators, a.segments[i], x)), Lift(a.segments[i])))
  {
    SegmentIsSliceAtOffset(a, i);
    NotificationsReplayUpdate(a, ToFeatureUpdate(a, i, Some(x), calculateDiff));
  }

  /** After an update of feature `i`, the features before and at `i` start where
      they did, and every later feature starts shifted by the change in size of
      feature `i`. */
  lemma FeatureOffsetsAfterUpdate<M, D, P>(a: Adapter<M, D>, u: FeatureUpdate<M, P>, j: nat)
    requires Valid(a)
    requires u.newItems.Some? && u.featureIndex < |a.segments|
    requires j <= |a.segments|
    ensures var r := UpdateFeatureItems(a, u).adapter;
            && j <= |r.segments|
            && Offset(r.segments, j)
               == if j <= u.featureIndex then Offset(a.segments, j)
                  else Offset(a.segments, j) + |u.newItems.value| - |a.segments[u.featureIndex]|
  {
    OffsetAfterUpdate(a.segments, u.featureIndex, u.newItems.value, j);
  }

  /** Rebuilding a feature with the items it already shows leaves the flat list and
      the segments as they were. */
  lemma UpdateWithSameItemsKeepsItems<M, D, P>(a: Adapter<M, D>, u: FeatureUpdate<M, P>)
    requires Valid(a)
    requires u.newItems.Some? && u.featureIndex < |a.segments|
    requires u.newItems.value == a.segments[u.featureIndex]
    ensures UpdateFeatureItems(a, u).adapter.items == a.items
    ensures UpdateFeatureItems(a, u).adapter.segments == a.segments
  {
    assert a.segments[u.featureIndex := u.newItems.value] == a.segments;
    SegmentIsSliceAtOffset(a, u.featureIndex);
    SpliceOfSameSlice(UpdateFeatureItems(a, u).adapter.items, a.items, Offset(a.segments, u.featureIndex), u.newItems.value);
  }

  /** The item at a flat position is the item at the matching place of the feature
      whose slice contains that position. */
  lemma ItemViewTypeComesFromSegment<M, D>(a: Adapter<M, D>, position: int) returns (i: nat, k: nat)
    requires Valid(a) && 0 <= position < |a.items|
    ensures i < |a.segments| && k < |a.segments[i]|
    ensures position == Offset(a.segments, i) + k
    ensures GetItemViewType(a, position) == a.segments[i][k].viewType
  {
    i, k := Locate(a.segments, position);
  }

  /** An item of feature `i` sits in the flat list at the feature's offset plus its index. */
  lemma SegmentItemIsAtOffset<M, D>(a: Adapter<M, D>, i: nat, k: nat)
    requires Valid(a) && i < |a.segments| && k < |a.segments[i]|
    ensures Offset(a.segments, i) + k < |a.items|
    ensures a.items[Offset(a.segments, i) + k] == a.segments[i][k]
  {
    ElementAtOffset(a.segments, i, k);
  }

  /** Segment `i` occupies the flat list from its offset on. */
  lemma SegmentIsSliceAtOffset<M, D>(a: Adapter<M, D>, i: nat)
    requires Valid(a) && i < |a.segments|
    ensures Offset(a.segments, i) + |a.segments[i]| <= |a.items|
    ensures a.items[Offset(a.segments, i)..Offset(a.segments, i) + |a.segments[i]|] == a.segments[i]
  {
    SliceAtOffset(a.segments, i);
  }

  /** The flat list has an item of a view type exactly when some segment has one, so
      the search answers -1 exactly when no feature shows that type. */
  lemma TypeInItemsIffInSomeSegment<M, D>(a: Adapter<M, D>, viewType: int)
    requires Valid(a)
    ensures (exists p :: 0 <= p < |a.items| && a.items[p].viewType == viewType)
            <==> (exists i, k :: 0 <= i < |a.segments| && 0 <= k < |a.segments[i]| && a.segments[i][k].viewType == viewType)
  {
    if p :| 0 <= p < |a.items| && a.items[p].viewType == viewType {
      var i, k := Locate(a.segments, p);
      assert a.segments[i][k].viewType == viewType;
    }
    if i, k :| 0 <= i < |a.segments| && 0 <= k < |a.segments[i]| && a.segments[i][k].viewType == viewType {
      var p := Offset(a.segments, i) + k;
      assert 0 <= p < |a.items| && a.items[p] == a.segments[i][k] by {
        SegmentItemIsAtOffset(a, i, k);
      }
      assert a.items[p].viewType == viewType;
    }
  }

  /** Delivering `ns` to a recycler view showing `items` is possible (each
      notification addresses positions that exist when it arrives) and yields
      `spliced` outside positions `o .. o + |x|` and `replayed` inside them; when
      `replayed` is as long as `x` the view ends up as long as `spliced`. */
  ghost predicate ReplaysAround<T, P>(ns: seq<Notification<P>>, items: seq<T>, spliced: seq<T>,
                                      o: nat, x: seq<T>, replayed: seq<Option<T>>)
  {
    && NotificationsFit(ns, |items|)
    && o + |x| <= |spliced|
    && ApplyNotifications(ns, Lift(items)) == Lift(spliced[..o]) + replayed + Lift(spliced[o + |x|..])
    && (|replayed| == |x| ==> |ApplyNotifications(ns, Lift(items))| == |spliced|)
  }

  /** Replaying the notifications of a move-free update on the recycler view's list
      is possible, performs the diff's edits inside the feature's slice and leaves
      the list outside it as the adapter's new flat list has it; when the diff turns
      the old segment into a list as long as the new items, the recycler view ends
      up with as many items as the adapter holds. */
  lemma NotificationsReplayUpdate<M, D, P>(a: Adapter<M, D>, u: FeatureUpdate<M, P>)
    requires Valid(a)
    requires u.newItems.Some? && u.featureIndex < |a.segments|
    requires u.diffResult.Some? && NoMoves(u.diffResult.value)
    requires AllFit(u.diffResult.value, |a.segments[u.featureIndex]|)
    ensures ReplaysAround(UpdateFeatureItems(a, u).notifications, a.items, UpdateFeatureItems(a, u).adapter.items,
                          Offset(a.segments, u.featureIndex), u.newItems.value,
                          ApplyAll(u.diffResult.value, Lift(a.segments[u.featureIndex])))
  {
    var i := u.featureIndex;
    SegmentIsSliceAtOffset(a, i);
    ReplayAroundSplice(u.diffResult.value, UpdateFeatureItems(a, u).notifications, a.items,
                       UpdateFeatureItems(a, u).adapter.items, Offset(a.segments, i), a.segments[i], u.newItems.value);
  }

  /** Replaying shifted edits of one slice on the whole list leaves the items outside
      the slice exactly where the splice that replaces that slice keeps them. */
  lemma ReplayAroundSplice<T, P>(ops: seq<DiffOp<P>>, ns: seq<Notification<P>>, items: seq<T>,
                                 spliced: seq<T>, o: nat, slice: seq<T>, x: seq<T>)
    requires o + |slice| <= |items| && items[o..o + |slice|] == slice
    requires Spliced(spliced, items, o, |slice|, x)
    requires NoMoves(ops) && AllFit(ops, |slice|)
    requires ns == Dispatch(ops, o)
    ensures ReplaysAround(ns, items, spliced, o, x, ApplyAll(ops, Lift(slice)))
  {
    DispatchInContext(ops, items, o, slice);
    assert spliced[..o] == items[..o];
    assert spliced[o + |x|..] == items[o + |slice|..];
  }

  /** A controller with two delegates gets view types 0 and 1 for them, in order; after
      it builds one item of each, the items at positions 0 and 1 have the view types of
      the first and the second delegate. */
  lemma TwoDelegatesGetViewTypesZeroAndOne<M, D, P>(
    d0: D, d1: D, comparatorOf: D -> C.DiffUtilComparator<M>, m0: M, m1: M,
    calculateDiff: DiffUtilCallback<M> -> seq<DiffOp<P>>)
    ensures var a := Create([FeatureController([d0, d1])], comparatorOf);
            && a.registry.delegates.Keys == {0, 1}
            && a.registry.delegates[0] == d0 && a.registry.delegates[1] == d1
            && var r := UpdateAllFeatureItems(a, [Some([ViewItem(m0, 0), ViewItem(m1, 1)])], calculateDiff).adapter;
               && |r.items| == 2
               && GetItemViewType(r, 0) in r.registry.delegates && r.registry.delegates[GetItemViewType(r, 0)] == d0
               && GetItemViewType(r, 1) in r.registry.delegates && r.registry.delegates[GetItemViewType(r, 1)] == d1
  {
    var cs := [FeatureController([d0, d1])];
    var a := Create(cs, comparatorOf);
    assert cs[..0] == [];
    assert AllDelegates(cs) == [d0, d1];
    assert forall t :: t in a.registry.delegates <==> t == 0 || t == 1;
    var r := UpdateAllFeatureItems(a, [Some([ViewItem(m0, 0), ViewItem(m1, 1)])], calculateDiff).adapter;
    assert r.segments == [[ViewItem(m0, 0), ViewItem(m1, 1)]];
    assert r.segments[..0] == [];
    assert r.items == [ViewItem(m0, 0), ViewItem(m1, 1)];
  }

  /** A second rebuild of a feature replaces the items of the first one. */
  lemma SecondUpdateReplacesItems<M, D, P>(
    c: FeatureController<D>, comparatorOf: D -> C.DiffUtilComparator<M>,
    first: seq<ViewItem<M>>, second: seq<ViewItem<M>>, calculateDiff: DiffUtilCallback<M> -> seq<DiffOp<P>>)
    ensures var a := Create([c], comparatorOf);
            var a1 := UpdateAllFeatureItems(a, [Some(first)], calculateDiff).adapter;
            UpdateAllFeatureItems(a1, [Some(second)], calculateDiff).adapter.items == second
  {
    var a := Create([c], comparatorOf);
    var a1 := UpdateAllFeatureItems(a, [Some(first)], calculateDiff).adapter;
    var a2 := UpdateAllFeatureItems(a1, [Some(second)], calculateDiff).adapter;
    assert a2.segments == [second];
    assert a2.segments[..0] == [];
  }

  /** A single controller whose update builds two items leaves two items in the
      adapter. */
  lemma TwoBuiltItemsGiveItemCountTwo<M, D, P>(
    c: FeatureController<D>, comparatorOf: D -> C.DiffUtilComparator<M>,
    a0: ViewItem<M>, a1: ViewItem<M>, calculateDiff: DiffUtilCallback<M> -> seq<DiffOp<P>>)
    ensures var a := Create([c], comparatorOf);
            GetItemCount(UpdateAllFeatureItems(a, [Some([a0, a1])], calculateDiff).adapter) == 2
  {
    var a := Create([c], comparatorOf);
    var r := UpdateAllFeatureItems(a, [Some([a0, a1])], calculateDiff).adapter;
    assert r.segments == [[a0, a1]];
    assert r.segments[..0] == [];
    assert Flatten(r.segments) == [a0, a1];
  }
}
