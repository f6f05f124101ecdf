# FeatureAdapter segment bookkeeping, in Dafny

This project models the bookkeeping core of the FeatureAdapter Android library.
A `FeaturesAdapter` is a recycler-view adapter assembled from *feature
controllers*. Each controller owns one *feature data segment*: the view items it
last built. The adapter keeps one flat list of view items, which is what the
recycler view shows. It also keeps a registry that gives every view-type
delegate a view type (0, 1, 2, … in registration order) and stores the item
comparator that delegate creates.

The model is built around one invariant (`FeaturesAdapter.Valid`): the flat list
is the concatenation of the segments, in feature order. Creating the adapter
establishes it. Every feature update preserves it.

Modules:

- `Segments`: the flat list as a concatenation (`Flatten`) and the offset
  of a feature (`Offset`, which is `computeFeatureOffset`). Also the splice
  lemmas that connect editing the flat list to replacing one segment.
- `DiffUtilComparators`: the default comparator and custom comparators.
- `ListUpdates`: the callbacks a diff result dispatches for one feature. Also how
  `ListUpdateCallbackImpl` shifts them into flat-list notifications, and what a
  stream of edits or notifications does to a list.
- `FeaturesAdapter`: the adapter state, registration, construction, the
  queries, the diff callback and the two `updateFeatureItems` overloads.
- `Wrappers`: `Option`, which stands for a Java reference that may be `null`.

The adapter is a value, so every operation returns the new adapter. The
`notifyItemRange*` calls of an update are returned beside it, in call order.

Some calls go into code outside this core, and these become parameters:

- `FeatureController.buildItems` becomes a sequence of built item lists, `None`
  where the controller returned `null`.
- `DiffUtil.calculateDiff` becomes a function from the diff callback to the
  stream of callbacks that its result dispatches.
- `AdapterViewTypeDelegate.createDiffUtilComparator` becomes the `comparatorOf`
  function.

## Model

| member | source | states |
|---|---|---|
| Segments.Offset | feature-adapter/src/main/java/com/groupon/featureadapter/FeaturesAdapter.java:207-213 | a feature's offset is the length of the concatenation of all segments before it, and the feature's slice fits inside the flat list |
| Segments.OffsetAfterUpdate | feature-adapter/src/main/java/com/groupon/featureadapter/FeaturesAdapter.java:207-213 | after segment `i` is replaced, offsets up to feature `i` are unchanged and every later offset moves by new size minus old size |
| Segments.SpliceIsFlattenUpdate | feature-adapter/src/main/java/com/groupon/featureadapter/FeaturesAdapter.java:184-198 | splicing new items over a feature's slice of the flat list gives exactly the concatenation of the segments with that feature's segment replaced |
| Segments.FlattenAllEmpty | feature-adapter/src/main/java/com/groupon/featureadapter/FeaturesAdapter.java:51-59 | segments that are all empty flatten to an empty list |
| Segments.SpliceOfSameSlice | feature-adapter/src/main/java/com/groupon/featureadapter/FeaturesAdapter.java:184-198 | splicing a slice over itself leaves the list unchanged |
| Segments.Locate | feature-adapter/src/main/java/com/groupon/featureadapter/FeaturesAdapter.java:78-81 | every flat position is some segment's offset plus an index into that segment, and holds that segment's item |
| Segments.OffsetMonotone | feature-adapter/src/main/java/com/groupon/featureadapter/FeaturesAdapter.java:207-213 | a later feature never starts before an earlier one |
| Segments.LocateIsUnique | feature-adapter/src/main/java/com/groupon/featureadapter/FeaturesAdapter.java:78-81 | two (segment, index) pairs name the same flat position exactly when they are the same pair, so every position belongs to one feature only |
| Segments.ElementAtOffset | feature-adapter/src/main/java/com/groupon/featureadapter/FeaturesAdapter.java:207-213 | item `k` of segment `i` sits at flat position offset(`i`) + `k` |
| DiffUtilComparators.AreItemsTheSame | feature-adapter/src/main/java/com/groupon/featureadapter/DefaultDiffUtilComparator.java:42-45 | the default comparator treats any two models as the same item; a custom one answers with its own predicate |
| DiffUtilComparators.AreContentsTheSame | feature-adapter/src/main/java/com/groupon/featureadapter/DefaultDiffUtilComparator.java:52-55 | the default comparator reports the same content exactly when the two models are equal |
| DiffUtilComparators.DefaultContentsIsEquivalence | feature-adapter/src/main/java/com/groupon/featureadapter/DefaultDiffUtilComparator.java:47-55 | default content sameness is reflexive, symmetric and transitive |
| ListUpdates.Shift | feature-adapter/src/main/java/com/groupon/featureadapter/FeaturesAdapter.java:299-317 | exactly moves are dropped; every other callback becomes a notification that reads back, minus the offset, as the original callback |
| ListUpdates.Dispatch | feature-adapter/src/main/java/com/groupon/featureadapter/FeaturesAdapter.java:200-205 | never more notifications than callbacks; without moves, one notification per callback, in order, each the callback shifted by the offset; only moves give no notifications |
| ListUpdates.ShiftedEdit | feature-adapter/src/main/java/com/groupon/featureadapter/FeaturesAdapter.java:299-317 | a shifted insert, remove or change applied to `pre + s + post` at the length of `pre` is the same edit applied to `s` alone, with `pre` and `post` untouched |
| ListUpdates.DispatchReplaysEdits | feature-adapter/src/main/java/com/groupon/featureadapter/FeaturesAdapter.java:285-318 | without moves, the shifted notifications stay in range on `pre + s + post` and replay the whole diff on `s` without touching `pre` or `post` |
| ListUpdates.DispatchInContext | feature-adapter/src/main/java/com/groupon/featureadapter/FeaturesAdapter.java:200-205 | the same replay, stated for a slice of a list at an offset |
| FeaturesAdapter.EmptyRegistry | feature-adapter/src/main/java/com/groupon/featureadapter/FeaturesAdapter.java:42-44 | the empty maps form a well-formed registry of size 0 |
| FeaturesAdapter.Put | feature-adapter/src/main/java/com/groupon/featureadapter/FeaturesAdapter.java:218-226 | a delegate gets the registry's size as its view type, with its comparator under the same type; earlier entries are kept and the registry stays well formed |
| FeaturesAdapter.RegisterAdapterViewTypeDelegates | feature-adapter/src/main/java/com/groupon/featureadapter/FeaturesAdapter.java:215-228 | delegates get consecutive view types starting at the old registry size, in order, each with its comparator; earlier entries are kept |
| FeaturesAdapter.RegisterStep | feature-adapter/src/main/java/com/groupon/featureadapter/FeaturesAdapter.java:217-227 | registering the first delegate and then the rest registers the whole list at consecutive types |
| FeaturesAdapter.RegisteredAtConcat | feature-adapter/src/main/java/com/groupon/featureadapter/FeaturesAdapter.java:52-58 | registering one controller's delegates after the earlier ones extends the registration from type 0 to the combined list |
| FeaturesAdapter.RegisterControllers | feature-adapter/src/main/java/com/groupon/featureadapter/FeaturesAdapter.java:51-59 | after all controllers, view type `t` maps to the `t`-th delegate across all controllers (and its comparator), and no other type is registered |
| FeaturesAdapter.Create | feature-adapter/src/main/java/com/groupon/featureadapter/FeaturesAdapter.java:51-59 | the new adapter satisfies the invariant, keeps the controllers in order, has only empty segments and no items, registers every delegate in order from view type 0, and never hands out the invalid type -1 |
| FeaturesAdapter.GetItemCount | feature-adapter/src/main/java/com/groupon/featureadapter/FeaturesAdapter.java:73-76 | under the invariant, the item count is the sum of all segment sizes, that is, the offset past the last feature |
| FeaturesAdapter.ItemViewTypeComesFromSegment | feature-adapter/src/main/java/com/groupon/featureadapter/FeaturesAdapter.java:78-81 | the view type at a flat position is the view type of the item at the matching index of the feature whose slice holds that position |
| FeaturesAdapter.GetFirstItemPositionForType | feature-adapter/src/main/java/com/groupon/featureadapter/FeaturesAdapter.java:137-148 | the answer is -1 exactly when no item has the view type; otherwise it is the first position whose item has it |
| FeaturesAdapter.TypeInItemsIffInSomeSegment | feature-adapter/src/main/java/com/groupon/featureadapter/FeaturesAdapter.java:137-148 | the flat list holds an item of a view type exactly when some feature's segment does |
| FeaturesAdapter.AreItemsTheSame | feature-adapter/src/main/java/com/groupon/featureadapter/FeaturesAdapter.java:263-272 | items of different view types are never the same; under a default comparator, items are the same exactly when their view types agree |
| FeaturesAdapter.AreContentsTheSame | feature-adapter/src/main/java/com/groupon/featureadapter/FeaturesAdapter.java:274-282 | under the old item's default comparator, contents are the same exactly when the models are equal |
| FeaturesAdapter.PreparedUpdateReplays | feature-adapter/src/main/java/com/groupon/featureadapter/FeaturesAdapter.java:107-128 | preparing and applying one feature's update, as the rebuild loop does: the diff compares the feature's segment, which is exactly the flat-list slice at its offset, and for a diff without moves the shifted notifications replay that diff on that slice while everything around it agrees with the new flat list |
| FeaturesAdapter.RemoveRepeatedly | feature-adapter/src/main/java/com/groupon/featureadapter/FeaturesAdapter.java:187-191 | removing at the same index `n` times drops exactly the `n` items from that index and keeps the rest in order |
| FeaturesAdapter.UpdateItems | feature-adapter/src/main/java/com/groupon/featureadapter/FeaturesAdapter.java:184-198 | the result equals the old list with the old segment's slice replaced by the new items, and that holds when either list is empty too |
| FeaturesAdapter.UpdateFeatureItems | feature-adapter/src/main/java/com/groupon/featureadapter/FeaturesAdapter.java:159-169 | with no built items nothing changes and nothing is notified; otherwise only that feature's segment changes, the flat list is spliced at the feature's offset, and the diff is dispatched shifted by that offset (nothing when there is no diff) |
| FeaturesAdapter.UpdateFeaturesFrom | feature-adapter/src/main/java/com/groupon/featureadapter/FeaturesAdapter.java:107-113 | rebuilding features from `i` onward keeps the invariant, leaves earlier features alone, and leaves each later feature with its built items, or its old items where none were built (its notifications are stated by `RebuildNotifications`) |
| FeaturesAdapter.UpdateAllFeatureItems | feature-adapter/src/main/java/com/groupon/featureadapter/FeaturesAdapter.java:107-113 | after rebuilding all features, the invariant holds, each segment is its controller's built items, or its old items where none were built, and the notifications are, feature by feature, each built feature's diff against its old items shifted by where that feature starts in the final list |
| FeaturesAdapter.RebuildNotifications | feature-adapter/src/main/java/com/groupon/featureadapter/FeaturesAdapter.java:107-113 | rebuilding features from `i` onward notifies, in feature order, each building feature's diff against its old items, shifted by that feature's offset in the final segments; nothing for a feature that built nothing |
| FeaturesAdapter.StepNotifications | feature-adapter/src/main/java/com/groupon/featureadapter/FeaturesAdapter.java:159-169 | one feature's update notifies its diff shifted by its offset, which any segments agreeing before the feature give equally |
| FeaturesAdapter.NothingBuiltChangesNothing | feature-adapter/src/main/java/com/groupon/featureadapter/FeaturesAdapter.java:107-113 | when no controller built items, a rebuild leaves the adapter unchanged and notifies nothing |
| FeaturesAdapter.UpdatePreservesValid | feature-adapter/src/main/java/com/groupon/featureadapter/FeaturesAdapter.java:159-169 | every feature update keeps the flat list equal to the concatenation of the segments |
| FeaturesAdapter.FeatureOffsetsAfterUpdate | feature-adapter/src/main/java/com/groupon/featureadapter/FeaturesAdapter.java:207-213 | after a feature is updated, features up to it start where they did, and later ones shift by that feature's change in size |
| FeaturesAdapter.UpdateWithSameItemsKeepsItems | feature-adapter/src/main/java/com/groupon/featureadapter/FeaturesAdapter.java:184-198 | rebuilding a feature with the items it already shows leaves the flat list and the segments unchanged |
| FeaturesAdapter.SegmentItemIsAtOffset | feature-adapter/src/main/java/com/groupon/featureadapter/FeaturesAdapter.java:207-213 | item `k` of feature `i` is in the flat list at the feature's offset plus `k` |
| FeaturesAdapter.SegmentIsSliceAtOffset | feature-adapter/src/main/java/com/groupon/featureadapter/FeaturesAdapter.java:207-213 | a feature's segment is exactly the flat-list slice that starts at its offset |
| FeaturesAdapter.NotificationsReplayUpdate | feature-adapter/src/main/java/com/groupon/featureadapter/FeaturesAdapter.java:165-168 | for a diff without moves, the shifted notifications are all in range on the old flat list; replaying them performs the diff's edits on the feature's slice and leaves everything outside it as in the new flat list; when the edited slice is as long as the new items, the recycler view has as many items as the adapter |
| FeaturesAdapter.ReplayAroundSplice | feature-adapter/src/main/java/com/groupon/featureadapter/FeaturesAdapter.java:184-205 | notifications of a slice's diff, replayed on the whole list, agree outside the slice with the list after the slice is spliced over |
| FeaturesAdapter.TwoDelegatesGetViewTypesZeroAndOne | feature-adapter/src/test/java/com/groupon/featureadapter/FeaturesAdapterTest.java:96-122 | a controller with two delegates gets view types 0 and 1 for them, in order, and no others; after it builds one item of each, positions 0 and 1 have the view types of the first and the second delegate |
| FeaturesAdapter.SecondUpdateReplacesItems | feature-adapter/src/test/java/com/groupon/featureadapter/FeaturesAdapterTest.java:124-152 | a second rebuild of a feature replaces the items of the first one |
| FeaturesAdapter.TwoBuiltItemsGiveItemCountTwo | feature-adapter/src/test/java/com/groupon/featureadapter/FeaturesAdapterTest.java:75-94 | one controller that builds two items gives an item count of 2 |

## Left out

- View-holder creation, binding, attach, detach and recycling (`onCreateViewHolder`, `onBindViewHolder`, `onViewAttachedToWindow`, `onViewDetachedFromWindow`, `onViewRecycled`) are left out. They only forward to delegates, which are foreign code.
- `DiffUtil.calculateDiff` and `DiffResult.dispatchUpdatesTo` are foreign. The diff is a parameter, given as the stream of callbacks it dispatches.
- The recycler view's `notifyItemRange*` calls are returned as a list of notifications instead of being performed.
- What a move would do is defined but never dispatched, because the diff is computed with move detection off and `onMoved` does nothing. The replay lemmas assume a diff without moves.
- The UI-thread requirement, and the split of `toFeatureUpdate` and `updateFeatureItems` across threads in the Rx module, are left out. The model is sequential.
- Java `equals` is modelled as value equality.
- `null` models are left out. A diff callback on a view type that has no comparator would throw a `NullPointerException` in Java. The model rules this out with a precondition instead.
- Java list aliasing is left out. A segment keeps a reference to the list its controller returned, so a controller that later changes that list changes the segment. The model treats lists as values.
- `int` overflow of `position + offset` and of the offset sum is left out, because integers are unbounded here.
- `setViewType` on a delegate is not modelled: the registry records the type instead. Registering the same delegate twice, which would overwrite its type, is left out.
- `getOldListSize`, `getNewListSize` and `getFeatureControllers` are plain accessors and are left out.
- DiffUtilComparators.AreItemsTheSame: for a custom comparator, the contract only restates the delegation to the feature's own predicate. That predicate is foreign code, so nothing more can be said about it.
- DiffUtilComparators.AreContentsTheSame: likewise, for a custom comparator the contract only restates the delegation.
- `HeaderAdapterViewTypeDelegate` and the sample app are not part of this model.
