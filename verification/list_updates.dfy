/**
 The update stream a diff result dispatches for one feature (positions in that
 feature's own list), the notifications the adapter forwards to the recycler
 view (positions in the flat list), and what either stream does to a list.

 A list is modelled as `seq<Option<T>>`: `Some(x)` is a slot still showing the
 old item `x`, `None` is a slot the recycler view has to (re)bind.
 */
module ListUpdates {
  import opened Wrappers

  /** One callback of a diff result, in the coordinates of the feature's list. */
  datatype DiffOp<P> =
    | Inserted(position: int, count: int)
    | Removed(position: int, count: int)
    | Moved(fromPosition: int, toPosition: int)
    | Changed(position: int, count: int, payload: P)

  /** One `notifyItemRange*` call on the adapter, in flat-list coordinates. */
  datatype Notification<P> =
    | ItemRangeInserted(positionStart: int, itemCount: int)
    | ItemRangeRemoved(positionStart: int, itemCount: int)
    | ItemRangeChanged(positionStart: int, itemCount: int, payload: P)

  /** The notification a diff callback turns into, given the feature's offset:
      insertions, removals and changes move by the offset and keep their count;
      moves are not forwarded. */
  function Shift<P>(op: DiffOp<P>, offset: int): (r: Option<Notification<P>>)
    ensures r.None? <==> op.Moved?
    ensures r.Some? ==> Unshift(r.value, offset) == op
  {
    match op
    case Inserted(position, count) => Some(ItemRangeInserted(position + offset, count))
    case Removed(position, count) => Some(ItemRangeRemoved(position + offset, count))
    case Moved(_, _) => None
    case Changed(position, count, payload) => Some(ItemRangeChanged(position + offset, count, payload))
  }

  /** Reads a notification back in the coordinates of a feature at `offset`. */
  function Unshift<P>(n: Notification<P>, offset: int): DiffOp<P>
  {
    match n
    case ItemRangeInserted(start, count) => Inserted(start - offset, count)
    case ItemRangeRemoved(start, count) => Removed(start - offset, count)
    case ItemRangeChanged(start, count, payload) => Changed(start - offset, count, payload)
  }

  predicate NoMoves<P>(ops: seq<DiffOp<P>>)
  {
    forall k :: 0 <= k < |ops| ==> !ops[k].Moved?
  }

  /** All notifications a diff result produces, in dispatch order. */
  function Dispatch<P>(ops: seq<DiffOp<P>>, offset: int): (r: seq<Notification<P>>)
    ensures |r| <= |ops|
    ensures NoMoves(ops) ==> |r| == |ops| && forall k :: 0 <= k < |ops| ==> Unshift(r[k], offset) == ops[k]
    ensures (forall k :: 0 <= k < |ops| ==> ops[k].Moved?) ==> r == []
    decreases |ops|
  {
    if |ops| == 0 then
      []
    else
      var head := match Shift(ops[0], offset) case Some(n) => [n] case None => [];
      assert NoMoves(ops) ==> NoMoves(ops[1..]) by {
        if NoMoves(ops) {
          forall k | 0 <= k < |ops[1..]| ensures !ops[1..][k].Moved? {
            assert ops[1..][k] == ops[k + 1];
          }
        }
      }
      head + Dispatch(ops[1..], offset)
  }

  /** The edit a notification asks the recycler view to perform on the flat list. */
  function AsEdit<P>(n: Notification<P>): DiffOp<P>
  {
    Unshift(n, 0)
  }

  function Blank<T>(n: nat): (r: seq<Option<T>>)
    ensures |r| == n && forall k :: 0 <= k < n ==> r[k].None?
  {
    seq(n, _ => None)
  }

  /** The list shown before any update: every slot holds its item. */
  function Lift<T>(s: seq<T>): (r: seq<Option<T>>)
    ensures |r| == |s| && forall k :: 0 <= k < |s| ==> r[k] == Some(s[k])
  {
    seq(|s|, k requires 0 <= k < |s| => Some(s[k]))
  }

  lemma LiftConcat<T>(a: seq<T>, b: seq<T>, c: seq<T>)
    ensures Lift(a + b + c) == Lift(a) + Lift(b) + Lift(c)
  {
  }

  /** Whether an edit is in range for a list of length `len`. */
  predicate Fits<P>(op: DiffOp<P>, len: int)
  {
    match op
    case Inserted(p, c) => 0 <= p <= len && 0 <= c
    case Removed(p, c) => 0 <= p && 0 <= c && p + c <= len
    case Moved(f, t) => 0 <= f < len && 0 <= t < len
    case Changed(p, c, _) => 0 <= p && 0 <= c && p + c <= len
  }

  function Delta<P>(op: DiffOp<P>): int
  {
    match op
    case Inserted(_, c) => c
    case Removed(_, c) => -c
    case Moved(_, _) => 0
    case Changed(_, _, _) => 0
  }

  /** Performs one edit: insert blank slots, drop slots, move one slot, or blank
      changed slots for rebinding. */
  function Apply<T, P>(op: DiffOp<P>, s: seq<Option<T>>): (r: seq<Option<T>>)
    requires Fits(op, |s|)
    ensures |r| == |s| + Delta(op)
  {
    match op
    case Inserted(p, c) => s[..p] + Blank(c) + s[p..]
    case Removed(p, c) => s[..p] + s[p + c..]
    case Moved(f, t) =>
      var rest := s[..f] + s[f + 1..];
      rest[..t] + [s[f]] + rest[t..]
    case Changed(p, c, _) => s[..p] + Blank(c) + s[p + c..]
  }

  /** Whether a stream of edits stays in range when performed one after another. */
  predicate AllFit<P>(ops: seq<DiffOp<P>>, len: int)
    decreases |ops|
  {
    |ops| == 0 || (Fits(ops[0], len) && AllFit(ops[1..], len + Delta(ops[0])))
  }

  function ApplyAll<T, P>(ops: seq<DiffOp<P>>, s: seq<Option<T>>): seq<Option<T>>
    requires AllFit(ops, |s|)
    decreases |ops|
  {
    if |ops| == 0 then s else ApplyAll(ops[1..], Apply(ops[0], s))
  }

  predicate NotificationsFit<P>(ns: seq<Notification<P>>, len: int)
    decreases |ns|
  {
    |ns| == 0 || (Fits(AsEdit(ns[0]), len) && NotificationsFit(ns[1..], len + Delta(AsEdit(ns[0]))))
  }

  /** What the recycler view does with a stream of notifications. */
  function ApplyNotifications<T, P>(ns: seq<Notification<P>>, s: seq<Option<T>>): seq<Option<T>>
    requires NotificationsFit(ns, |s|)
    decreases |ns|
  {
    if |ns| == 0 then s else ApplyNotifications(ns[1..], Apply(AsEdit(ns[0]), s))
  }

  /** Splicing `x` over the `c` elements at `|pre| + p` of `pre + s + post` is
      splicing it over the `c` elements at `p` of `s`. */
  lemma SpliceInside<T>(pre: seq<T>, s: seq<T>, post: seq<T>, p: nat, c: nat, x: seq<T>)
    requires p + c <= |s|
    ensures (pre + s + post)[..|pre| + p] + x + (pre + s + post)[|pre| + p + c..]
            == pre + (s[..p] + x + s[p + c..]) + post
  {
    var full := pre + s + post;
    assert full[..|pre| + p] == pre + s[..p];
    assert full[|pre| + p + c..] == s[p + c..] + post;
  }

  lemma ShiftedInsert<T, P>(p: int, c: int, pre: seq<Option<T>>, s: seq<Option<T>>, post: seq<Option<T>>)
    requires 0 <= p <= |s| && 0 <= c
    ensures Fits(DiffOp<P>.Inserted(|pre| + p, c), |pre + s + post|)
    ensures Apply(DiffOp<P>.Inserted(|pre| + p, c), pre + s + post) == pre + Apply(DiffOp<P>.Inserted(p, c), s) + post
  {
    var full := pre + s + post;
    var outer := Apply(DiffOp<P>.Inserted(|pre| + p, c), full);
    var inner := Apply(DiffOp<P>.Inserted(p, c), s);
    assert outer == full[..|pre| + p] + Blank(c) + full[|pre| + p + 0..];
    assert inner == s[..p] + Blank(c) + s[p + 0..];
    SpliceInside(pre, s, post, p, 0, Blank(c));
  }

  lemma ShiftedRemove<T, P>(p: int, c: int, pre: seq<Option<T>>, s: seq<Option<T>>, post: seq<Option<T>>)
    requires 0 <= p && 0 <= c && p + c <= |s|
    ensures Fits(DiffOp<P>.Removed(|pre| + p, c), |pre + s + post|)
    ensures Apply(DiffOp<P>.Removed(|pre| + p, c), pre + s + post) == pre + Apply(DiffOp<P>.Removed(p, c), s) + post
  {
    var empty: seq<Option<T>> := [];
    var full := pre + s + post;
    var outer := Apply(DiffOp<P>.Removed(|pre| + p, c), full);
    var inner := Apply(DiffOp<P>.Removed(p, c), s);
    assert outer == full[..|pre| + p] + empty + full[|pre| + p + c..];
    assert inner == s[..p] + empty + s[p + c..];
    SpliceInside(pre, s, post, p, c, empty);
  }

  lemma ShiftedChange<T, P>(p: int, c: int, payload: P, pre: seq<Option<T>>, s: seq<Option<T>>, post: seq<Option<T>>)
    requires 0 <= p && 0 <= c && p + c <= |s|
    ensures Fits(Changed(|pre| + p, c, payload), |pre + s + post|)
    ensures Apply(Changed(|pre| + p, c, payload), pre + s + post) == pre + Apply(Changed(p, c, payload), s) + post
  {
    var full := pre + s + post;
    var outer := Apply(Changed(|pre| + p, c, payload), full);
    var inner := Apply(Changed(p, c, payload), s);
    assert outer == full[..|pre| + p] + Blank(c) + full[|pre| + p + c..];
    assert inner == s[..p] + Blank(c) + s[p + c..];
    SpliceInside(pre, s, post, p, c, Blank(c));
  }

  /** A forwarded notification performs the feature's edit on that feature's slice
      of the flat list and leaves the rest of the flat list alone. */
  lemma ShiftedEdit<T, P>(op: DiffOp<P>, pre: seq<Option<T>>, s: seq<Option<T>>, post: seq<Option<T>>)
    requires !op.Moved? && Fits(op, |s|)
    ensures Shift(op, |pre|).Some?
    ensures Fits(AsEdit(Shift(op, |pre|).value), |pre + s + post|)
    ensures Apply(AsEdit(Shift(op, |pre|).value), pre + s + post) == pre + Apply(op, s) + post
  {
    match op
    case Inserted(p, c) =>
      assert AsEdit(Shift(op, |pre|).value) == Inserted(|pre| + p, c);
      ShiftedInsert<T, P>(p, c, pre, s, post);
    case Removed(p, c) =>
      assert AsEdit(Shift(op, |pre|).value) == Removed(|pre| + p, c);
      ShiftedRemove<T, P>(p, c, pre, s, post);
    case Changed(p, c, payload) =>
      assert AsEdit(Shift(op, |pre|).value) == Changed(|pre| + p, c, payload);
      ShiftedChange(p, c, payload, pre, s, post);
  }

  /** Dispatching a move-free diff result at offset `|pre|` performs, on the flat
      list, exactly the feature's edits inside its slice. */
  lemma {:induction false} DispatchReplaysEdits<T, P>(ops: seq<DiffOp<P>>, pre: seq<Option<T>>, s: seq<Option<T>>, post: seq<Option<T>>)
    requires NoMoves(ops) && AllFit(ops, |s|)
    ensures NotificationsFit(Dispatch(ops, |pre|), |pre + s + post|)
    ensures ApplyNotifications(Dispatch(ops, |pre|), pre + s + post) == pre + ApplyAll(ops, s) + post
    decreases |ops|
  {
    if |ops| != 0 {
      var op := ops[0];
      assert !op.Moved?;
      var n := Shift(op, |pre|).value;
      var ns := Dispatch(ops, |pre|);
      var rest := ops[1..];
      assert NoMoves(rest) by {
        forall k | 0 <= k < |rest| ensures !rest[k].Moved? {
          assert rest[k] == ops[k + 1];
        }
      }
      assert ns == [n] + Dispatch(rest, |pre|);
      assert ns[0] == n && ns[1..] == Dispatch(rest, |pre|);
      ShiftedEdit(op, pre, s, post);
      var s' := Apply(op, s);
      assert Apply(AsEdit(n), pre + s + post) == pre + s' + post;
      DispatchReplaysEdits(rest, pre, s', post);
      var len' := |pre + s + post| + Delta(AsEdit(ns[0]));
      assert len' == |pre + s' + post|;
      assert NotificationsFit(ns[1..], len');
      assert Fits(AsEdit(ns[0]), |pre + s + post|);
      assert NotificationsFit(ns, |pre + s + post|);
    } else {
      assert Dispatch(ops, |pre|) == [];
    }
  }

  /** Dispatching a move-free diff result of the slice `items[o..o + |slice|]` at
      offset `o` performs its edits on that slice of the whole list. */
  lemma DispatchInContext<T, P>(ops: seq<DiffOp<P>>, items: seq<T>, o: nat, slice: seq<T>)
    requires o + |slice| <= |items| && items[o..o + |slice|] == slice
    requires NoMoves(ops) && AllFit(ops, |slice|)
    ensures NotificationsFit(Dispatch(ops, o), |items|)
    ensures ApplyNotifications(Dispatch(ops, o), Lift(items))
            == Lift(items[..o]) + ApplyAll(ops, Lift(slice)) + Lift(items[o + |slice|..])
  {
    var pre, post := items[..o], items[o + |slice|..];
    assert items == pre + slice + post;
    LiftConcat(pre, slice, post);
    DispatchReplaysEdits(ops, Lift(pre), Lift(slice), Lift(post));
  }
}
