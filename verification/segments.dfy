/**
 Concatenation of per-feature segments into one flat list, and the offset of a
 segment inside that list. Generic over the element type.
 */
module Segments {

  /** The concatenation of all segments, in order. */
  function Flatten<T>(segs: seq<seq<T>>): seq<T>
    decreases |segs|
  {
    if |segs| == 0 then [] else Flatten(segs[..|segs| - 1]) + segs[|segs| - 1]
  }

  /** `r` is `s` with the `count` elements at `offset` replaced by `x`: the part
      before `offset` and the part after the replaced slice are unchanged. */
  ghost predicate Spliced<T>(r: seq<T>, s: seq<T>, offset: nat, count: nat, x: seq<T>)
  {
    && offset + count <= |s|
    && |r| == |s| - count + |x|
    && r[..offset] == s[..offset]
    && r[offset..offset + |x|] == x
    && r[offset + |x|..] == s[offset + count..]
  }

  /** Empty segments flatten to the empty list. */
  lemma {:induction false} FlattenAllEmpty<T>(segs: seq<seq<T>>)
    requires forall i :: 0 <= i < |segs| ==> segs[i] == []
    ensures Flatten(segs) == []
    decreases |segs|
  {
    if |segs| > 0 {
      FlattenAllEmpty(segs[..|segs| - 1]);
    }
  }

  /** Cutting out a slice and gluing `x` in its place is a splice. */
  lemma SplicedByConcat<T>(s: seq<T>, offset: nat, count: nat, x: seq<T>)
    requires offset + count <= |s|
    ensures Spliced(s[..offset] + x + s[offset + count..], s, offset, count, x)
  {
    var r := s[..offset] + x + s[offset + count..];
    assert r[..offset] == s[..offset];
    assert r[offset..offset + |x|] == x;
    assert r[offset + |x|..] == s[offset + count..];
  }

  /** Splicing a slice over itself changes nothing. */
  lemma SpliceOfSameSlice<T>(r: seq<T>, s: seq<T>, offset: nat, x: seq<T>)
    requires Spliced(r, s, offset, |x|, x)
    requires s[offset..offset + |x|] == x
    ensures r == s
  {
    assert r == r[..offset] + r[offset..offset + |x|] + r[offset + |x|..];
    assert s == s[..offset] + s[offset..offset + |x|] + s[offset + |x|..];
  }

  /** Sum of the sizes of the segments before segment `i`, accumulated one
      segment at a time. */
  function Offset<T>(segs: seq<seq<T>>, i: nat): (r: nat)
    requires i <= |segs|
    ensures r == |Flatten(segs[..i])|
    ensures i < |segs| ==> r + |segs[i]| <= |Flatten(segs)|
    decreases i
  {
    var r := if i == 0 then 0 else Offset(segs, i - 1) + |segs[i - 1]|;
    assert i > 0 ==> segs[..i][..i - 1] == segs[..i - 1];
    if i < |segs| then FlattenSplit(segs, i); r else r
  }

  /** Replacing segment `i` by `x` moves the offsets of the segments after it by
      the change in size, and leaves the offsets up to segment `i` as they were. */
  lemma {:induction false} OffsetAfterUpdate<T>(segs: seq<seq<T>>, i: nat, x: seq<T>, j: nat)
    requires i < |segs| && j <= |segs|
    ensures Offset(segs[i := x], j) == if j <= i then Offset(segs, j) else Offset(segs, j) + |x| - |segs[i]|
    decreases j
  {
    if j > 0 {
      OffsetAfterUpdate(segs, i, x, j - 1);
      assert Offset(segs[i := x], j) == Offset(segs[i := x], j - 1) + |segs[i := x][j - 1]|;
      assert Offset(segs, j) == Offset(segs, j - 1) + |segs[j - 1]|;
    }
  }

  lemma {:induction false} FlattenAppend<T>(a: seq<seq<T>>, b: seq<seq<T>>)
    ensures Flatten(a + b) == Flatten(a) + Flatten(b)
    decreases |b|
  {
    if |b| == 0 {
      assert a + b == a;
    } else {
      var b' := b[..|b| - 1];
      assert (a + b)[..|a + b| - 1] == a + b';
      assert (a + b)[|a + b| - 1] == b[|b| - 1];
      FlattenAppend(a, b');
      assert Flatten(a + b) == Flatten(a + b') + b[|b| - 1];
      assert Flatten(b) == Flatten(b') + b[|b| - 1];
    }
  }

  /** The flat list is the segments before `i`, then segment `i`, then the segments after it. */
  lemma {:induction false} FlattenSplit<T>(segs: seq<seq<T>>, i: nat)
    requires i < |segs|
    ensures Flatten(segs) == Flatten(segs[..i]) + segs[i] + Flatten(segs[i + 1..])
  {
    var pre, post := segs[..i], segs[i + 1..];
    assert segs == (pre + [segs[i]]) + post;
    assert Flatten([segs[i]]) == segs[i] by {
      assert [segs[i]][..0] == [];
    }
    FlattenAppend(pre, [segs[i]]);
    FlattenAppend(pre + [segs[i]], post);
  }

  /** Replacing segment `i` by `x` replaces exactly its slice of the flat list. */
  lemma FlattenUpdate<T>(segs: seq<seq<T>>, i: nat, x: seq<T>)
    requires i < |segs|
    ensures Flatten(segs[i := x]) == Flatten(segs[..i]) + x + Flatten(segs[i + 1..])
  {
    var segs' := segs[i := x];
    assert segs'[..i] == segs[..i];
    assert segs'[i + 1..] == segs[i + 1..];
    FlattenSplit(segs', i);
  }

  /** Segment `i` sits in the flat list at its offset. */
  lemma {:induction false} SliceAtOffset<T>(segs: seq<seq<T>>, i: nat)
    requires i < |segs|
    ensures Flatten(segs)[Offset(segs, i)..Offset(segs, i) + |segs[i]|] == segs[i]
    ensures Flatten(segs)[..Offset(segs, i)] == Flatten(segs[..i])
    ensures Flatten(segs)[Offset(segs, i) + |segs[i]|..] == Flatten(segs[i + 1..])
  {
    FlattenSplit(segs, i);
    var a, b, c := Flatten(segs[..i]), segs[i], Flatten(segs[i + 1..]);
    var o := Offset(segs, i);
    assert o == |a|;
    assert (a + b + c)[..o] == a;
    assert (a + b + c)[o..o + |b|] == b;
    assert (a + b + c)[o + |b|..] == c;
  }

  /** Element `k` of segment `i` sits at flat position `Offset(segs, i) + k`. */
  lemma ElementAtOffset<T>(segs: seq<seq<T>>, i: nat, k: nat)
    requires i < |segs| && k < |segs[i]|
    ensures Offset(segs, i) + k < |Flatten(segs)|
    ensures Flatten(segs)[Offset(segs, i) + k] == segs[i][k]
  {
    FlattenSplit(segs, i);
    var a, b, c := Flatten(segs[..i]), segs[i], Flatten(segs[i + 1..]);
    assert Offset(segs, i) == |a|;
    assert (a + b + c)[|a| + k] == b[k];
  }

  /** Finds the (segment, index) pair that a flat position belongs to; `LocateIsUnique`
      shows there is no other. */
  lemma {:induction false} Locate<T>(segs: seq<seq<T>>, p: nat) returns (i: nat, k: nat)
    requires p < |Flatten(segs)|
    ensures i < |segs| && k < |segs[i]|
    ensures p == Offset(segs, i) + k
    ensures Flatten(segs)[p] == segs[i][k]
    decreases |segs|
  {
    var n := |segs|;
    var init := segs[..n - 1];
    assert Flatten(segs) == Flatten(init) + segs[n - 1];
    if p < |Flatten(init)| {
      i, k := Locate(init, p);
      assert init[..i] == segs[..i];
      assert Offset(init, i) == Offset(segs, i);
    } else {
      i, k := n - 1, p - |Flatten(init)|;
      assert segs[..n - 1] == init;
    }
  }

  /** Offsets never decrease from one segment to a later one. */
  lemma {:induction false} OffsetMonotone<T>(segs: seq<seq<T>>, i: nat, j: nat)
    requires i <= j <= |segs|
    ensures Offset(segs, i) <= Offset(segs, j)
    decreases j - i
  {
    if i < j {
      OffsetMonotone(segs, i, j - 1);
      assert Offset(segs, j) == Offset(segs, j - 1) + |segs[j - 1]|;
    }
  }

  /** Two (segment, index) pairs name the same flat position exactly when they are
      the same pair: a position in an earlier segment lies before every position in a
      later one. */
  lemma LocateIsUnique<T>(segs: seq<seq<T>>, i: nat, k: nat, i2: nat, k2: nat)
    requires i < |segs| && k < |segs[i]| && i2 < |segs| && k2 < |segs[i2]|
    ensures Offset(segs, i) + k == Offset(segs, i2) + k2 <==> i == i2 && k == k2
  {
    if i < i2 {
      OffsetMonotone(segs, i + 1, i2);
      assert Offset(segs, i) + k < Offset(segs, i2) + k2;
    } else if i2 < i {
      OffsetMonotone(segs, i2 + 1, i);
      assert Offset(segs, i2) + k2 < Offset(segs, i) + k;
    }
  }

  /** A list that agrees with the flat list before segment `i`'s offset, holds `x`
      next, and then agrees with the flat list after segment `i`'s slice, is the
      flat list of the segments with segment `i` replaced by `x`. */
  lemma {:induction false} SpliceIsFlattenUpdate<T>(segs: seq<seq<T>>, i: nat, x: seq<T>, r: seq<T>)
    requires i < |segs|
    requires Spliced(r, Flatten(segs), Offset(segs, i), |segs[i]|, x)
    ensures r == Flatten(segs[i := x])
  {
    var o := Offset(segs, i);
    SliceAtOffset(segs, i);
    FlattenUpdate(segs, i, x);
    var before, after := Flatten(segs[..i]), Flatten(segs[i + 1..]);
    assert r[..o] == before;
    assert r[o + |x|..] == after;
    assert r == r[..o] + r[o..o + |x|] + r[o + |x|..];
    assert r == before + x + after;
  }
}
