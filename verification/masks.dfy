/** Array operations the filtering script borrows from numpy: boolean-mask
    selection `a[mask]` (the same mask applied to several arrays keeps them
    aligned) and the transpose of a two-dimensional array. */
module Masks {

  /** `[f(x) for x in xs]`. */
  function Map<T, U>(f: T -> U, xs: seq<T>): (ys: seq<U>)
    ensures |ys| == |xs|
    ensures forall i :: 0 <= i < |xs| ==> ys[i] == f(xs[i])
  {
    seq(|xs|, i requires 0 <= i < |xs| => f(xs[i]))
  }

  /** The number of `True` entries of a mask. */
  function TrueCount(mask: seq<bool>): (n: nat)
    ensures n <= |mask|
    decreases |mask|
  {
    if |mask| == 0 then 0
    else TrueCount(mask[..|mask| - 1]) + (if mask[|mask| - 1] then 1 else 0)
  }

  /** `xs[mask]`: the entries whose mask entry is `True`, in their order. */
  function Compress<T>(xs: seq<T>, mask: seq<bool>): (kept: seq<T>)
    requires |mask| == |xs|
    ensures |kept| == TrueCount(mask)
    decreases |xs|
  {
    if |xs| == 0 then []
    else
      var n := |xs| - 1;
      var prefix := Compress(xs[..n], mask[..n]);
      if mask[n] then prefix + [xs[n]] else prefix
  }

  /** Every selected entry comes from a `True` position, and every entry at
      a `True` position is selected. */
  lemma {:induction false} CompressContents<T>(xs: seq<T>, mask: seq<bool>)
    requires |mask| == |xs|
    ensures forall k :: 0 <= k < |Compress(xs, mask)| ==>
      exists i :: 0 <= i < |xs| && mask[i] && Compress(xs, mask)[k] == xs[i]
    ensures forall i :: 0 <= i < |xs| && mask[i] ==> xs[i] in Compress(xs, mask)
    decreases |xs|
  {
    if |xs| > 0 {
      var n := |xs| - 1;
      CompressContents(xs[..n], mask[..n]);
      var prefix := Compress(xs[..n], mask[..n]);
      assert forall i :: 0 <= i < n ==> xs[..n][i] == xs[i] && mask[..n][i] == mask[i];
      assert forall k :: 0 <= k < |prefix| ==> exists i :: 0 <= i < n && mask[i] && prefix[k] == xs[i];
      assert forall i :: 0 <= i < n && mask[i] ==> xs[i] in prefix;
      var kept := Compress(xs, mask);
      assert kept == if mask[n] then prefix + [xs[n]] else prefix;
      assert forall k :: 0 <= k < |prefix| ==> kept[k] == prefix[k];
      forall k | 0 <= k < |kept| ensures exists i :: 0 <= i < |xs| && mask[i] && kept[k] == xs[i] {
        if k < |prefix| {
          var i :| 0 <= i < n && mask[i] && prefix[k] == xs[i];
          assert kept[k] == xs[i];
        } else {
          assert mask[n] && kept[k] == xs[n];
        }
      }
      forall i | 0 <= i < |xs| && mask[i] ensures xs[i] in kept {
        if i < n {
          assert xs[i] in prefix;
        } else {
          assert kept[|kept| - 1] == xs[n];
        }
      }
    } else {
      assert Compress(xs, mask) == [];
    }
  }

  /** A property every entry has, every selected entry has. */
  lemma {:induction false} CompressPreserves<T>(xs: seq<T>, mask: seq<bool>, p: T -> bool)
    requires |mask| == |xs|
    requires forall i :: 0 <= i < |xs| ==> p(xs[i])
    ensures forall k :: 0 <= k < |Compress(xs, mask)| ==> p(Compress(xs, mask)[k])
    decreases |xs|
  {
    if |xs| > 0 {
      var n := |xs| - 1;
      assert forall i :: 0 <= i < n ==> xs[..n][i] == xs[i];
      CompressPreserves(xs[..n], mask[..n], p);
      var prefix := Compress(xs[..n], mask[..n]);
      var kept := Compress(xs, mask);
      assert kept == if mask[n] then prefix + [xs[n]] else prefix;
      forall k | 0 <= k < |kept| ensures p(kept[k]) {
        if k < |prefix| {
          assert kept[k] == prefix[k];
        } else {
          assert kept[k] == xs[n];
        }
      }
    }
  }

  /** Selecting with a mask commutes with mapping: masking the mapped array
      gives the mapped selection. This is why the genotype rows and the
      feature keys, masked separately, stay aligned. */
  lemma {:induction false} CompressMap<T, U>(f: T -> U, xs: seq<T>, mask: seq<bool>)
    requires |mask| == |xs|
    ensures Compress(Map(f, xs), mask) == Map(f, Compress(xs, mask))
    decreases |xs|
  {
    if |xs| > 0 {
      var n := |xs| - 1;
      assert Map(f, xs)[..n] == Map(f, xs[..n]);
      CompressMap(f, xs[..n], mask[..n]);
      var prefix := Compress(xs[..n], mask[..n]);
      if mask[n] {
        assert Map(f, prefix + [xs[n]]) == Map(f, prefix) + [f(xs[n])];
      }
    }
  }

  /** What `MaskIndices` knows after scanning the first `i` entries: `idx`
      lists the `True` positions below `i`, in increasing order, and the
      selection of that prefix reads its entries at those positions. */
  ghost predicate IndexesPrefix<T>(xs: seq<T>, mask: seq<bool>, i: nat, idx: seq<nat>)
    requires |mask| == |xs| && i <= |xs|
  {
    var kept := Compress(xs[..i], mask[..i]);
    && |idx| == |kept|
    && (forall k :: 0 <= k < |idx| ==> idx[k] < i && mask[idx[k]] && kept[k] == xs[idx[k]])
    && (forall k, l :: 0 <= k < l < |idx| ==> idx[k] < idx[l])
    && (forall j :: 0 <= j < i && mask[j] ==> j in idx)
  }

  /** Scanning one more entry keeps `IndexesPrefix`. */
  lemma IndexesStep<T>(xs: seq<T>, mask: seq<bool>, i: nat, idx: seq<nat>)
    requires |mask| == |xs| && i < |xs|
    requires IndexesPrefix(xs, mask, i, idx)
    ensures IndexesPrefix(xs, mask, i + 1, if mask[i] then idx + [i] else idx)
  {
    CompressStep(xs, mask, i);
    if mask[i] {
      var next := idx + [i];
      assert forall k :: 0 <= k < |idx| ==> next[k] == idx[k];
      assert forall j :: j in idx ==> j in next;
    }
  }

  lemma IndexesStart<T>(xs: seq<T>, mask: seq<bool>)
    requires |mask| == |xs|
    ensures IndexesPrefix(xs, mask, 0, [])
  {
    assert Compress(xs[..0], mask[..0]) == [];
  }

  /** After the whole scan the prefix is the whole array. */
  lemma IndexesDone<T>(xs: seq<T>, mask: seq<bool>, idx: seq<nat>)
    requires |mask| == |xs|
    requires IndexesPrefix(xs, mask, |xs|, idx)
    ensures |idx| == |Compress(xs, mask)|
    ensures forall k :: 0 <= k < |idx| ==> idx[k] < |xs| && mask[idx[k]] && Compress(xs, mask)[k] == xs[idx[k]]
    ensures forall k, l :: 0 <= k < l < |idx| ==> idx[k] < idx[l]
    ensures forall i :: 0 <= i < |xs| && mask[i] ==> i in idx
  {
    assert xs[..|xs|] == xs && mask[..|mask|] == mask;
  }

  /** The positions `xs[mask]` takes its entries from: strictly increasing
      (the selection keeps the original order), exactly the `True`
      positions, and entry `k` of the selection is `xs[idx[k]]`. */
  method MaskIndices<T>(xs: seq<T>, mask: seq<bool>) returns (idx: seq<nat>)
    requires |mask| == |xs|
    ensures |idx| == |Compress(xs, mask)|
    ensures forall k :: 0 <= k < |idx| ==> idx[k] < |xs| && mask[idx[k]] && Compress(xs, mask)[k] == xs[idx[k]]
    ensures forall k, l :: 0 <= k < l < |idx| ==> idx[k] < idx[l]
    ensures forall i :: 0 <= i < |xs| && mask[i] ==> i in idx
  {
    idx := [];
    var i := 0;
    IndexesStart(xs, mask);
    while i < |xs|
      invariant 0 <= i <= |xs|
      invariant IndexesPrefix(xs, mask, i, idx)
    {
      IndexesStep(xs, mask, i, idx);
      idx := if mask[i] then idx + [i] else idx;
      i := i + 1;
    }
    IndexesDone(xs, mask, idx);
  }

  /** Extending the prefix by one entry selects that entry when its mask
      entry is `True`. */
  lemma CompressStep<T>(xs: seq<T>, mask: seq<bool>, i: nat)
    requires |mask| == |xs| && i < |xs|
    ensures Compress(xs[..i + 1], mask[..i + 1]) ==
      Compress(xs[..i], mask[..i]) + (if mask[i] then [xs[i]] else [])
  {
    assert xs[..i + 1][..i] == xs[..i] && mask[..i + 1][..i] == mask[..i];
  }

  /** The transpose of a matrix whose rows all have `width` entries. */
  function Transpose<T>(m: seq<seq<T>>, width: nat): (t: seq<seq<T>>)
    requires forall f :: 0 <= f < |m| ==> |m[f]| == width
    ensures |t| == width
    ensures forall s :: 0 <= s < width ==> |t[s]| == |m|
    ensures forall s, f :: 0 <= s < width && 0 <= f < |m| ==> t[s][f] == m[f][s]
  {
    seq(width, s requires 0 <= s < width => seq(|m|, f requires 0 <= f < |m| => m[f][s]))
  }

  /** Transposing twice gives the matrix back. */
  lemma TransposeTwice<T>(m: seq<seq<T>>, width: nat)
    requires forall f :: 0 <= f < |m| ==> |m[f]| == width
    ensures Transpose(Transpose(m, width), |m|) == m
  {
    var t := Transpose(m, width);
    var back := Transpose(t, |m|);
    assert forall f :: 0 <= f < |m| ==> back[f] == m[f];
  }
}
