/** Sequence helpers shared by the grouping and labelling models. */
module Seqs {

  /** Concatenation of a sequence of sequences, in order (JavaScript's `push(...group)` repeated). */
  function Flatten<T>(ss: seq<seq<T>>): (r: seq<T>)
    decreases |ss|
  {
    if |ss| == 0 then [] else ss[0] + Flatten(ss[1..])
  }

  /** Flattening distributes over concatenation. */
  lemma {:induction false} FlattenConcat<T>(a: seq<seq<T>>, b: seq<seq<T>>)
    ensures Flatten(a + b) == Flatten(a) + Flatten(b)
    decreases |a|
  {
    if |a| == 0 {
      assert a + b == b;
    } else {
      assert (a + b)[1..] == a[1..] + b;
      FlattenConcat(a[1..], b);
    }
  }

  /** The first block is part of the flattened sequence. */
  lemma FlattenHead<T>(ss: seq<seq<T>>)
    ensures |ss| > 0 ==> |Flatten(ss)| >= |ss[0]|
  {
  }

  /** Taking one more group appends that group to the flattened prefix. */
  lemma FlattenPrefixStep<T>(ss: seq<seq<T>>, k: nat)
    requires k < |ss|
    ensures Flatten(ss[..k + 1]) == Flatten(ss[..k]) + ss[k]
  {
    assert ss[..k + 1] == ss[..k] + [ss[k]];
    FlattenConcat(ss[..k], [ss[k]]);
    assert Flatten([ss[k]]) == ss[k] + Flatten([]);
  }

  /** Where block `k` starts in the flattened sequence. */
  function Offset<T>(ss: seq<seq<T>>, k: nat): nat
    requires k <= |ss|
  {
    |Flatten(ss[..k])|
  }

  /** Element `j` of block `k` sits at `Offset(ss, k) + j` of the flattened sequence. */
  lemma {:induction false} FlattenIndex<T>(ss: seq<seq<T>>, k: nat, j: nat)
    requires k < |ss| && j < |ss[k]|
    ensures Offset(ss, k) + j < |Flatten(ss)|
    ensures Flatten(ss)[Offset(ss, k) + j] == ss[k][j]
  {
    assert ss == ss[..k + 1] + ss[k + 1..];
    FlattenConcat(ss[..k + 1], ss[k + 1..]);
    FlattenPrefixStep(ss, k);
  }

  /** Block-wise sequences of equal block lengths flatten to equal lengths. */
  lemma {:induction false} FlattenSameShape<A, B>(a: seq<seq<A>>, b: seq<seq<B>>)
    requires |a| == |b| && forall i :: 0 <= i < |a| ==> |a[i]| == |b[i]|
    ensures |Flatten(a)| == |Flatten(b)|
    decreases |a|
  {
    if |a| > 0 {
      FlattenSameShape(a[1..], b[1..]);
    }
  }

  /** Every position of the flattened sequence belongs to some block. */
  lemma {:induction false} Locate<T>(ss: seq<seq<T>>, i: nat) returns (k: nat, j: nat)
    requires i < |Flatten(ss)|
    ensures k < |ss| && j < |ss[k]| && Offset(ss, k) + j == i
    decreases |ss|
  {
    assert Flatten(ss) == ss[0] + Flatten(ss[1..]);
    if i < |ss[0]| {
      k, j := 0, i;
      assert ss[..0] == [];
    } else {
      var k', j' := Locate(ss[1..], i - |ss[0]|);
      k, j := k' + 1, j';
      assert ss[..k][1..] == ss[1..][..k'];
      assert Flatten(ss[..k]) == ss[0] + Flatten(ss[..k][1..]);
    }
  }

  /** Element `j` of block `k` of `a` sits at the offset of block `k` in any `b` of the same block shape. */
  lemma FlattenIndexShape<A, B>(a: seq<seq<A>>, b: seq<seq<B>>, k: nat, j: nat)
    requires |a| == |b| && forall i :: 0 <= i < |a| ==> |a[i]| == |b[i]|
    requires k < |a| && j < |a[k]|
    ensures Offset(b, k) + j < |Flatten(a)|
    ensures Flatten(a)[Offset(b, k) + j] == a[k][j]
  {
    FlattenSameShape(a[..k], b[..k]);
    FlattenIndex(a, k, j);
  }
}
