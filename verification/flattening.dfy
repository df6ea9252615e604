/** hash_to_array: copying the nodes of the table into one array, bucket
    by bucket and along each chain. */
module Flattening {
  import opened Hashing
  import opened Bigrams

  /** Number of nodes in the table, chain by chain. */
  function NodeCount(t: Table): nat {
    if t == [] then 0 else |t[0]| + NodeCount(t[1..])
  }

  lemma {:induction false} FlattenLength(t: Table)
    ensures |Flatten(t)| == NodeCount(t)
    decreases |t|
  {
    if t != [] {
      var head := [t[0]];
      assert head[..0] == [];
      assert t == head + t[1..];
      FlattenConcat(head, t[1..]);
      FlattenLength(t[1..]);
    }
  }

  /** hash_to_array: the outer loop visits the buckets in index order, the
      inner loop walks a chain from its head; every node visited is stored
      at the next free index and the number stored is reported as the
      size. */
  method HashToArray(t: Table) returns (arr: seq<Bigram>, size: nat)
    ensures arr == Flatten(t)
    ensures size == |arr| == NodeCount(t)
  {
    arr := [];
    size := 0;
    var i := 0;
    while i < |t|
      invariant 0 <= i <= |t|
      invariant arr == Flatten(t[..i])
      invariant size == |arr|
    {
      var chain := t[i];
      var j := 0;
      while j < |chain|
        invariant 0 <= j <= |chain|
        invariant arr == Flatten(t[..i]) + chain[..j]
        invariant size == |arr|
      {
        arr := arr + [chain[j]];
        size := size + 1;
        j := j + 1;
      }
      assert chain[..j] == chain;
      assert t[..i + 1][..i] == t[..i];
      i := i + 1;
    }
    assert t[..i] == t;
    FlattenLength(t);
  }

  /** Index in the flattened array of the first node of bucket b. */
  function Offset(t: Table, b: nat): nat
    requires b <= |t|
  {
    |Flatten(t[..b])|
  }

  lemma OffsetStep(t: Table, b: nat)
    requires b < |t|
    ensures Offset(t, b + 1) == Offset(t, b) + |t[b]|
  {
    assert t[..b + 1][..b] == t[..b];
  }

  lemma {:induction false} OffsetMonotone(t: Table, b1: nat, b2: nat)
    requires b1 <= b2 <= |t|
    ensures Offset(t, b1) <= Offset(t, b2)
    decreases b2 - b1
  {
    if b1 < b2 {
      OffsetStep(t, b1);
      OffsetMonotone(t, b1 + 1, b2);
    }
  }

  /** Node k of bucket b lands at index Offset(t, b) + k. */
  lemma FlattenPlacement(t: Table, b: nat, k: nat)
    requires b < |t| && k < |t[b]|
    ensures Offset(t, b) + k < |Flatten(t)|
    ensures Flatten(t)[Offset(t, b) + k] == t[b][k]
  {
    FlattenSplit(t, b);
  }

  /** Two different nodes never land on the same index: nothing is stored
      twice and nothing overwritten. */
  lemma FlattenPlacementInjective(t: Table, b1: nat, k1: nat, b2: nat, k2: nat)
    requires b1 < |t| && k1 < |t[b1]|
    requires b2 < |t| && k2 < |t[b2]|
    requires b1 != b2 || k1 != k2
    ensures Offset(t, b1) + k1 != Offset(t, b2) + k2
  {
    if b1 < b2 {
      OffsetStep(t, b1);
      OffsetMonotone(t, b1 + 1, b2);
    } else if b2 < b1 {
      OffsetStep(t, b2);
      OffsetMonotone(t, b2 + 1, b1);
    }
  }

  /** Every index of the flattened array holds some node of the table,
      found at bucket b, position k: no node is lost and nothing else
      appears. */
  lemma {:induction false} FlattenCover(t: Table, p: nat) returns (b: nat, k: nat)
    requires p < |Flatten(t)|
    ensures b < |t| && k < |t[b]|
    ensures p == Offset(t, b) + k && Flatten(t)[p] == t[b][k]
    decreases |t|
  {
    var n := |t| - 1;
    var front := t[..n];
    assert Flatten(t) == Flatten(front) + t[n];
    if p < |Flatten(front)| {
      b, k := FlattenCover(front, p);
      assert front[..b] == t[..b];
    } else {
      b, k := n, p - |Flatten(front)|;
    }
  }

  /** In a valid table no pair is held by two nodes, even across buckets:
      equal pairs hash alike and so share a chain. */
  lemma ValidFlattenDistinct(t: Table)
    requires Valid(t)
    ensures DistinctPairs(Flatten(t))
  {
    var s := Flatten(t);
    forall i, j | 0 <= i < j < |s|
      ensures !HasPair(s[j], s[i].w1, s[i].w2)
    {
      var b1, k1 := FlattenCover(t, i);
      var b2, k2 := FlattenCover(t, j);
      assert ChainOk(t[b1], b1) && ChainOk(t[b2], b2);
      if b1 == b2 {
        assert k1 < k2;
      } else {
        assert Hash(s[i].w1, s[i].w2) != Hash(s[j].w1, s[j].w2);
      }
    }
  }

  /** Each node of a valid table carries the full count the table records
      for its pair. */
  lemma ValidNodeCount(t: Table, b: nat, k: nat)
    requires Valid(t) && b < |t| && k < |t[b]|
    ensures TablePairCount(t, t[b][k].w1, t[b][k].w2) == t[b][k].count
  {
    ValidFlattenDistinct(t);
    FlattenPlacement(t, b, k);
    DistinctPairCount(Flatten(t), Offset(t, b) + k);
  }
}
