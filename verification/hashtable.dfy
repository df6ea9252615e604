/** insert: adding one occurrence of a bigram to the chained hash table. */
module HashTable {
  import opened Hashing
  import opened Bigrams

  /** The node after one more occurrence of its pair. */
  function Bump(n: Bigram): Bigram {
    n.(count := n.count + 1)
  }

  /** The walk insert does along one bucket's chain: the first node holding
      the pair has its count raised; when no node holds it, a node with
      count 1 is linked after the tail (or becomes the head of an empty
      bucket). */
  function InsertChain(c: Chain, w1: string, w2: string): (r: Chain)
    ensures IndexOf(c, w1, w2).Some? ==> var k := IndexOf(c, w1, w2).value; r == c[k := Bump(c[k])]
    ensures IndexOf(c, w1, w2).None? ==> r == c + [Bigram(w1, w2, 1)]
  {
    if c == [] then [Bigram(w1, w2, 1)]
    else if HasPair(c[0], w1, w2) then [Bump(c[0])] + c[1..]
    else [c[0]] + InsertChain(c[1..], w1, w2)
  }

  /** insert: only the chain of bucket Hash(w1, w2) is walked. The table
      must have an entry for every bucket index. */
  function Insert(t: Table, w1: string, w2: string): (r: Table)
    requires BUCKETS <= |t|
    ensures |r| == |t|
    ensures forall b :: 0 <= b < |t| && b != Hash(w1, w2) ==> r[b] == t[b]
    ensures var h := Hash(w1, w2);
      match IndexOf(t[h], w1, w2)
      case Some(k) => r[h] == t[h][k := Bump(t[h][k])]
      case None => r[h] == t[h] + [Bigram(w1, w2, 1)]
  {
    var h := Hash(w1, w2);
    t[h := InsertChain(t[h], w1, w2)]
  }

  /** insert keeps a chain well kept: nodes stay in their bucket, counts
      stay positive, and no pair is ever linked twice. */
  lemma InsertChainKeepsChain(c: Chain, b: nat, w1: string, w2: string)
    requires ChainOk(c, b) && Hash(w1, w2) == b
    ensures ChainOk(InsertChain(c, w1, w2), b)
  {
    var r := InsertChain(c, w1, w2);
    var idx := IndexOf(c, w1, w2);
    if idx.Some? {
      var k := idx.value;
      assert r == c[k := Bump(c[k])];
      assert forall i :: 0 <= i < |c| ==> r[i].w1 == c[i].w1 && r[i].w2 == c[i].w2 && r[i].count >= c[i].count;
      assert ChainInBucket(r, b);
      assert DistinctPairs(r);
    } else {
      assert r == c + [Bigram(w1, w2, 1)];
      assert forall i :: 0 <= i < |c| ==> r[i] == c[i];
      assert ChainInBucket(r, b);
      assert forall i :: 0 <= i < |c| ==> !HasPair(r[|c|], r[i].w1, r[i].w2);
      assert DistinctPairs(r);
    }
  }

  /** insert preserves the table invariant. */
  lemma InsertKeepsValid(t: Table, w1: string, w2: string)
    requires Valid(t)
    ensures Valid(Insert(t, w1, w2))
  {
    var h := Hash(w1, w2);
    InsertChainKeepsChain(t[h], h, w1, w2);
  }

  /** After insert exactly one node of the table holds (w1, w2): it sits in
      bucket Hash(w1, w2), and its count is one more than before, or 1 when
      the pair was new. */
  lemma InsertLeavesOnePair(t: Table, w1: string, w2: string)
    requires Valid(t)
    ensures var r := Insert(t, w1, w2); var h := Hash(w1, w2);
      && IndexOf(r[h], w1, w2).Some?
      && (forall i :: 0 <= i < |r[h]| && i != IndexOf(r[h], w1, w2).value ==> !HasPair(r[h][i], w1, w2))
      && r[h][IndexOf(r[h], w1, w2).value].count
         == (match IndexOf(t[h], w1, w2) case Some(k) => t[h][k].count + 1 case None => 1)
    ensures var r := Insert(t, w1, w2);
      forall b, i :: 0 <= b < |r| && b != Hash(w1, w2) && 0 <= i < |r[b]| ==> !HasPair(r[b][i], w1, w2)
  {
    var r := Insert(t, w1, w2);
    var h := Hash(w1, w2);
    InsertKeepsValid(t, w1, w2);
    assert ChainOk(r[h], h);
    match IndexOf(t[h], w1, w2)
    case Some(k) =>
      assert HasPair(r[h][k], w1, w2);
    case None =>
      assert HasPair(r[h][|t[h]|], w1, w2);
  }

  /** Replacing one node of a sequence changes its counts by the
      difference between the old node and the new one. */
  lemma UpdateCounts(s: seq<Bigram>, k: nat, n: Bigram, w1: string, w2: string)
    requires k < |s|
    ensures CountSum(s[k := n]) + s[k].count == CountSum(s) + n.count
    ensures PairCount(s[k := n], w1, w2) + (if HasPair(s[k], w1, w2) then s[k].count else 0)
         == PairCount(s, w1, w2) + (if HasPair(n, w1, w2) then n.count else 0)
  {
    var u := s[k := n];
    assert s == (s[..k] + [s[k]]) + s[k + 1..];
    assert u == (s[..k] + [n]) + s[k + 1..];
    CountSumConcat(s[..k] + [s[k]], s[k + 1..]);
    CountSumConcat(s[..k] + [n], s[k + 1..]);
    PairCountConcat(s[..k] + [s[k]], s[k + 1..], w1, w2);
    PairCountConcat(s[..k] + [n], s[k + 1..], w1, w2);
    assert (s[..k] + [s[k]])[..k] == s[..k];
    assert (s[..k] + [n])[..k] == s[..k];
  }

  /** One insert into a chain records exactly one more occurrence, of the
      inserted pair and of no other. */
  lemma InsertChainCounts(c: Chain, w1: string, w2: string, a1: string, a2: string)
    ensures CountSum(InsertChain(c, w1, w2)) == CountSum(c) + 1
    ensures PairCount(InsertChain(c, w1, w2), a1, a2)
         == PairCount(c, a1, a2) + (if a1 == w1 && a2 == w2 then 1 else 0)
  {
    match IndexOf(c, w1, w2)
    case Some(k) =>
      UpdateCounts(c, k, Bump(c[k]), a1, a2);
    case None =>
      assert (c + [Bigram(w1, w2, 1)])[..|c|] == c;
  }

  /** The sum of all counts in the table grows by exactly one. */
  lemma InsertTotal(t: Table, w1: string, w2: string)
    requires BUCKETS <= |t|
    ensures TableTotal(Insert(t, w1, w2)) == TableTotal(t) + 1
  {
    var h := Hash(w1, w2);
    InsertChainCounts(t[h], w1, w2, w1, w2);
    TableTotalUpdate(t, h, InsertChain(t[h], w1, w2));
  }

  /** The recorded count of the inserted pair grows by one, and that of
      every other pair stays the same. */
  lemma InsertPairCount(t: Table, w1: string, w2: string, a1: string, a2: string)
    requires BUCKETS <= |t|
    ensures TablePairCount(Insert(t, w1, w2), a1, a2)
         == TablePairCount(t, a1, a2) + (if a1 == w1 && a2 == w2 then 1 else 0)
  {
    var h := Hash(w1, w2);
    InsertChainCounts(t[h], w1, w2, a1, a2);
    TablePairCountUpdate(t, h, InsertChain(t[h], w1, w2), a1, a2);
  }
}
