/** The data of the bigram counter: nodes, bucket chains, the chained hash
    table, its flattening into one node sequence, and the counts read off
    that sequence. A linked list of nodes is a sequence; the table is the
    sequence of its BUCKETS chains. */
module Bigrams {
  import opened Hashing

  datatype Option<T> = None | Some(value: T)

  /** A node: the two words of a bigram and how often the pair was seen. */
  datatype Bigram = Bigram(w1: string, w2: string, count: nat)

  /** A bucket's linked list, head first. */
  type Chain = seq<Bigram>

  /** One chain per bucket. */
  type Table = seq<Chain>

  /** The node holds the pair (w1, w2), the strcmp test of insert. */
  predicate HasPair(n: Bigram, w1: string, w2: string) {
    n.w1 == w1 && n.w2 == w2
  }

  /** Position of the first node of the chain holding (w1, w2), walking
      from the head. */
  function IndexOf(c: Chain, w1: string, w2: string): (r: Option<nat>)
    ensures r.Some? ==> r.value < |c| && HasPair(c[r.value], w1, w2)
    ensures r.Some? ==> forall i :: 0 <= i < r.value ==> !HasPair(c[i], w1, w2)
    ensures r.None? <==> forall i :: 0 <= i < |c| ==> !HasPair(c[i], w1, w2)
  {
    if c == [] then None
    else if HasPair(c[0], w1, w2) then Some(0)
    else match IndexOf(c[1..], w1, w2)
      case None => None
      case Some(k) => Some(k + 1)
  }

  /** The nodes of a table, bucket after bucket, each chain from its head. */
  function Flatten(t: Table): seq<Bigram> {
    if t == [] then [] else Flatten(t[..|t| - 1]) + t[|t| - 1]
  }

  lemma {:induction false} FlattenConcat(a: Table, b: Table)
    ensures Flatten(a + b) == Flatten(a) + Flatten(b)
    decreases |b|
  {
    if b == [] {
      assert a + b == a;
    } else {
      var front, x := b[..|b| - 1], b[|b| - 1];
      assert (a + b)[..|a + b| - 1] == a + front;
      assert (a + b)[|a + b| - 1] == x;
      FlattenConcat(a, front);
      assert Flatten(a + b) == Flatten(a + front) + x;
    }
  }

  /** Flattening around one bucket: the buckets before it, its chain, the
      buckets after it. */
  lemma {:induction false} FlattenSplit(t: Table, h: nat)
    requires h < |t|
    ensures Flatten(t) == Flatten(t[..h]) + t[h] + Flatten(t[h + 1..])
  {
    var single := [t[h]];
    assert single[..0] == [];
    assert Flatten(single) == t[h];
    assert t == (t[..h] + single) + t[h + 1..];
    FlattenConcat(t[..h] + single, t[h + 1..]);
    FlattenConcat(t[..h], single);
  }

  /** Sum of the counts of all nodes. */
  function CountSum(s: seq<Bigram>): nat {
    if s == [] then 0 else CountSum(s[..|s| - 1]) + s[|s| - 1].count
  }

  /** Sum of the counts of the nodes holding (w1, w2). */
  function PairCount(s: seq<Bigram>, w1: string, w2: string): nat {
    if s == [] then 0
    else PairCount(s[..|s| - 1], w1, w2) + (if HasPair(s[|s| - 1], w1, w2) then s[|s| - 1].count else 0)
  }

  lemma {:induction false} CountSumConcat(a: seq<Bigram>, b: seq<Bigram>)
    ensures CountSum(a + b) == CountSum(a) + CountSum(b)
    decreases |b|
  {
    if b == [] {
      assert a + b == a;
    } else {
      assert (a + b)[..|a + b| - 1] == a + b[..|b| - 1];
      CountSumConcat(a, b[..|b| - 1]);
    }
  }

  lemma {:induction false} PairCountConcat(a: seq<Bigram>, b: seq<Bigram>, w1: string, w2: string)
    ensures PairCount(a + b, w1, w2) == PairCount(a, w1, w2) + PairCount(b, w1, w2)
    decreases |b|
  {
    if b == [] {
      assert a + b == a;
    } else {
      assert (a + b)[..|a + b| - 1] == a + b[..|b| - 1];
      PairCountConcat(a, b[..|b| - 1], w1, w2);
    }
  }

  /** A pair no node holds has count 0. */
  lemma {:induction false} PairCountAbsent(s: seq<Bigram>, w1: string, w2: string)
    requires forall i :: 0 <= i < |s| ==> !HasPair(s[i], w1, w2)
    ensures PairCount(s, w1, w2) == 0
    decreases |s|
  {
    if s != [] {
      PairCountAbsent(s[..|s| - 1], w1, w2);
    }
  }

  /** When pairs are distinct, the count of a node's pair is that node's
      own count. */
  lemma {:induction false} DistinctPairCount(s: seq<Bigram>, i: nat)
    requires DistinctPairs(s) && i < |s|
    ensures PairCount(s, s[i].w1, s[i].w2) == s[i].count
    decreases |s|
  {
    var n := |s| - 1;
    var front := s[..n];
    if i < n {
      assert DistinctPairs(front);
      DistinctPairCount(front, i);
    } else {
      PairCountAbsent(front, s[i].w1, s[i].w2);
    }
  }

  /** A pair with a positive count is held by some node. */
  lemma {:induction false} PairCountPresent(s: seq<Bigram>, w1: string, w2: string) returns (q: nat)
    requires PairCount(s, w1, w2) > 0
    ensures q < |s| && HasPair(s[q], w1, w2)
    decreases |s|
  {
    if HasPair(s[|s| - 1], w1, w2) {
      q := |s| - 1;
    } else {
      q := PairCountPresent(s[..|s| - 1], w1, w2);
    }
  }

  /** Total number of bigram occurrences the table records. */
  function TableTotal(t: Table): nat {
    CountSum(Flatten(t))
  }

  /** Number of occurrences of (w1, w2) the table records. */
  function TablePairCount(t: Table, w1: string, w2: string): nat {
    PairCount(Flatten(t), w1, w2)
  }

  /** Replacing one bucket's chain changes the total by the difference of
      the two chains' totals. */
  lemma TableTotalUpdate(t: Table, h: nat, c: Chain)
    requires h < |t|
    ensures TableTotal(t[h := c]) + CountSum(t[h]) == TableTotal(t) + CountSum(c)
  {
    var u := t[h := c];
    FlattenSplit(t, h);
    FlattenSplit(u, h);
    assert u[..h] == t[..h] && u[h + 1..] == t[h + 1..];
    CountSumConcat(Flatten(t[..h]) + t[h], Flatten(t[h + 1..]));
    CountSumConcat(Flatten(t[..h]), t[h]);
    CountSumConcat(Flatten(t[..h]) + c, Flatten(t[h + 1..]));
    CountSumConcat(Flatten(t[..h]), c);
  }

  /** Replacing one bucket's chain changes the count of a pair by the
      difference of the two chains' counts of it. */
  lemma TablePairCountUpdate(t: Table, h: nat, c: Chain, w1: string, w2: string)
    requires h < |t|
    ensures TablePairCount(t[h := c], w1, w2) + PairCount(t[h], w1, w2) == TablePairCount(t, w1, w2) + PairCount(c, w1, w2)
  {
    var u := t[h := c];
    FlattenSplit(t, h);
    FlattenSplit(u, h);
    assert u[..h] == t[..h] && u[h + 1..] == t[h + 1..];
    PairCountConcat(Flatten(t[..h]) + t[h], Flatten(t[h + 1..]), w1, w2);
    PairCountConcat(Flatten(t[..h]), t[h], w1, w2);
    PairCountConcat(Flatten(t[..h]) + c, Flatten(t[h + 1..]), w1, w2);
    PairCountConcat(Flatten(t[..h]), c, w1, w2);
  }

  /** A chain kept by the table: each of its nodes hashes to bucket b and
      has been seen at least once, and no two of its nodes hold the same
      pair. */
  predicate ChainOk(c: Chain, b: nat) {
    ChainInBucket(c, b) && DistinctPairs(c)
  }

  /** Every node hashes to bucket b and has been seen at least once. */
  predicate ChainInBucket(c: Chain, b: nat) {
    forall k :: 0 <= k < |c| ==> Hash(c[k].w1, c[k].w2) == b && c[k].count >= 1
  }

  /** No two nodes of the sequence hold the same pair. */
  predicate DistinctPairs(s: seq<Bigram>) {
    forall i, j :: 0 <= i < j < |s| ==> !HasPair(s[j], s[i].w1, s[i].w2)
  }

  /** The table invariant: BUCKETS chains, each one kept. */
  predicate Valid(t: Table) {
    |t| == BUCKETS && forall b :: 0 <= b < |t| ==> ChainOk(t[b], b)
  }

  lemma {:induction false} FlattenAllEmpty(t: Table)
    requires forall b :: 0 <= b < |t| ==> t[b] == []
    ensures Flatten(t) == []
    decreases |t|
  {
    if t != [] {
      FlattenAllEmpty(t[..|t| - 1]);
    }
  }

  /** The table main starts from: every bucket NULL. */
  function EmptyTable(): (t: Table)
    ensures Valid(t)
    ensures forall b :: 0 <= b < |t| ==> t[b] == []
    ensures Flatten(t) == [] && TableTotal(t) == 0
  {
    var t := seq(BUCKETS, _ => []);
    FlattenAllEmpty(t);
    t
  }
}
