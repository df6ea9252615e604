/** The pair walk of read_file_and_hash, with the file replaced by the
    sequence of words it yields, and the whole count from words to the
    sorted bigram array. */
module PairWalk {
  import opened Words
  import opened Hashing
  import opened Bigrams
  import opened HashTable
  import opened Flattening
  import opened Sorting

  /** The consecutive pairs of normalised words, in reading order. */
  function Pairs(words: seq<string>): (ps: seq<(string, string)>)
    ensures |ps| == if |words| == 0 then 0 else |words| - 1
    ensures forall i :: 0 <= i < |ps| ==> ps[i] == (Normalise(words[i]), Normalise(words[i + 1]))
  {
    if |words| < 2 then []
    else Pairs(words[..|words| - 1]) + [(Normalise(words[|words| - 2]), Normalise(words[|words| - 1]))]
  }

  /** How many entries of ps are the pair (a1, a2). */
  function Occurrences(ps: seq<(string, string)>, a1: string, a2: string): nat {
    if ps == [] then 0
    else Occurrences(ps[..|ps| - 1], a1, a2) + (if ps[|ps| - 1] == (a1, a2) then 1 else 0)
  }

  /** Inserting the pairs one after the other. */
  function InsertAll(t: Table, ps: seq<(string, string)>): (r: Table)
    requires BUCKETS <= |t|
    ensures |r| == |t|
  {
    if ps == [] then t
    else Insert(InsertAll(t, ps[..|ps| - 1]), ps[|ps| - 1].0, ps[|ps| - 1].1)
  }

  /** The table read_file_and_hash leaves for the given words. */
  function BuildTable(words: seq<string>): (t: Table)
    ensures |t| == BUCKETS
  {
    InsertAll(EmptyTable(), Pairs(words))
  }

  /** A bucket that no inserted pair hashes to is left as it was. */
  lemma {:induction false} InsertAllFrame(t: Table, ps: seq<(string, string)>, b: nat)
    requires BUCKETS <= |t| && b < |t|
    requires forall k :: 0 <= k < |ps| ==> Hash(ps[k].0, ps[k].1) != b
    ensures InsertAll(t, ps)[b] == t[b]
    decreases |ps|
  {
    if ps != [] {
      var front := ps[..|ps| - 1];
      assert forall k :: 0 <= k < |front| ==> front[k] == ps[k];
      InsertAllFrame(t, front, b);
    }
  }

  /** Fewer than two words give no pair, and so the empty table. */
  lemma BuildTableShort(words: seq<string>)
    requires |words| < 2
    ensures forall b :: 0 <= b < BUCKETS ==> BuildTable(words)[b] == []
  {
  }

  lemma {:induction false} InsertAllKeepsValid(t: Table, ps: seq<(string, string)>)
    requires Valid(t)
    ensures Valid(InsertAll(t, ps))
    decreases |ps|
  {
    if ps != [] {
      InsertAllKeepsValid(t, ps[..|ps| - 1]);
      InsertKeepsValid(InsertAll(t, ps[..|ps| - 1]), ps[|ps| - 1].0, ps[|ps| - 1].1);
    }
  }

  /** Every inserted pair adds exactly one to the total and one to its own
      count. */
  lemma {:induction false} InsertAllCounts(t: Table, ps: seq<(string, string)>, a1: string, a2: string)
    requires BUCKETS <= |t|
    ensures TableTotal(InsertAll(t, ps)) == TableTotal(t) + |ps|
    ensures TablePairCount(InsertAll(t, ps), a1, a2) == TablePairCount(t, a1, a2) + Occurrences(ps, a1, a2)
    decreases |ps|
  {
    if ps != [] {
      var front := ps[..|ps| - 1];
      var p := ps[|ps| - 1];
      InsertAllCounts(t, front, a1, a2);
      InsertTotal(InsertAll(t, front), p.0, p.1);
      InsertPairCount(InsertAll(t, front), p.0, p.1, a1, a2);
    }
  }

  /** Reading one more word adds one pair, at the end. */
  lemma PairsStep(words: seq<string>, i: nat)
    requires 1 <= i < |words|
    ensures Pairs(words[..i + 1]) == Pairs(words[..i]) + [(Normalise(words[i - 1]), Normalise(words[i]))]
  {
    assert words[..i + 1][..i] == words[..i];
  }

  /** The table built from the words is valid and records one occurrence
      per consecutive pair in all. */
  lemma BuildTableCounts(words: seq<string>)
    ensures Valid(BuildTable(words))
    ensures |words| >= 1 ==> TableTotal(BuildTable(words)) == |words| - 1
  {
    var e := EmptyTable();
    InsertAllKeepsValid(e, Pairs(words));
    InsertAllCounts(e, Pairs(words), "", "");
  }

  /** The table built from the words records each pair as many times as it
      occurs among the consecutive normalised words. */
  lemma BuildTablePairCount(words: seq<string>, a1: string, a2: string)
    ensures TablePairCount(BuildTable(words), a1, a2) == Occurrences(Pairs(words), a1, a2)
  {
    var e := EmptyTable();
    InsertAllCounts(e, Pairs(words), a1, a2);
    assert TablePairCount(e, a1, a2) == 0;
  }

  /** The while loop of read_file_and_hash: each pass normalises the
      previous word and the new one, inserts the pair, and keeps the
      (already normalised) new word as the next first word. No words at all
      leave the table empty, as does a single word. */
  method ReadAndHash(words: seq<string>) returns (t: Table)
    ensures t == BuildTable(words)
    ensures Valid(t)
    ensures |words| >= 1 ==> TableTotal(t) == |words| - 1
  {
    t := EmptyTable();
    if |words| > 0 {
      var first := words[0];
      var i := 1;
      while i < |words|
        invariant 1 <= i <= |words|
        invariant Normalise(first) == Normalise(words[i - 1])
        invariant t == InsertAll(EmptyTable(), Pairs(words[..i]))
      {
        var second := words[i];
        first := LowerCase1(first);
        second := LowerCase1(second);
        first := RemovePunctuationLoop(first);
        second := RemovePunctuationLoop(second);
        PairsStep(words, i);
        t := Insert(t, first, second);
        NormaliseIdempotent(words[i]);
        first := second;
        i := i + 1;
      }
      assert words[..i] == words;
    }
    BuildTableCounts(words);
  }

  lemma {:induction false} OccurrencesPresent(ps: seq<(string, string)>, i: nat)
    requires i < |ps|
    ensures Occurrences(ps, ps[i].0, ps[i].1) >= 1
    decreases |ps|
  {
    if i < |ps| - 1 {
      OccurrencesPresent(ps[..|ps| - 1], i);
    }
  }

  /** In a sequence with distinct pairs every node occurs once. */
  lemma {:induction false} DistinctOnce(s: seq<Bigram>, p: nat)
    requires DistinctPairs(s) && p < |s|
    ensures multiset(s)[s[p]] == 1
    decreases |s|
  {
    var n := |s| - 1;
    var front := s[..n];
    assert s == front + [s[n]];
    assert DistinctPairs(front);
    if p == n {
      assert forall k :: 0 <= k < n ==> front[k] != s[p];
      assert s[p] !in front;
    } else {
      DistinctOnce(front, p);
      assert s[n] != s[p];
    }
  }

  /** A node at two positions occurs at least twice. */
  lemma RepeatedTwice(r: seq<Bigram>, i: nat, j: nat)
    requires i < j < |r| && r[i] == r[j]
    ensures multiset(r)[r[i]] >= 2
  {
    assert r == r[..j] + [r[j]] + r[j + 1..];
    assert r[..j][i] == r[i];
  }

  /** Reordering nodes cannot make two of them share a pair. */
  lemma DistinctPermutation(s: seq<Bigram>, r: seq<Bigram>)
    requires DistinctPairs(s) && multiset(r) == multiset(s)
    ensures DistinctPairs(r)
  {
    forall i, j | 0 <= i < j < |r|
      ensures !HasPair(r[j], r[i].w1, r[i].w2)
    {
      assert r[i] in multiset(s) && r[j] in multiset(s);
      var p :| 0 <= p < |s| && s[p] == r[i];
      var q :| 0 <= q < |s| && s[q] == r[j];
      if p == q {
        DistinctOnce(s, p);
        RepeatedTwice(r, i, j);
        assert false;
      } else if p < q {
        assert !HasPair(s[q], s[p].w1, s[p].w2);
      } else {
        assert !HasPair(s[p], s[q].w1, s[q].w2);
      }
    }
  }

  /** After a reordering of a valid table's nodes, each node still carries
      the count the table records for its pair, which is positive. */
  lemma PermutedNodeCounts(t: Table, r: seq<Bigram>, k: nat)
    requires Valid(t) && multiset(r) == multiset(Flatten(t)) && k < |r|
    ensures r[k].count == TablePairCount(t, r[k].w1, r[k].w2) >= 1
  {
    var flat := Flatten(t);
    assert r[k] in multiset(flat);
    var p :| 0 <= p < |flat| && flat[p] == r[k];
    var b, n := FlattenCover(t, p);
    assert ChainOk(t[b], b);
    ValidNodeCount(t, b, n);
  }

  /** After a reordering of a table's nodes, every pair the table counts
      still has a node. */
  lemma PermutedCoverage(t: Table, r: seq<Bigram>, a1: string, a2: string) returns (k: nat)
    requires multiset(r) == multiset(Flatten(t)) && TablePairCount(t, a1, a2) > 0
    ensures k < |r| && HasPair(r[k], a1, a2)
  {
    var flat := Flatten(t);
    var p := PairCountPresent(flat, a1, a2);
    assert flat[p] in multiset(r);
    k :| 0 <= k < |r| && r[k] == flat[p];
  }

  /** The counter from the word stream to the array main prints from:
      the pair walk, then insertion_sort. Each node of the result is a
      different pair, its count is the number of times that pair occurs
      among the consecutive normalised words, every such pair has a node,
      and the nodes come in non-increasing order of count. */
  method CountBigrams(words: seq<string>) returns (sorted: seq<Bigram>, size: nat)
    ensures size == |sorted|
    ensures SortedDesc(sorted)
    ensures DistinctPairs(sorted)
    ensures forall k :: 0 <= k < |sorted| ==>
      sorted[k].count == Occurrences(Pairs(words), sorted[k].w1, sorted[k].w2) >= 1
    ensures forall i :: 0 <= i < |Pairs(words)| ==>
      exists k :: 0 <= k < |sorted| && HasPair(sorted[k], Pairs(words)[i].0, Pairs(words)[i].1)
  {
    var t := ReadAndHash(words);
    sorted, size := InsertionSort(t);
    ValidFlattenDistinct(t);
    DistinctPermutation(Flatten(t), sorted);
    forall k | 0 <= k < |sorted|
      ensures sorted[k].count == Occurrences(Pairs(words), sorted[k].w1, sorted[k].w2) >= 1
    {
      PermutedNodeCounts(t, sorted, k);
      BuildTablePairCount(words, sorted[k].w1, sorted[k].w2);
    }
    var ps := Pairs(words);
    forall i | 0 <= i < |ps|
      ensures exists k :: 0 <= k < |sorted| && HasPair(sorted[k], ps[i].0, ps[i].1)
    {
      OccurrencesPresent(ps, i);
      BuildTablePairCount(words, ps[i].0, ps[i].1);
      var k := PermutedCoverage(t, sorted, ps[i].0, ps[i].1);
    }
  }
}
