/** insertion_sort: ordering the flattened nodes by non-increasing count.
    The shift test is a strict `<`, so a node never moves past one with the
    same count and the sort is stable. */
module Sorting {
  import opened Bigrams
  import opened Flattening

  /** Counts do not increase from left to right. */
  predicate SortedDesc(s: seq<Bigram>) {
    forall i, j :: 0 <= i < j < |s| ==> s[i].count >= s[j].count
  }

  /** The nodes with count c, in their order in s. */
  function WithCount(s: seq<Bigram>, c: nat): seq<Bigram> {
    if s == [] then []
    else WithCount(s[..|s| - 1], c) + (if s[|s| - 1].count == c then [s[|s| - 1]] else [])
  }

  lemma {:induction false} WithCountConcat(a: seq<Bigram>, b: seq<Bigram>, c: nat)
    ensures WithCount(a + b, c) == WithCount(a, c) + WithCount(b, c)
    decreases |b|
  {
    if b == [] {
      assert a + b == a;
    } else {
      assert (a + b)[..|a + b| - 1] == a + b[..|b| - 1];
      WithCountConcat(a, b[..|b| - 1], c);
    }
  }

  /** One pass of the outer loop as a function: key x is moved left past
      every node of the sorted prefix s whose count is strictly smaller,
      scanning from the right end of s. */
  function InsertDesc(x: Bigram, s: seq<Bigram>): seq<Bigram> {
    if s == [] then [x]
    else if s[|s| - 1].count < x.count then InsertDesc(x, s[..|s| - 1]) + [s[|s| - 1]]
    else s + [x]
  }

  /** The whole sort as a function: each node in turn is inserted into the
      sorted prefix before it. */
  function SortDesc(s: seq<Bigram>): seq<Bigram> {
    if s == [] then [] else InsertDesc(s[|s| - 1], SortDesc(s[..|s| - 1]))
  }

  lemma {:induction false} InsertDescPermutes(x: Bigram, s: seq<Bigram>)
    ensures multiset(InsertDesc(x, s)) == multiset(s) + multiset{x}
    decreases |s|
  {
    if s != [] && s[|s| - 1].count < x.count {
      InsertDescPermutes(x, s[..|s| - 1]);
      assert s == s[..|s| - 1] + [s[|s| - 1]];
    }
  }

  lemma {:induction false} InsertDescSorted(x: Bigram, s: seq<Bigram>)
    requires SortedDesc(s)
    ensures SortedDesc(InsertDesc(x, s))
    decreases |s|
  {
    if s != [] {
      var last := s[|s| - 1];
      var front := s[..|s| - 1];
      if last.count < x.count {
        InsertDescSorted(x, front);
        var r := InsertDesc(x, front);
        InsertDescPermutes(x, front);
        forall i | 0 <= i < |r|
          ensures r[i].count >= last.count
        {
          assert r[i] in multiset(r);
          if r[i] != x {
            assert r[i] in multiset(front);
            var j :| 0 <= j < |front| && front[j] == r[i];
            assert s[j] == r[i];
          }
        }
      }
    }
  }

  /** Inserting x leaves the nodes of every other count where they were,
      and puts x after every node with the same count. */
  lemma {:induction false} InsertDescWithCount(x: Bigram, s: seq<Bigram>, c: nat)
    ensures WithCount(InsertDesc(x, s), c) == WithCount(s, c) + WithCount([x], c)
    decreases |s|
  {
    assert [x][..0] == [];
    if s == [] {
    } else {
      var last := s[|s| - 1];
      var front := s[..|s| - 1];
      assert [last][..0] == [];
      if last.count < x.count {
        InsertDescWithCount(x, front, c);
        WithCountConcat(InsertDesc(x, front), [last], c);
      } else {
        WithCountConcat(s, [x], c);
      }
    }
  }

  lemma MultisetLast(s: seq<Bigram>)
    requires s != []
    ensures multiset(s) == multiset(s[..|s| - 1]) + multiset{s[|s| - 1]}
  {
    assert s == s[..|s| - 1] + [s[|s| - 1]];
  }

  lemma {:induction false} SortDescPermutes(s: seq<Bigram>)
    ensures multiset(SortDesc(s)) == multiset(s)
    decreases |s|
  {
    if s != [] {
      var front := s[..|s| - 1];
      var x := s[|s| - 1];
      SortDescPermutes(front);
      InsertDescPermutes(x, SortDesc(front));
      MultisetLast(s);
    }
  }

  lemma {:induction false} SortDescSorted(s: seq<Bigram>)
    ensures SortedDesc(SortDesc(s))
    decreases |s|
  {
    if s != [] {
      SortDescSorted(s[..|s| - 1]);
      InsertDescSorted(s[|s| - 1], SortDesc(s[..|s| - 1]));
    }
  }

  /** Stability: for every count, the nodes having it appear in the output
      in the same relative order as in the input. */
  lemma {:induction false} SortDescStable(s: seq<Bigram>, c: nat)
    ensures WithCount(SortDesc(s), c) == WithCount(s, c)
    decreases |s|
  {
    if s != [] {
      var front := s[..|s| - 1];
      var x := s[|s| - 1];
      assert SortDesc(s) == InsertDesc(x, SortDesc(front));
      SortDescStable(front, c);
      InsertDescWithCount(x, SortDesc(front), c);
      assert WithCount(s, c) == WithCount(front, c) + WithCount([x], c) by {
        assert s == front + [x];
        WithCountConcat(front, [x], c);
      }
    }
  }

  /** The reference sort is sorted, a permutation, and stable. */
  lemma SortDescCorrect(a: seq<Bigram>)
    ensures SortedDesc(SortDesc(a))
    ensures multiset(SortDesc(a)) == multiset(a)
    ensures forall c: nat :: WithCount(SortDesc(a), c) == WithCount(a, c)
  {
    SortDescSorted(a);
    SortDescPermutes(a);
    forall c: nat
      ensures WithCount(SortDesc(a), c) == WithCount(a, c)
    {
      SortDescStable(a, c);
    }
  }

  /** Where the scan stops: x goes right after the first m nodes of s when
      every node after them has a strictly smaller count and the node just
      before, if any, does not. */
  lemma {:induction false} InsertDescAt(x: Bigram, s: seq<Bigram>, m: nat)
    requires m <= |s|
    requires forall k :: m <= k < |s| ==> s[k].count < x.count
    requires m > 0 ==> s[m - 1].count >= x.count
    ensures InsertDesc(x, s) == s[..m] + [x] + s[m..]
    decreases |s|
  {
    if m == |s| {
      assert s[..m] == s && s[m..] == [];
    } else {
      var front := s[..|s| - 1];
      assert front[..m] == s[..m];
      InsertDescAt(x, front, m);
      assert s[m..] == front[m..] + [s[|s| - 1]];
    }
  }

  /** The array when the inner loop stops at m and the key is stored
      there: the prefix before m, the key, the rest of the prefix shifted
      one place right, and the untouched tail. That is one insertion into
      the prefix. */
  lemma {:induction false} PlaceFinish(r: seq<Bigram>, i: nat, m: nat, s: seq<Bigram>)
    requires m <= i < |r| == |s|
    requires forall k :: 0 <= k < m ==> s[k] == r[k]
    requires s[m] == r[i]
    requires forall k :: m < k <= i ==> s[k] == r[k - 1]
    requires forall k :: i < k < |r| ==> s[k] == r[k]
    requires forall k :: m <= k < i ==> r[k].count < r[i].count
    requires m > 0 ==> r[m - 1].count >= r[i].count
    ensures s[..i + 1] == InsertDesc(r[i], r[..i])
    ensures s[i + 1..] == r[i + 1..]
  {
    var p := r[..i];
    InsertDescAt(r[i], p, m);
    var u := p[..m] + [r[i]] + p[m..];
    assert |u| == i + 1;
    forall k | 0 <= k <= i
      ensures s[k] == u[k]
    {
      if k < m {
        assert u[k] == p[k];
      } else if k > m {
        assert u[k] == p[k - 1];
      }
    }
  }

  /** One pass of the outer loop of insertion_sort: key r[i] is saved,
      nodes of the prefix with a strictly smaller count are shifted one
      place right, and the key is stored in the gap. */
  method PlaceKey(r: seq<Bigram>, i: nat) returns (s: seq<Bigram>)
    requires i < |r|
    ensures |s| == |r|
    ensures s[..i + 1] == InsertDesc(r[i], r[..i])
    ensures s[i + 1..] == r[i + 1..]
  {
    var key := r[i];
    s := r;
    var j: int := i - 1;
    while j >= 0 && s[j].count < key.count
      invariant -1 <= j < i
      invariant |s| == |r|
      invariant forall k :: 0 <= k <= j ==> s[k] == r[k]
      invariant forall k :: j + 1 < k <= i ==> s[k] == r[k - 1]
      invariant forall k :: i < k < |r| ==> s[k] == r[k]
      invariant forall k :: j < k < i ==> r[k].count < key.count
      decreases j
    {
      s := s[j + 1 := s[j]];
      j := j - 1;
    }
    s := s[j + 1 := key];
    PlaceFinish(r, i, j + 1, s);
  }

  /** One pass of the outer loop extends the sorted prefix by one input
      element and keeps the unsorted rest as it was. */
  lemma SortStep(a: seq<Bigram>, r: seq<Bigram>, s: seq<Bigram>, i: nat)
    requires i < |a| == |r| == |s|
    requires r[..i] == SortDesc(a[..i]) && r[i..] == a[i..]
    requires s[..i + 1] == InsertDesc(r[i], r[..i]) && s[i + 1..] == r[i + 1..]
    ensures s[..i + 1] == SortDesc(a[..i + 1]) && s[i + 1..] == a[i + 1..]
  {
    assert r[i] == r[i..][0] == a[i];
    assert a[..i + 1][..i] == a[..i];
    assert r[i + 1..] == r[i..][1..] && a[i + 1..] == a[i..][1..];
  }

  /** The insertion sort of insertion_sort on the flattened array. The array
      is a sequence value; each element assignment is a sequence update. */
  method InsertionSortArray(a: seq<Bigram>) returns (r: seq<Bigram>)
    ensures r == SortDesc(a)
    ensures SortedDesc(r)
    ensures multiset(r) == multiset(a)
    ensures forall c: nat :: WithCount(r, c) == WithCount(a, c)
  {
    r := a;
    if |a| > 0 {
      var i := 1;
      while i < |r|
        invariant 1 <= i <= |r| == |a|
        invariant r[..i] == SortDesc(a[..i])
        invariant r[i..] == a[i..]
      {
        var s := PlaceKey(r, i);
        SortStep(a, r, s, i);
        r := s;
        i := i + 1;
      }
      assert r[..i] == r && a[..i] == a;
    }
    SortDescCorrect(a);
  }

  /** insertion_sort: the table is flattened by hash_to_array, then the
      array is sorted. The result holds exactly the table's nodes, sorted by
      non-increasing count, equal counts in bucket-then-chain order. */
  method InsertionSort(t: Table) returns (sorted: seq<Bigram>, size: nat)
    ensures size == |sorted| == NodeCount(t)
    ensures multiset(sorted) == multiset(Flatten(t))
    ensures SortedDesc(sorted)
    ensures forall c: nat :: WithCount(sorted, c) == WithCount(Flatten(t), c)
  {
    var arr;
    arr, size := HashToArray(t);
    sorted := InsertionSortArray(arr);
    assert |sorted| == |multiset(sorted)| == |arr|;
  }
}
