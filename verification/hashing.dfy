/** The bucket hash of a bigram: the sum of the character codes of both
    words, modulo the number of buckets. */
module Hashing {

  /** Number of buckets the hash spreads bigrams over. */
  const BUCKETS: nat := 1021

  /** Sum of the character codes of a word, accumulated left to right as
      the loops of hash_function do. */
  function CodeSum(s: string): nat {
    if s == [] then 0 else CodeSum(s[..|s| - 1]) + s[|s| - 1] as nat
  }

  /** hash_function. Character codes are non-negative here, so the C `%`
      (which truncates) and Dafny's `%` agree. */
  function Hash(w1: string, w2: string): (h: nat)
    ensures h < BUCKETS
  {
    (CodeSum(w1) + CodeSum(w2)) % BUCKETS
  }

  lemma {:induction false} CodeSumConcat(a: string, b: string)
    ensures CodeSum(a + b) == CodeSum(a) + CodeSum(b)
    decreases |b|
  {
    if b != [] {
      assert (a + b)[..|a + b| - 1] == a + b[..|b| - 1];
      CodeSumConcat(a, b[..|b| - 1]);
    } else {
      assert a + b == a;
    }
  }

  /** Taking the character at k out of a word lowers its code sum by that
      character's code. */
  lemma CodeSumRemoveAt(t: string, k: nat)
    requires k < |t|
    ensures CodeSum(t) == CodeSum(t[..k] + t[k + 1..]) + t[k] as nat
  {
    var a, b, c := t[..k], t[k..], t[k + 1..];
    assert t == a + b;
    assert b == [t[k]] + c;
    assert CodeSum([t[k]]) == t[k] as nat by {
      assert [t[k]][..0] == [];
    }
    CodeSumConcat(a, b);
    CodeSumConcat([t[k]], c);
    CodeSumConcat(a, c);
  }

  lemma MultisetRemoveAt(t: string, k: nat)
    requires k < |t|
    ensures multiset(t[..k] + t[k + 1..]) == multiset(t) - multiset{t[k]}
  {
    assert t == t[..k] + [t[k]] + t[k + 1..];
  }

  /** The code sum of a word depends only on which characters it holds,
      counted with multiplicity, not on their order. */
  lemma {:induction false} CodeSumPermutation(s: string, t: string)
    requires multiset(s) == multiset(t)
    ensures CodeSum(s) == CodeSum(t)
    decreases |s|
  {
    if s != [] {
      var x := s[|s| - 1];
      var s' := s[..|s| - 1];
      assert s == s' + [x];
      assert multiset(s') == multiset(s) - multiset{x};
      assert x in multiset(t);
      var k :| 0 <= k < |t| && t[k] == x;
      MultisetRemoveAt(t, k);
      CodeSumRemoveAt(t, k);
      CodeSumPermutation(s', t[..k] + t[k + 1..]);
    } else {
      assert |t| == |multiset(t)| == 0;
    }
  }

  /** The hash depends only on the multiset of characters across both
      words: permuting characters, within or across the two words, leaves
      the bucket unchanged. */
  lemma HashPermutation(w1: string, w2: string, v1: string, v2: string)
    requires multiset(w1 + w2) == multiset(v1 + v2)
    ensures Hash(w1, w2) == Hash(v1, v2)
  {
    CodeSumConcat(w1, w2);
    CodeSumConcat(v1, v2);
    CodeSumPermutation(w1 + w2, v1 + v2);
  }

  /** In particular the two words of a bigram can be swapped. */
  lemma HashSymmetric(w1: string, w2: string)
    ensures Hash(w1, w2) == Hash(w2, w1)
  {
    HashPermutation(w1, w2, w2, w1);
  }

  lemma {:induction false} CodeSumBound(s: string)
    requires forall i :: 0 <= i < |s| ==> s[i] as int < 128
    ensures CodeSum(s) <= 127 * |s|
    decreases |s|
  {
    if s != [] {
      CodeSumBound(s[..|s| - 1]);
    }
  }

  /** The running sum `ascii_sum` is a C int: for two ASCII words of at
      most 99 characters each (the `%99s` width) it never overflows. */
  lemma HashSumFitsInInt(w1: string, w2: string)
    requires |w1| <= 99 && |w2| <= 99
    requires forall i :: 0 <= i < |w1| ==> w1[i] as int < 128
    requires forall i :: 0 <= i < |w2| ==> w2[i] as int < 128
    ensures CodeSum(w1) + CodeSum(w2) <= 2 * 99 * 127 < 0x8000_0000
  {
    CodeSumBound(w1);
    CodeSumBound(w2);
  }
}
