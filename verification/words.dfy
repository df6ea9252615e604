/** Word normalisation applied to every word before it is counted:
    ASCII upper case is folded to lower case, and the word is cut at its
    first punctuation mark (apostrophes are not punctuation). */
module Words {

  predicate IsUpper(c: char) {
    'A' <= c <= 'Z'
  }

  /** The six characters that end a word. */
  predicate IsPunct(c: char) {
    c == '.' || c == ',' || c == '?' || c == '!' || c == ';' || c == ':'
  }

  /** One character step of lower_case1: subtracting ('A' - 'a') from an
      upper-case letter. */
  function ToLower(c: char): char {
    if IsUpper(c) then (c as int - ('A' as int - 'a' as int)) as char else c
  }

  /** lower_case1: every upper-case letter becomes its lower-case form,
      every other character is left untouched, the length is kept. */
  function LowerCase1(s: string): (r: string)
    ensures |r| == |s|
    ensures forall i :: 0 <= i < |s| && IsUpper(s[i]) ==> r[i] as int == s[i] as int + ('a' as int - 'A' as int)
    ensures forall i :: 0 <= i < |s| && !IsUpper(s[i]) ==> r[i] == s[i]
    ensures forall i :: 0 <= i < |r| ==> !IsUpper(r[i])
  {
    if s == [] then [] else [ToLower(s[0])] + LowerCase1(s[1..])
  }

  /** A word without upper-case letters is left as it is. */
  lemma LowerCaseFixesLower(s: string)
    requires forall i :: 0 <= i < |s| ==> !IsUpper(s[i])
    ensures LowerCase1(s) == s
  {
  }

  /** Lower-casing twice is lower-casing once. */
  lemma LowerCaseIdempotent(s: string)
    ensures LowerCase1(LowerCase1(s)) == LowerCase1(s)
  {
    LowerCaseFixesLower(LowerCase1(s));
  }

  /** remove_punctuation, as a reference definition: the longest prefix of
      the word that holds no punctuation mark. */
  function RemovePunctuation(w: string): (r: string)
    ensures |r| <= |w| && r == w[..|r|]
    ensures forall i :: 0 <= i < |r| ==> !IsPunct(r[i])
    ensures |r| < |w| ==> IsPunct(w[|r|])
  {
    if w == [] || IsPunct(w[0]) then [] else [w[0]] + RemovePunctuation(w[1..])
  }

  /** The three properties in RemovePunctuation's contract pin the result
      down: any prefix with them is that result. (A shorter prefix would end
      before a punctuation mark the result holds; a longer one would hold
      the mark the result stops at.) */
  lemma PunctuationPrefixUnique(w: string, r: string)
    requires |r| <= |w| && r == w[..|r|]
    requires forall i :: 0 <= i < |r| ==> !IsPunct(r[i])
    requires |r| < |w| ==> IsPunct(w[|r|])
    ensures r == RemovePunctuation(w)
  {
    var p := RemovePunctuation(w);
    assert forall i :: 0 <= i < |p| ==> w[i] == p[i] && !IsPunct(w[i]);
    assert forall i :: 0 <= i < |r| ==> w[i] == r[i] && !IsPunct(w[i]);
    assert |r| == |p|;
  }

  /** A word without punctuation is left as it is. */
  lemma RemovePunctuationFixesClean(w: string)
    requires forall i :: 0 <= i < |w| ==> !IsPunct(w[i])
    ensures RemovePunctuation(w) == w
  {
  }

  /** Cutting at punctuation twice is cutting once. */
  lemma RemovePunctuationIdempotent(w: string)
    ensures RemovePunctuation(RemovePunctuation(w)) == RemovePunctuation(w)
  {
    RemovePunctuationFixesClean(RemovePunctuation(w));
  }

  /** remove_punctuation as the loop writes it: a '\0' is stored at the
      first punctuation mark, and since the loop bound strlen(word) is
      evaluated again on every pass, the loop stops right there. The word is
      the sequence up to its terminator, so storing '\0' at i truncates it
      to its first i characters. */
  method RemovePunctuationLoop(word: string) returns (r: string)
    ensures r == RemovePunctuation(word)
  {
    r := word;
    var i := 0;
    while i < |r|
      invariant 0 <= i <= |word| + 1
      invariant |r| <= |word| && r == word[..|r|]
      invariant forall k :: 0 <= k < i && k < |r| ==> !IsPunct(r[k])
      invariant |r| < |word| ==> i == |r| + 1 && IsPunct(word[|r|])
      decreases |word| + 1 - i
    {
      if IsPunct(r[i]) {
        r := r[..i];
      }
      i := i + 1;
    }
    PunctuationPrefixUnique(word, r);
  }

  /** The normalisation the read loop applies to each word. */
  function Normalise(w: string): (r: string)
    ensures |r| <= |w|
    ensures forall i :: 0 <= i < |r| ==> r[i] == ToLower(w[i])
    ensures forall i :: 0 <= i < |r| ==> !IsUpper(r[i]) && !IsPunct(r[i])
    ensures |r| < |w| ==> IsPunct(w[|r|])
  {
    RemovePunctuation(LowerCase1(w))
  }

  /** A normalised word holds neither upper-case letters nor punctuation,
      so normalising it again changes nothing. */
  lemma NormaliseIdempotent(w: string)
    ensures Normalise(Normalise(w)) == Normalise(w)
  {
    var n := Normalise(w);
    assert forall i :: 0 <= i < |n| ==> n[i] == LowerCase1(w)[i];
    LowerCaseFixesLower(n);
    RemovePunctuationFixesClean(n);
  }
}
