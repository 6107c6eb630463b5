/**
 * The normalizer: `Markov.remove_punctuations`, which deletes every character of
 * Python's `string.punctuation` from the corpus and keeps everything else in order.
 */
module Normalizer {

  /** ASCII letters; the case tests of `str.capitalize` use them too. */
  predicate IsUpperLetter(c: char) { 'A' <= c <= 'Z' }
  predicate IsLowerLetter(c: char) { 'a' <= c <= 'z' }

  /** The 32 characters of `string.punctuation`, in the order Python lists them. */
  const Punctuation: string := "!\"#$%&'()*+,-./:;<=>?@[\\]^_`{|}~"

  /**
   * Membership in `Punctuation`, decided by ASCII ranges: a printable, non-blank
   * ASCII character that is neither a letter nor a digit.
   */
  predicate IsPunctuation(c: char) {
    && '!' <= c <= '~'
    && !('0' <= c <= '9')
    && !IsUpperLetter(c)
    && !IsLowerLetter(c)
  }

  predicate NoPunctuation(s: string) {
    forall i :: 0 <= i < |s| ==> !IsPunctuation(s[i])
  }

  /** `r` can be obtained from `s` by deleting characters. */
  predicate IsSubsequence(r: string, s: string)
    decreases |s|
  {
    if r == [] then true
    else if s == [] then false
    else if r[0] == s[0] then IsSubsequence(r[1..], s[1..])
    else IsSubsequence(r, s[1..])
  }

  /** `text.translate(str.maketrans('', '', string.punctuation))` */
  function RemovePunctuations(s: string): string
  {
    if s == [] then []
    else if IsPunctuation(s[0]) then RemovePunctuations(s[1..])
    else [s[0]] + RemovePunctuations(s[1..])
  }

  /**
   * What the normalizer promises: no punctuation is left, every other character
   * is kept exactly as often as it occurred, and the kept characters stay in order.
   */
  lemma {:induction false} RemovePunctuationsSpec(s: string)
    ensures |RemovePunctuations(s)| <= |s|
    ensures NoPunctuation(RemovePunctuations(s))
    ensures forall c :: !IsPunctuation(c) ==> multiset(RemovePunctuations(s))[c] == multiset(s)[c]
    ensures IsSubsequence(RemovePunctuations(s), s)
  {
    if s != [] {
      RemovePunctuationsSpec(s[1..]);
      assert s == [s[0]] + s[1..];
    }
  }

  /** The range test agrees with Python's 32-character list, character by character. */
  lemma PunctuationSet()
    ensures |Punctuation| == 32
    ensures forall c :: IsPunctuation(c) <==> c in Punctuation
  {
    assert forall i :: 0 <= i < |Punctuation| ==> IsPunctuation(Punctuation[i]);
  }

  lemma {:induction false} SubsequenceLength(r: string, s: string)
    requires IsSubsequence(r, s)
    ensures |r| <= |s|
    decreases |s|
  {
    if r != [] {
      if r[0] == s[0] {
        SubsequenceLength(r[1..], s[1..]);
      } else {
        SubsequenceLength(r, s[1..]);
      }
    }
  }

  lemma {:induction false} SubsequenceSameLength(r: string, s: string)
    requires IsSubsequence(r, s) && |r| == |s|
    ensures r == s
    decreases |s|
  {
    if r != [] {
      if r[0] == s[0] {
        SubsequenceSameLength(r[1..], s[1..]);
        assert r == [r[0]] + r[1..] && s == [s[0]] + s[1..];
      } else {
        SubsequenceLength(r, s[1..]);
      }
    }
  }

  /** A punctuation-free subsequence of `s` is a subsequence of the normalized `s`. */
  lemma {:induction false} SubsequenceOfNormalized(r: string, s: string)
    requires NoPunctuation(r) && IsSubsequence(r, s)
    ensures IsSubsequence(r, RemovePunctuations(s))
    decreases |s|
  {
    if r != [] {
      if IsPunctuation(s[0]) {
        assert r[0] != s[0];
        SubsequenceOfNormalized(r, s[1..]);
      } else if r[0] == s[0] {
        SubsequenceOfNormalized(r[1..], s[1..]);
      } else {
        SubsequenceOfNormalized(r, s[1..]);
      }
    }
  }

  /**
   * The three facts the normalizer promises (no punctuation left, every other
   * character kept as often as it occurred, order preserved) determine its result.
   */
  lemma RemovePunctuationsUnique(s: string, r: string)
    requires NoPunctuation(r)
    requires IsSubsequence(r, s)
    requires forall c :: !IsPunctuation(c) ==> multiset(r)[c] == multiset(s)[c]
    ensures r == RemovePunctuations(s)
  {
    var t := RemovePunctuations(s);
    RemovePunctuationsSpec(s);
    SubsequenceOfNormalized(r, s);
    forall c ensures multiset(r)[c] == multiset(t)[c] {
      if IsPunctuation(c) {
        assert c !in multiset(r);
        assert c !in multiset(t);
      }
    }
    assert multiset(r) == multiset(t);
    assert |r| == |multiset(r)| == |multiset(t)| == |t|;
    SubsequenceSameLength(r, t);
  }

  /** Text without punctuation passes through unchanged. */
  lemma {:induction false} NoPunctuationUnchanged(s: string)
    requires NoPunctuation(s)
    ensures RemovePunctuations(s) == s
  {
    if s != [] {
      NoPunctuationUnchanged(s[1..]);
    }
  }

  lemma RemovePunctuationsIdempotent(s: string)
    ensures RemovePunctuations(RemovePunctuations(s)) == RemovePunctuations(s)
  {
    RemovePunctuationsSpec(s);
    NoPunctuationUnchanged(RemovePunctuations(s));
  }

  /** Normalizing works piecewise, so characters keep their relative order. */
  lemma {:induction false} RemovePunctuationsAppend(a: string, b: string)
    ensures RemovePunctuations(a + b) == RemovePunctuations(a) + RemovePunctuations(b)
  {
    if a == [] {
      assert a + b == b;
    } else {
      assert (a + b)[0] == a[0] && (a + b)[1..] == a[1..] + b;
      RemovePunctuationsAppend(a[1..], b);
    }
  }

  /*
   * The example below is evaluated in two halves, joined by
   * `RemovePunctuationsAppend`. Each character the filter unfolds adds a
   * membership test against the 32-character set, and unfolding all eleven
   * characters of the example in one proof exceeds the solver's resource
   * budget, so the halves are separate lemmas.
   */
  lemma ExampleFirstHalf(a: string)
    requires a == "don't"
    ensures RemovePunctuations(a) == "dont"
  {
    assert RemovePunctuations("don't") == "dont";
  }

  lemma ExampleSecondHalf(b: string)
    requires b == " stop!"
    ensures RemovePunctuations(b) == " stop"
  {
    assert RemovePunctuations(" stop!") == " stop";
  }

  /** Apostrophes are in the set too, so contractions lose them. */
  lemma RemovePunctuationsExample(s: string)
    requires s == "don't stop!"
    ensures RemovePunctuations(s) == "dont stop"
  {
    var a, b := s[..5], s[5..];
    ExampleFirstHalf(a);
    ExampleSecondHalf(b);
    assert s == a + b;
    RemovePunctuationsAppend(a, b);
  }
}
