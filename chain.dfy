/**
 * The transition model that `Markov.model` builds: every token that has a
 * successor is a key, mapped to the tokens that follow its occurrences, in
 * order of occurrence, with duplicates kept. These are the specification
 * functions; the loop that builds the table is `Predictor.Markov.BuildModel`.
 */
module Chain {

  /** All tokens but the last: the `current_word`s of `zip(words[0:-1], words[1:])`. */
  function Predecessors<W(==)>(words: seq<W>): (p: seq<W>)
    ensures |words| >= 1 ==> |p| == |words| - 1
    ensures |p| <= |words|
    ensures forall i :: 0 <= i < |p| ==> p[i] == words[i]
  {
    if |words| == 0 then [] else words[..|words| - 1]
  }

  /** The tokens that follow an occurrence of `w`, in increasing position. */
  function Succ<W(==)>(words: seq<W>, w: W): seq<W>
  {
    if |words| < 2 then []
    else (if words[0] == w then [words[1]] else []) + Succ(words[1..], w)
  }

  function TransitionModel<W(==)>(words: seq<W>): map<W, seq<W>> {
    map w | w in Predecessors(words) :: Succ(words, w)
  }

  /** The successors in `a + b` are those in `a`, the pair across the seam, then those in `b`. */
  lemma {:induction false} SuccAppend<W>(a: seq<W>, b: seq<W>, w: W)
    requires |a| >= 1 && |b| >= 1
    ensures Succ(a + b, w) == Succ(a, w) + (if a[|a| - 1] == w then [b[0]] else []) + Succ(b, w)
  {
    var ab := a + b;
    var head := if a[0] == w then [ab[1]] else [];
    assert Succ(ab, w) == head + Succ(ab[1..], w);
    if |a| == 1 {
      assert ab[1..] == b;
    } else {
      var t := a[1..];
      assert ab[1..] == t + b;
      assert ab[1] == a[1] && t[|t| - 1] == a[|a| - 1];
      SuccAppend(t, b, w);
      assert Succ(a, w) == head + Succ(t, w);
    }
  }

  /** `w` has as many successors as it has non-final occurrences. */
  lemma {:induction false} SuccCount<W>(words: seq<W>, w: W)
    ensures |Succ(words, w)| == multiset(Predecessors(words))[w]
  {
    if |words| >= 2 {
      SuccCount(words[1..], w);
      assert Predecessors(words) == [words[0]] + Predecessors(words[1..]);
    }
  }

  /**
   * The j-th successor of `w` is the token after the j-th occurrence of `w`:
   * successor lists keep the order of the text.
   */
  lemma {:induction false} SuccOrder<W>(words: seq<W>, i: nat)
    requires i < |words| - 1
    ensures multiset(words[..i])[words[i]] < |Succ(words, words[i])|
    ensures Succ(words, words[i])[multiset(words[..i])[words[i]]] == words[i + 1]
  {
    if i > 0 {
      var w := words[i];
      var tail := words[1..];
      var head := if words[0] == w then [words[1]] else [];
      SuccOrder(tail, i - 1);
      assert tail[i - 1] == w && tail[i] == words[i + 1];
      var k' := multiset(tail[..i - 1])[w];
      assert words[..i] == [words[0]] + tail[..i - 1];
      assert multiset(words[..i])[w] == |head| + k';
      var rest := Succ(tail, w);
      assert Succ(words, w) == head + rest;
      assert (head + rest)[|head| + k'] == rest[k'];
    } else {
      assert words[..0] == [];
      assert Succ(words, words[0]) == [words[1]] + Succ(words[1..], words[0]);
    }
  }

  /** Every adjacent pair of tokens is recorded: `words[i + 1]` is among the successors of `words[i]`. */
  lemma PairInModel<W>(words: seq<W>, i: nat)
    requires i < |words| - 1
    ensures words[i] in TransitionModel(words)
    ensures words[i + 1] in TransitionModel(words)[words[i]]
  {
    SuccOrder(words, i);
    assert words[i] == Predecessors(words)[i];
  }

  /** Every successor is a token that follows some position. */
  lemma {:induction false} SuccFollows<W>(words: seq<W>, w: W, v: W)
    requires v in Succ(words, w)
    ensures exists j :: 0 <= j < |words| - 1 && words[j] == w && words[j + 1] == v
  {
    var tail := words[1..];
    if v in Succ(tail, w) {
      SuccFollows(tail, w, v);
      var j :| 0 <= j < |tail| - 1 && tail[j] == w && tail[j + 1] == v;
      assert words[j + 1] == w && words[j + 2] == v;
    } else {
      assert words[0] == w && words[1] == v;
    }
  }

  /**
   * The keys are exactly the non-final tokens, no successor list is empty,
   * and a token that is not a key has no successors.
   */
  lemma ModelKeys<W>(words: seq<W>, w: W)
    ensures w in TransitionModel(words) <==> w in Predecessors(words)
    ensures w in TransitionModel(words) <==> Succ(words, w) != []
  {
    SuccCount(words, w);
  }

  /** The list stored under `k`, or the empty list a `defaultdict(list)` would give. */
  function Lookup<W(==)>(m: map<W, seq<W>>, k: W): seq<W> {
    if k in m then m[k] else []
  }

  /**
   * A table is the transition model of `words` exactly when it gives every
   * token its successors and stores no empty list.
   */
  lemma ModelFromSucc<W>(words: seq<W>, t: map<W, seq<W>>)
    requires forall k :: Lookup(t, k) == Succ(words, k)
    requires forall k :: k in t ==> t[k] != []
    ensures TransitionModel(words) == t
  {
    var m := TransitionModel(words);
    forall k ensures k in m <==> k in t {
      ModelKeys(words, k);
      assert Lookup(t, k) == Succ(words, k);
    }
    forall k | k in m ensures m[k] == t[k] {
      assert Lookup(t, k) == Succ(words, k);
    }
  }

  /** Text with fewer than two tokens (the empty text among them) has no pairs, hence an empty model. */
  lemma ShortTextEmptyModel<W>(words: seq<W>)
    requires |words| <= 1
    ensures TransitionModel(words) == map[]
  {
    assert Predecessors(words) == [];
  }

  /** One more token `x` appends `x` to the list of the previous last token, creating it if needed. */
  lemma ModelStep<W>(words: seq<W>, x: W)
    requires |words| >= 1
    ensures var m, y := TransitionModel(words), words[|words| - 1];
            TransitionModel(words + [x]) == m[y := (if y in m then m[y] else []) + [x]]
  {
    var m, y := TransitionModel(words), words[|words| - 1];
    var q := words + [x];
    var m' := TransitionModel(q);
    var r := m[y := (if y in m then m[y] else []) + [x]];
    assert q[..|q| - 1] == words;
    assert Predecessors(q) == words;
    forall w ensures w in m' <==> w in r {
      if w in words && w != y {
        var k :| 0 <= k < |words| && words[k] == w;
        assert Predecessors(words)[k] == w;
      }
    }
    forall w | w in m' ensures m'[w] == r[w] {
      SuccAppend(words, [x], w);
      assert Succ([x], w) == [];
      ModelKeys(words, w);
    }
  }

  // ----- the successor lists add up to one entry per adjacent pair -----

  predicate Distinct<W(==)>(ks: seq<W>) {
    forall i, j :: 0 <= i < j < |ks| ==> ks[i] != ks[j]
  }

  /** The total length of the lists stored under the keys `ks`. */
  function SumLengths<W(==)>(m: map<W, seq<W>>, ks: seq<W>): nat
    requires forall i :: 0 <= i < |ks| ==> ks[i] in m
  {
    if ks == [] then 0 else |m[ks[0]]| + SumLengths(m, ks[1..])
  }

  function SumCounts<W(==)>(bag: multiset<W>, ks: seq<W>): nat {
    if ks == [] then 0 else bag[ks[0]] + SumCounts(bag, ks[1..])
  }

  lemma {:induction false} SumCountsAdd<W>(bag: multiset<W>, x: W, ks: seq<W>)
    requires Distinct(ks)
    ensures SumCounts(bag + multiset{x}, ks) == SumCounts(bag, ks) + (if x in ks then 1 else 0)
  {
    if ks != [] {
      SumCountsAdd(bag, x, ks[1..]);
      assert x in ks <==> x == ks[0] || x in ks[1..];
      if x == ks[0] {
        assert x !in ks[1..];
      }
    }
  }

  /** Counting the occurrences of each of the distinct `ks` counts all of `p` when `ks` covers `p`. */
  lemma {:induction false} SumCountsCovers<W>(p: seq<W>, ks: seq<W>)
    requires Distinct(ks)
    requires forall i :: 0 <= i < |p| ==> p[i] in ks
    ensures SumCounts(multiset(p), ks) == |p|
  {
    if p == [] {
      SumCountsZero(ks);
    } else {
      var x, t := p[0], p[1..];
      assert p == [x] + t;
      assert multiset(p) == multiset(t) + multiset{x};
      SumCountsCovers(t, ks);
      SumCountsAdd(multiset(t), x, ks);
    }
  }

  lemma {:induction false} SumCountsZero<W>(ks: seq<W>)
    ensures SumCounts(multiset{}, ks) == 0
  {
    if ks != [] {
      SumCountsZero(ks[1..]);
    }
  }

  lemma {:induction false} SumLengthsAreCounts<W>(words: seq<W>, ks: seq<W>)
    requires forall i :: 0 <= i < |ks| ==> ks[i] in TransitionModel(words)
    ensures SumLengths(TransitionModel(words), ks) == SumCounts(multiset(Predecessors(words)), ks)
  {
    if ks != [] {
      SuccCount(words, ks[0]);
      SumLengthsAreCounts(words, ks[1..]);
    }
  }

  /**
   * Listing the keys once each, in any order, the successor lists hold
   * `|words| - 1` entries in all: one per adjacent pair.
   */
  lemma TotalSuccessors<W>(words: seq<W>, ks: seq<W>)
    requires |words| >= 1
    requires Distinct(ks)
    requires forall k :: k in ks <==> k in TransitionModel(words)
    ensures SumLengths(TransitionModel(words), ks) == |words| - 1
  {
    SumLengthsAreCounts(words, ks);
    var p := Predecessors(words);
    forall i | 0 <= i < |p| ensures p[i] in ks {
      assert p[i] in TransitionModel(words);
    }
    SumCountsCovers(p, ks);
  }

  // ----- walks through the model never get stuck when the last token recurs -----

  /**
   * When the last token also occurs earlier, every successor is itself a key,
   * so a walk through the model can always take another step.
   */
  lemma ModelClosed<W>(words: seq<W>, w: W, v: W)
    requires |words| >= 1 && words[|words| - 1] in Predecessors(words)
    requires w in TransitionModel(words) && v in TransitionModel(words)[w]
    ensures v in TransitionModel(words) && TransitionModel(words)[v] != []
  {
    assert v in Succ(words, w);
    SuccFollows(words, w, v);
    var j :| 0 <= j < |words| - 1 && words[j] == w && words[j + 1] == v;
    var p := Predecessors(words);
    if j + 1 < |words| - 1 {
      assert p[j + 1] == v;
    } else {
      assert v == words[|words| - 1];
    }
    assert v in p;
    ModelKeys(words, v);
  }
}
