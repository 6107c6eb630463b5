/**
 * The generator, `predict_words`: starting from a seed that is a key of the
 * chain, it takes `number_of_words - 1` steps, each to a successor of the
 * current word, and writes the seed capitalized, the chosen words after single
 * spaces, and a final period. `random.choice` is replaced by an oracle `pick`:
 * step `k` (counting from 0) takes the element at index `pick(k) % |list|`.
 */
module Generator {
  import opened Normalizer
  import opened Tokenizer
  import opened Chain
  import opened Predictor

  /**
   * Python raises `KeyError` on a reached word that is not a key, and `random.choice`
   * raises `IndexError` on an empty list; `EmptyChoice` records the word whose list is empty.
   */
  datatype GenError = KeyError(word: string) | EmptyChoice(word: string)

  datatype Result<T> = Ok(value: T) | Err(error: GenError)

  /** What `predict_words` returns when the seed is not a key. */
  const NotInCorpus: string := "La palabra no esta en el cuerpo"

  // ----- `str.capitalize` over ASCII -----

  predicate IsLetter(c: char) { IsUpperLetter(c) || IsLowerLetter(c) }

  function Upper(c: char): char {
    if IsLowerLetter(c) then (c as int - 32) as char else c
  }

  function Lower(c: char): char {
    if IsUpperLetter(c) then (c as int + 32) as char else c
  }

  function LowerAll(s: string): string {
    if s == [] then [] else [Lower(s[0])] + LowerAll(s[1..])
  }

  /** `w.capitalize()`: the first character uppercased and all the others lowercased. */
  function Capitalize(w: string): string {
    if w == [] then [] else [Upper(w[0])] + LowerAll(w[1..])
  }

  lemma {:induction false} LowerAllSpec(s: string)
    ensures |LowerAll(s)| == |s|
    ensures forall i :: 0 <= i < |s| ==> LowerAll(s)[i] == Lower(s[i])
  {
    if s != [] {
      LowerAllSpec(s[1..]);
    }
  }

  /**
   * Capitalizing keeps the length and every character up to case, leaves
   * non-letters alone, leaves no lowercase letter first and no uppercase
   * letter after it.
   */
  lemma CapitalizeSpec(w: string)
    ensures |Capitalize(w)| == |w|
    ensures forall i :: 0 <= i < |w| ==> Lower(Capitalize(w)[i]) == Lower(w[i])
    ensures forall i :: 0 <= i < |w| && !IsLetter(w[i]) ==> Capitalize(w)[i] == w[i]
    ensures |w| > 0 ==> !IsLowerLetter(Capitalize(w)[0])
    ensures forall i :: 0 < i < |w| ==> !IsUpperLetter(Capitalize(w)[i])
  {
    if w != [] {
      LowerAllSpec(w[1..]);
    }
  }

  /** Those properties leave no choice: they determine the capitalized word. */
  lemma CapitalizeUnique(w: string, r: string)
    requires |r| == |w|
    requires forall i :: 0 <= i < |w| ==> Lower(r[i]) == Lower(w[i])
    requires forall i :: 0 <= i < |w| && !IsLetter(w[i]) ==> r[i] == w[i]
    requires |w| > 0 ==> !IsLowerLetter(r[0])
    requires forall i :: 0 < i < |w| ==> !IsUpperLetter(r[i])
    ensures r == Capitalize(w)
  {
    var c := Capitalize(w);
    CapitalizeSpec(w);
    forall i | 0 <= i < |w| ensures r[i] == c[i] {
      assert Lower(r[i]) == Lower(c[i]);
    }
  }

  lemma CapitalizeIdempotent(w: string)
    ensures Capitalize(Capitalize(w)) == Capitalize(w)
  {
    var c := Capitalize(w);
    CapitalizeSpec(w);
    CapitalizeSpec(c);
    CapitalizeUnique(c, c);
  }

  /** Letters after the first are lowercased, not kept as they were. */
  lemma CapitalizeExample(w: string)
    requires w == "hELLO"
    ensures Capitalize(w) == "Hello"
  {
    assert Capitalize("hELLO") == "Hello";
  }

  // ----- the walk -----

  /** A walk result with `prefix` in front of its words; errors pass through. */
  function Prepend(prefix: seq<string>, r: Result<seq<string>>): Result<seq<string>> {
    match r
    case Ok(ws) => Ok(prefix + ws)
    case Err(e) => Err(e)
  }

  lemma PrependNothing(r: Result<seq<string>>)
    ensures Prepend([], r) == r
  {
    if r.Ok? {
      assert [] + r.value == r.value;
    }
  }

  lemma PrependTwice(p: seq<string>, q: seq<string>, r: Result<seq<string>>)
    ensures Prepend(p, Prepend(q, r)) == Prepend(p + q, r)
  {
    if r.Ok? {
      assert p + (q + r.value) == (p + q) + r.value;
    }
  }

  /**
   * The words chosen by `steps` iterations of the loop, starting at `word` with
   * the oracle consulted at `k`, `k + 1`, ...
   */
  function Walk(chain: map<string, seq<string>>, word: string, steps: nat, pick: nat -> nat, k: nat)
    : Result<seq<string>>
    decreases steps
  {
    if steps == 0 then Ok([])
    else if word !in chain then Err(KeyError(word))
    else if chain[word] == [] then Err(EmptyChoice(word))
    else
      var next := chain[word][pick(k) % |chain[word]|];
      Prepend([next], Walk(chain, next, steps - 1, pick, k + 1))
  }

  /** Iterations of `for i in range(number_of_words - 1)`: none when the count is below 2. */
  function Steps(numberOfWords: int): nat {
    if numberOfWords - 1 > 0 then numberOfWords - 1 else 0
  }

  /** `' ' + w` for each word, in order. */
  function Spaced(ws: seq<string>): string {
    if ws == [] then "" else Spaced(ws[..|ws| - 1]) + " " + ws[|ws| - 1]
  }

  lemma SpacedSnoc(ws: seq<string>, x: string)
    ensures Spaced(ws + [x]) == Spaced(ws) + " " + x
  {
    assert (ws + [x])[..|ws|] == ws;
  }

  /** What `predict_words(chain, first, numberOfWords)` returns, or the error it raises. */
  function Predict(chain: map<string, seq<string>>, first: string, numberOfWords: int, pick: nat -> nat)
    : Result<string>
  {
    if first !in chain then Ok(NotInCorpus)
    else
      match Walk(chain, first, Steps(numberOfWords), pick, 0)
      case Ok(ws) => Ok(Capitalize(first) + Spaced(ws) + ".")
      case Err(e) => Err(e)
  }

  /** `predict_words`, with `random.choice` answered by `pick`. */
  method PredictWords(chain: map<string, seq<string>>, firstWord: string, pick: nat -> nat, numberOfWords: int := 5)
    returns (r: Result<string>)
    ensures r == Predict(chain, firstWord, numberOfWords, pick)
  {
    if firstWord in chain {
      var word1 := firstWord;
      var predictions := Capitalize(word1);
      ghost var chosen: seq<string> := [];
      var steps := if numberOfWords - 1 > 0 then numberOfWords - 1 else 0;
      var i := 0;
      PrependNothing(Walk(chain, firstWord, steps, pick, 0));
      while i < steps
        invariant 0 <= i <= steps
        invariant predictions == Capitalize(firstWord) + Spaced(chosen)
        invariant Walk(chain, firstWord, steps, pick, 0) == Prepend(chosen, Walk(chain, word1, steps - i, pick, i))
      {
        if word1 !in chain {
          return Err(KeyError(word1));
        }
        var successors := chain[word1];
        if successors == [] {
          return Err(EmptyChoice(word1));
        }
        var word2 := successors[pick(i) % |successors|];
        assert Walk(chain, word1, steps - i, pick, i) == Prepend([word2], Walk(chain, word2, steps - i - 1, pick, i + 1));
        PrependTwice(chosen, [word2], Walk(chain, word2, steps - i - 1, pick, i + 1));
        SpacedSnoc(chosen, word2);
        word1 := word2;
        predictions := predictions + " " + word2;
        chosen := chosen + [word2];
        i := i + 1;
      }
      assert chosen + [] == chosen;
      predictions := predictions + ".";
      r := Ok(predictions);
    } else {
      r := Ok(NotInCorpus);
    }
  }

  // ----- what a prediction is -----

  /** The word a walk from `w` stands on before choosing `ws[j]`. */
  function Prev(w: string, ws: seq<string>, j: nat): string
    requires j <= |ws|
  {
    if j == 0 then w else ws[j - 1]
  }

  /** `ws` is a walk through the chain from `w`: each word is a successor of the word before it. */
  predicate IsWalk(chain: map<string, seq<string>>, w: string, ws: seq<string>) {
    forall j {:trigger Prev(w, ws, j)} :: 0 <= j < |ws| ==> Prev(w, ws, j) in chain && ws[j] in chain[Prev(w, ws, j)]
  }

  lemma PrevCons(w: string, next: string, ws: seq<string>, j: nat)
    requires j <= |ws|
    ensures Prev(w, [next] + ws, j + 1) == Prev(next, ws, j)
  {
  }

  lemma IsWalkCons(chain: map<string, seq<string>>, w: string, next: string, ws: seq<string>)
    requires w in chain && next in chain[w] && IsWalk(chain, next, ws)
    ensures IsWalk(chain, w, [next] + ws)
  {
    var full := [next] + ws;
    forall j | 0 < j < |full| ensures Prev(w, full, j) == Prev(next, ws, j - 1) && full[j] == ws[j - 1] {
    }
  }

  /** A successful walk of `steps` steps chooses `steps` words, each a successor of the one before. */
  lemma {:induction false} WalkPath(chain: map<string, seq<string>>, w: string, steps: nat, pick: nat -> nat,
                                    k: nat, ws: seq<string>)
    requires Walk(chain, w, steps, pick, k) == Ok(ws)
    ensures |ws| == steps
    ensures IsWalk(chain, w, ws)
    decreases steps
  {
    if steps > 0 {
      var next := chain[w][pick(k) % |chain[w]|];
      var rest := Walk(chain, next, steps - 1, pick, k + 1);
      assert rest.Ok? && ws == [next] + rest.value;
      WalkPath(chain, next, steps - 1, pick, k + 1, rest.value);
      IsWalkCons(chain, w, next, rest.value);
    }
  }

  /**
   * A walk that fails stops at a word it reached along a walk: a word that is
   * not a key (`KeyError`), or a key with no successors (`random.choice([])`).
   */
  lemma {:induction false} WalkFailure(chain: map<string, seq<string>>, w: string, steps: nat, pick: nat -> nat,
                                       k: nat, e: GenError)
    requires Walk(chain, w, steps, pick, k) == Err(e)
    ensures exists ws :: |ws| < steps && IsWalk(chain, w, ws) && Prev(w, ws, |ws|) == e.word
    ensures e.KeyError? ==> e.word !in chain
    ensures e.EmptyChoice? ==> e.word in chain && chain[e.word] == []
    decreases steps
  {
    if w !in chain {
      assert e == KeyError(w);
      var none: seq<string> := [];
      assert Prev(w, none, 0) == w;
      assert IsWalk(chain, w, none);
    } else if chain[w] == [] {
      assert e == EmptyChoice(w);
      var none: seq<string> := [];
      assert Prev(w, none, 0) == w;
      assert IsWalk(chain, w, none);
    } else {
      var next := chain[w][pick(k) % |chain[w]|];
      assert Walk(chain, next, steps - 1, pick, k + 1) == Err(e);
      WalkFailure(chain, next, steps - 1, pick, k + 1, e);
      var qs :| |qs| < steps - 1 && IsWalk(chain, next, qs) && Prev(next, qs, |qs|) == e.word;
      IsWalkCons(chain, w, next, qs);
      var ws := [next] + qs;
      PrevCons(w, next, qs, |qs|);
      assert |ws| < steps && IsWalk(chain, w, ws) && Prev(w, ws, |ws|) == e.word;
    }
  }

  /** The oracle decides the walk: answers that agree on the steps taken give the same walk. */
  lemma {:induction false} WalkReproducible(chain: map<string, seq<string>>, w: string, steps: nat,
                                            p1: nat -> nat, p2: nat -> nat, k: nat)
    requires forall j :: k <= j < k + steps ==> p1(j) == p2(j)
    ensures Walk(chain, w, steps, p1, k) == Walk(chain, w, steps, p2, k)
    decreases steps
  {
    if steps > 0 && w in chain && chain[w] != [] {
      assert p1(k) == p2(k);
      var next := chain[w][p1(k) % |chain[w]|];
      WalkReproducible(chain, next, steps - 1, p1, p2, k + 1);
    }
  }

  /** At each step `j` the oracle's answer selects `ws[j]` from the list of the word before it. */
  predicate Selects(chain: map<string, seq<string>>, w: string, ws: seq<string>, pick: nat -> nat, k: nat) {
    forall j {:trigger Prev(w, ws, j)} :: 0 <= j < |ws| ==>
      && Prev(w, ws, j) in chain && |chain[Prev(w, ws, j)]| > 0
      && chain[Prev(w, ws, j)][pick(k + j) % |chain[Prev(w, ws, j)]|] == ws[j]
  }

  lemma SelectsTail(chain: map<string, seq<string>>, w: string, ws: seq<string>, pick: nat -> nat, k: nat)
    requires ws != [] && Selects(chain, w, ws, pick, k)
    ensures Selects(chain, ws[0], ws[1..], pick, k + 1)
  {
    var tail := ws[1..];
    forall j | 0 <= j < |tail| ensures Prev(ws[0], tail, j) == Prev(w, ws, j + 1) && k + 1 + j == k + (j + 1) {
    }
  }

  /** Conversely, an oracle that selects the words of `ws` makes the walk produce exactly `ws`. */
  lemma {:induction false} WalkFollows(chain: map<string, seq<string>>, w: string, ws: seq<string>,
                                       pick: nat -> nat, k: nat)
    requires Selects(chain, w, ws, pick, k)
    ensures Walk(chain, w, |ws|, pick, k) == Ok(ws)
    decreases |ws|
  {
    if ws != [] {
      assert Prev(w, ws, 0) == w && k + 0 == k;
      assert w in chain && |chain[w]| > 0 && chain[w][pick(k) % |chain[w]|] == ws[0];
      SelectsTail(chain, w, ws, pick, k);
      WalkFollows(chain, ws[0], ws[1..], pick, k + 1);
      assert Walk(chain, w, |ws|, pick, k) == Prepend([ws[0]], Walk(chain, ws[0], |ws| - 1, pick, k + 1));
      assert ws == [ws[0]] + ws[1..];
    }
  }

  /** Where `x` first occurs in `s`. */
  function IndexOf(s: seq<string>, x: string): (i: nat)
    requires x in s
    ensures i < |s| && s[i] == x
  {
    if s[0] == x then 0 else 1 + IndexOf(s[1..], x)
  }

  /** An oracle that answers, at step `j`, the position of the walk's next word. */
  function WalkPick(chain: map<string, seq<string>>, w: string, ws: seq<string>, j: nat): nat {
    if j < |ws| && Prev(w, ws, j) in chain && ws[j] in chain[Prev(w, ws, j)]
    then IndexOf(chain[Prev(w, ws, j)], ws[j])
    else 0
  }

  /** A position below the length is its own remainder, so the draw `IndexOf(s, x)` selects `x`. */
  lemma IndexOfSelects(s: seq<string>, x: string)
    requires x in s
    ensures |s| > 0 && s[IndexOf(s, x) % |s|] == x
  {
    var i := IndexOf(s, x);
    assert i % |s| == i;
  }

  /** At step `j` of a walk, `WalkPick` answers the position of the walk's next word. */
  lemma WalkPickSelects(chain: map<string, seq<string>>, w: string, ws: seq<string>, j: nat)
    requires j < |ws| && Prev(w, ws, j) in chain && ws[j] in chain[Prev(w, ws, j)]
    ensures |chain[Prev(w, ws, j)]| > 0
    ensures chain[Prev(w, ws, j)][WalkPick(chain, w, ws, j) % |chain[Prev(w, ws, j)]|] == ws[j]
  {
    var list := chain[Prev(w, ws, j)];
    assert WalkPick(chain, w, ws, j) == IndexOf(list, ws[j]);
    IndexOfSelects(list, ws[j]);
  }

  /** Every walk through the chain is one some run of `random.choice` can produce. */
  lemma EveryWalkReachable(chain: map<string, seq<string>>, w: string, ws: seq<string>)
    requires IsWalk(chain, w, ws)
    ensures exists pick: nat -> nat :: Walk(chain, w, |ws|, pick, 0) == Ok(ws)
  {
    var pick: nat -> nat := j => WalkPick(chain, w, ws, j);
    forall j | 0 <= j < |ws|
      ensures && Prev(w, ws, j) in chain && |chain[Prev(w, ws, j)]| > 0
              && chain[Prev(w, ws, j)][pick(0 + j) % |chain[Prev(w, ws, j)]|] == ws[j]
    {
      assert Prev(w, ws, j) in chain && ws[j] in chain[Prev(w, ws, j)];
      WalkPickSelects(chain, w, ws, j);
      assert pick(0 + j) == WalkPick(chain, w, ws, j);
    }
    WalkFollows(chain, w, ws, pick, 0);
  }

  /** Every non-empty list's entries are keys with non-empty lists: no walk can get stuck. */
  predicate Closed(chain: map<string, seq<string>>) {
    forall u, v :: u in chain && v in chain[u] ==> v in chain && chain[v] != []
  }

  lemma {:induction false} WalkClosed(chain: map<string, seq<string>>, w: string, steps: nat, pick: nat -> nat, k: nat)
    requires Closed(chain) && w in chain && chain[w] != []
    ensures Walk(chain, w, steps, pick, k).Ok?
    decreases steps
  {
    if steps > 0 {
      var next := chain[w][pick(k) % |chain[w]|];
      assert next in chain[w];
      WalkClosed(chain, next, steps - 1, pick, k + 1);
    }
  }

  // ----- what `predict_words` returns -----

  lemma {:induction false} SpacedJoin(a: string, ws: seq<string>)
    ensures a + Spaced(ws) == Join([a] + ws)
    decreases |ws|
  {
    if ws != [] {
      var init, x := ws[..|ws| - 1], ws[|ws| - 1];
      SpacedJoin(a, init);
      JoinSnoc([a] + init, x);
      assert [a] + ws == ([a] + init) + [x];
    }
  }

  lemma {:induction false} JoinSnoc(ws: seq<string>, x: string)
    requires |ws| >= 1
    ensures Join(ws + [x]) == Join(ws) + " " + x
  {
    if |ws| > 1 {
      assert (ws + [x])[1..] == ws[1..] + [x];
      JoinSnoc(ws[1..], x);
    }
  }

  /**
   * The sentinel comes back exactly when the seed is not a key, whatever the
   * oracle: a generated sentence always ends in a period and the sentinel does not.
   */
  lemma SentinelIffAbsent(chain: map<string, seq<string>>, first: string, numberOfWords: int, pick: nat -> nat)
    ensures Predict(chain, first, numberOfWords, pick) == Ok(NotInCorpus) <==> first !in chain
  {
    if first in chain {
      var r := Predict(chain, first, numberOfWords, pick);
      if r.Ok? {
        var s := r.value;
        assert s[|s| - 1] == '.';
        assert NotInCorpus[|NotInCorpus| - 1] == 'o';
      }
    }
  }

  /** With fewer than two words asked for, nothing is sampled: the seed capitalized, then a period. */
  lemma PredictSingleWord(chain: map<string, seq<string>>, first: string, numberOfWords: int, pick: nat -> nat)
    requires first in chain && numberOfWords <= 1
    ensures Predict(chain, first, numberOfWords, pick) == Ok(Capitalize(first) + ".")
  {
    assert Capitalize(first) + "" == Capitalize(first);
  }

  /**
   * A generated sentence is the capitalized seed and `number_of_words - 1`
   * words, joined by single spaces and closed by a period, and each word
   * follows the one before it in the chain.
   */
  lemma PredictSentence(chain: map<string, seq<string>>, first: string, numberOfWords: int, pick: nat -> nat)
    requires first in chain && Predict(chain, first, numberOfWords, pick).Ok?
    ensures exists ws :: && |ws| == Steps(numberOfWords)
                         && IsWalk(chain, first, ws)
                         && Predict(chain, first, numberOfWords, pick).value == Join([Capitalize(first)] + ws) + "."
  {
    var r := Walk(chain, first, Steps(numberOfWords), pick, 0);
    var ws := r.value;
    WalkPath(chain, first, Steps(numberOfWords), pick, 0, ws);
    SpacedJoin(Capitalize(first), ws);
  }

  /** A seed that is a key fails only at a dead end the walk reached. */
  lemma PredictFailure(chain: map<string, seq<string>>, first: string, numberOfWords: int, pick: nat -> nat)
    requires Predict(chain, first, numberOfWords, pick).Err?
    ensures first in chain
    ensures var e := Predict(chain, first, numberOfWords, pick).error;
            && (exists ws :: |ws| < Steps(numberOfWords) && IsWalk(chain, first, ws) && Prev(first, ws, |ws|) == e.word)
            && (e.KeyError? ==> e.word !in chain)
            && (e.EmptyChoice? ==> e.word in chain && chain[e.word] == [])
  {
    WalkFailure(chain, first, Steps(numberOfWords), pick, 0, Predict(chain, first, numberOfWords, pick).error);
  }

  /** Only the oracle's first `number_of_words - 1` answers matter. */
  lemma PredictReproducible(chain: map<string, seq<string>>, first: string, numberOfWords: int,
                            p1: nat -> nat, p2: nat -> nat)
    requires forall j :: 0 <= j < Steps(numberOfWords) ==> p1(j) == p2(j)
    ensures Predict(chain, first, numberOfWords, p1) == Predict(chain, first, numberOfWords, p2)
  {
    WalkReproducible(chain, first, Steps(numberOfWords), p1, p2, 0);
  }

  /**
   * On a model built from text whose last token also occurs earlier, every
   * prediction from a key succeeds: each successor is a key with successors.
   */
  lemma PredictOnModelSucceeds(words: seq<string>, first: string, numberOfWords: int, pick: nat -> nat)
    requires |words| >= 1 && words[|words| - 1] in Predecessors(words)
    requires first in TransitionModel(words)
    ensures Predict(TransitionModel(words), first, numberOfWords, pick).Ok?
  {
    var m := TransitionModel(words);
    forall u, v | u in m && v in m[u] ensures v in m && m[v] != [] {
      ModelClosed(words, u, v);
    }
    ModelKeys(words, first);
    WalkClosed(m, first, Steps(numberOfWords), pick, 0);
  }

  /** On the text "a b" the walk from "a" reaches "b", which has no successor, and the lookup fails. */
  lemma DeadEndExample(text: string, pick: nat -> nat)
    requires text == "a b"
    ensures Predict(TransitionModel(Split(text)), "a", 3, pick) == Err(KeyError("b"))
  {
    assert Join(["a", "b"]) == "a b";
    SplitJoin(["a", "b"]);
    var m := TransitionModel(["a", "b"]);
    assert Predecessors(["a", "b"]) == ["a"];
    assert Succ(["a", "b"], "a") == ["b"];
    assert "b" !in m;
  }

  lemma CapitalizeHello(w: string)
    requires w == "hello"
    ensures Capitalize(w) + "." == "Hello."
  {
    assert Capitalize("hello") == "Hello";
  }

  /** On the docstring corpus, seed "hello" with one word gives "Hello.". */
  lemma DocstringSingleWord(text: string, pick: nat -> nat)
    requires text == "hello my name is V" + " " + "hello my name is G" + " "
                     + "hello my current name is F" + " " + "world today is a good day"
    ensures Predict(TransitionModel(Split(text)), "hello", 1, pick) == Ok("Hello.")
  {
    DocstringModel(text);
    assert "hello" in DocstringTable;
    PredictSingleWord(TransitionModel(Split(text)), "hello", 1, pick);
    CapitalizeHello("hello");
  }

  /** On the docstring corpus, the absent seed "zzz" gives the sentinel. */
  lemma DocstringAbsentSeed(text: string, pick: nat -> nat)
    requires text == "hello my name is V" + " " + "hello my name is G" + " "
                     + "hello my current name is F" + " " + "world today is a good day"
    ensures Predict(TransitionModel(Split(text)), "zzz", 5, pick) == Ok(NotInCorpus)
  {
    DocstringModel(text);
    assert "zzz" !in DocstringTable;
  }
}
