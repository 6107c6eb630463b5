/**
 * The `Markov` class: its constructor normalizes the loaded corpus once and
 * builds the transition model once; both are immutable afterwards.
 */
module Predictor {
  import opened Normalizer
  import opened Tokenizer
  import opened Chain

  class Markov {
    /** The corpus with punctuation removed. */
    const text: string
    /** Each token mapped to its successors; never updated after construction. */
    const model: map<string, seq<string>>

    /** `Markov(file_path)`, with the file's contents already read into `corpus`. */
    constructor (corpus: string)
      ensures text == RemovePunctuations(corpus)
      ensures model == TransitionModel(Split(text))
    {
      var normalized := RemovePunctuations(corpus);
      var built := BuildModel(normalized);
      text := normalized;
      model := built;
    }

    /**
     * `Markov.model`: split on single spaces, then append each token to the
     * list of the token before it, creating the list on first use.
     */
    static method BuildModel(text: string) returns (m: map<string, seq<string>>)
      ensures m == TransitionModel(Split(text))
    {
      var words := Split(text);
      m := map[];
      ShortTextEmptyModel(words[..1]);
      var i := 0;
      while i < |words| - 1
        invariant 0 <= i <= |words| - 1
        invariant m == TransitionModel(words[..i + 1])
      {
        var current, next := words[i], words[i + 1];
        ghost var prefix := words[..i + 1];
        assert prefix[|prefix| - 1] == current;
        ModelStep(prefix, next);
        if current in m {
          m := m[current := m[current] + [next]];
        } else {
          assert [] + [next] == [next];
          m := m[current := [next]];
        }
        assert words[..i + 2] == prefix + [next];
        i := i + 1;
      }
      assert words[..i + 1] == words;
    }
  }

  /** A corpus that is empty once punctuation is removed is one empty token, so its model is empty. */
  lemma EmptyCorpusEmptyModel(corpus: string)
    requires RemovePunctuations(corpus) == ""
    ensures Split(RemovePunctuations(corpus)) == [""]
    ensures TransitionModel(Split(RemovePunctuations(corpus))) == map[]
  {
    SplitEmpty(RemovePunctuations(corpus));
    ShortTextEmptyModel(Split(RemovePunctuations(corpus)));
  }

  // ----- the example in the docstring of `Markov.model` -----

  /** The dictionary the docstring of `Markov.model` prints for its example corpus. */
  const DocstringTable: map<string, seq<string>> := map[
    "F" := ["world"], "G" := ["hello"], "V" := ["hello"], "a" := ["good"],
    "current" := ["name"], "good" := ["day"], "hello" := ["my", "my", "my"],
    "is" := ["V", "G", "F", "a"], "my" := ["name", "name", "current"],
    "name" := ["is", "is", "is"], "today" := ["is"], "world" := ["today"]]

  /*
   * One lemma per sentence of the example corpus: its tokens, and the successors
   * of any token `k` within it. They differ only in their literals; evaluating
   * the functions on the whole 22-token corpus, or on all four sentences in one
   * lemma, exceeds the solver's resources, so each sentence is taken alone.
   */

  lemma Sentence1Tokens(s: string, ws: seq<string>)
    requires s == "hello my name is V" && ws == ["hello", "my", "name", "is", "V"]
    ensures Split(s) == ws
  {
    assert Join(["hello", "my", "name", "is", "V"]) == "hello my name is V";
    SplitJoin(ws);
  }

  lemma Sentence1Successors(ws: seq<string>, k: string)
    requires ws == ["hello", "my", "name", "is", "V"]
    ensures Succ(ws, k) == Lookup(map["hello" := ["my"], "my" := ["name"], "name" := ["is"], "is" := ["V"]], k)
  {
    var t1 := ws[1..];
    assert Succ(ws, k) == (if k == "hello" then ["my"] else []) + Succ(t1, k);
    var t2 := t1[1..];
    assert Succ(t1, k) == (if k == "my" then ["name"] else []) + Succ(t2, k);
    var t3 := t2[1..];
    assert Succ(t2, k) == (if k == "name" then ["is"] else []) + Succ(t3, k);
    var t4 := t3[1..];
    assert Succ(t3, k) == (if k == "is" then ["V"] else []) + Succ(t4, k);
    assert |t4| == 1;
  }

  lemma Sentence2Tokens(s: string, ws: seq<string>)
    requires s == "hello my name is G" && ws == ["hello", "my", "name", "is", "G"]
    ensures Split(s) == ws
  {
    assert Join(["hello", "my", "name", "is", "G"]) == "hello my name is G";
    SplitJoin(ws);
  }

  lemma Sentence2Successors(ws: seq<string>, k: string)
    requires ws == ["hello", "my", "name", "is", "G"]
    ensures Succ(ws, k) == Lookup(map["hello" := ["my"], "my" := ["name"], "name" := ["is"], "is" := ["G"]], k)
  {
    var t1 := ws[1..];
    assert Succ(ws, k) == (if k == "hello" then ["my"] else []) + Succ(t1, k);
    var t2 := t1[1..];
    assert Succ(t1, k) == (if k == "my" then ["name"] else []) + Succ(t2, k);
    var t3 := t2[1..];
    assert Succ(t2, k) == (if k == "name" then ["is"] else []) + Succ(t3, k);
    var t4 := t3[1..];
    assert Succ(t3, k) == (if k == "is" then ["G"] else []) + Succ(t4, k);
    assert |t4| == 1;
  }

  lemma Sentence3Tokens(s: string, ws: seq<string>)
    requires s == "hello my current name is F" && ws == ["hello", "my", "current", "name", "is", "F"]
    ensures Split(s) == ws
  {
    assert Join(["hello", "my", "current", "name", "is", "F"]) == "hello my current name is F";
    SplitJoin(ws);
  }

  lemma Sentence3Successors(ws: seq<string>, k: string)
    requires ws == ["hello", "my", "current", "name", "is", "F"]
    ensures Succ(ws, k) == Lookup(map["hello" := ["my"], "my" := ["current"], "current" := ["name"], "name" := ["is"], "is" := ["F"]], k)
  {
    var t1 := ws[1..];
    assert Succ(ws, k) == (if k == "hello" then ["my"] else []) + Succ(t1, k);
    var t2 := t1[1..];
    assert Succ(t1, k) == (if k == "my" then ["current"] else []) + Succ(t2, k);
    var t3 := t2[1..];
    assert Succ(t2, k) == (if k == "current" then ["name"] else []) + Succ(t3, k);
    var t4 := t3[1..];
    assert Succ(t3, k) == (if k == "name" then ["is"] else []) + Succ(t4, k);
    var t5 := t4[1..];
    assert Succ(t4, k) == (if k == "is" then ["F"] else []) + Succ(t5, k);
    assert |t5| == 1;
  }

  lemma Sentence4Tokens(s: string, ws: seq<string>)
    requires s == "world today is a good day" && ws == ["world", "today", "is", "a", "good", "day"]
    ensures Split(s) == ws
  {
    assert Join(["world", "today", "is", "a", "good", "day"]) == "world today is a good day";
    SplitJoin(ws);
  }

  lemma Sentence4Successors(ws: seq<string>, k: string)
    requires ws == ["world", "today", "is", "a", "good", "day"]
    ensures Succ(ws, k) == Lookup(map["world" := ["today"], "today" := ["is"], "is" := ["a"], "a" := ["good"], "good" := ["day"]], k)
  {
    var t1 := ws[1..];
    assert Succ(ws, k) == (if k == "world" then ["today"] else []) + Succ(t1, k);
    var t2 := t1[1..];
    assert Succ(t1, k) == (if k == "today" then ["is"] else []) + Succ(t2, k);
    var t3 := t2[1..];
    assert Succ(t2, k) == (if k == "is" then ["a"] else []) + Succ(t3, k);
    var t4 := t3[1..];
    assert Succ(t3, k) == (if k == "a" then ["good"] else []) + Succ(t4, k);
    var t5 := t4[1..];
    assert Succ(t4, k) == (if k == "good" then ["day"] else []) + Succ(t5, k);
    assert |t5| == 1;
  }

  /** The successors in four joined pieces: those in each piece, and the pair across each seam. */
  lemma SuccOfFour<W>(a: seq<W>, b: seq<W>, c: seq<W>, d: seq<W>, w: W)
    requires |a| >= 1 && |b| >= 1 && |c| >= 1 && |d| >= 1
    ensures Succ(a + b + c + d, w)
            == Succ(a, w) + (if a[|a| - 1] == w then [b[0]] else []) + Succ(b, w)
               + (if b[|b| - 1] == w then [c[0]] else []) + Succ(c, w)
               + (if c[|c| - 1] == w then [d[0]] else []) + Succ(d, w)
  {
    var ab := a + b;
    var abc := ab + c;
    assert ab[|ab| - 1] == b[|b| - 1] && abc[|abc| - 1] == c[|c| - 1];
    SuccAppend(a, b, w);
    SuccAppend(ab, c, w);
    SuccAppend(abc, d, w);
  }

  /** The docstring corpus is the four sentences' tokens, one after the other. */
  lemma DocstringTokens(text: string, a: seq<string>, b: seq<string>, c: seq<string>, d: seq<string>)
    requires text == "hello my name is V" + " " + "hello my name is G" + " "
                     + "hello my current name is F" + " " + "world today is a good day"
    requires a == ["hello", "my", "name", "is", "V"] && b == ["hello", "my", "name", "is", "G"]
    requires c == ["hello", "my", "current", "name", "is", "F"]
    requires d == ["world", "today", "is", "a", "good", "day"]
    ensures Split(text) == a + b + c + d
  {
    var s1, s2 := "hello my name is V", "hello my name is G";
    var s3, s4 := "hello my current name is F", "world today is a good day";
    SplitConcat(s1, s2);
    SplitConcat(s1 + " " + s2, s3);
    SplitConcat(s1 + " " + s2 + " " + s3, s4);
    Sentence1Tokens(s1, a);
    Sentence2Tokens(s2, b);
    Sentence3Tokens(s3, c);
    Sentence4Tokens(s4, d);
  }

  /** The four sentences' successor lists and the three seams add up to the printed entry of each token. */
  lemma DocstringLists(k: string, sa: seq<string>, sb: seq<string>, sc: seq<string>, sd: seq<string>)
    requires sa == Lookup(map["hello" := ["my"], "my" := ["name"], "name" := ["is"], "is" := ["V"]], k)
    requires sb == Lookup(map["hello" := ["my"], "my" := ["name"], "name" := ["is"], "is" := ["G"]], k)
    requires sc == Lookup(map["hello" := ["my"], "my" := ["current"], "current" := ["name"], "name" := ["is"], "is" := ["F"]], k)
    requires sd == Lookup(map["world" := ["today"], "today" := ["is"], "is" := ["a"], "a" := ["good"], "good" := ["day"]], k)
    ensures sa + (if k == "V" then ["hello"] else []) + sb + (if k == "G" then ["hello"] else [])
            + sc + (if k == "F" then ["world"] else []) + sd == Lookup(DocstringTable, k)
  {
    if k !in DocstringTable {
      assert k != "hello" && k != "my" && k != "name" && k != "is" && k != "V" && k != "G" && k != "F";
      assert k != "current" && k != "world" && k != "today" && k != "a" && k != "good";
    } else if k == "hello" {
    } else if k == "is" {
    } else if k == "my" {
    } else if k == "name" {
    } else if k == "V" {
    } else if k == "G" {
    } else if k == "F" {
    } else if k == "current" {
    } else if k == "world" {
    } else if k == "today" {
    } else if k == "a" {
    } else {
      assert k == "good";
    }
  }

  /** The worked example of `Markov.model`'s docstring: its corpus gives exactly the printed dictionary. */
  lemma DocstringModel(text: string)
    requires text == "hello my name is V" + " " + "hello my name is G" + " "
                     + "hello my current name is F" + " " + "world today is a good day"
    ensures TransitionModel(Split(text)) == DocstringTable
  {
    var a, b := ["hello", "my", "name", "is", "V"], ["hello", "my", "name", "is", "G"];
    var c, d := ["hello", "my", "current", "name", "is", "F"], ["world", "today", "is", "a", "good", "day"];
    DocstringTokens(text, a, b, c, d);
    var words := a + b + c + d;
    forall k ensures Lookup(DocstringTable, k) == Succ(words, k) {
      SuccOfFour(a, b, c, d, k);
      Sentence1Successors(a, k);
      Sentence2Successors(b, k);
      Sentence3Successors(c, k);
      Sentence4Successors(d, k);
      assert a[|a| - 1] == "V" && b[0] == "hello" && b[|b| - 1] == "G";
      assert c[0] == "hello" && c[|c| - 1] == "F" && d[0] == "world";
      DocstringLists(k, Succ(a, k), Succ(b, k), Succ(c, k), Succ(d, k));
    }
    ModelFromSucc(words, DocstringTable);
  }
}
