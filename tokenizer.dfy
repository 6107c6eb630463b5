/**
 * Tokenization as `Markov.model` does it: Python's `text.split(' ')`, which cuts at
 * every single space, so adjacent spaces give empty tokens and "" gives [""].
 * `Join` is `' '.join`, its inverse.
 */
module Tokenizer {

  predicate SpaceFree(w: string) {
    ' ' !in w
  }

  predicate AllSpaceFree(ws: seq<string>) {
    forall i :: 0 <= i < |ws| ==> SpaceFree(ws[i])
  }

  /** `s.split(' ')` */
  function Split(s: string): (ws: seq<string>)
    ensures |ws| >= 1
  {
    if s == [] then [""]
    else
      var rest := Split(s[1..]);
      if s[0] == ' ' then [""] + rest
      else [[s[0]] + rest[0]] + rest[1..]
  }

  /** `' '.join(ws)` */
  function Join(ws: seq<string>): string {
    if |ws| == 0 then ""
    else if |ws| == 1 then ws[0]
    else ws[0] + " " + Join(ws[1..])
  }

  /** Every space separates two tokens, and no token holds a space. */
  lemma {:induction false} SplitSpec(s: string)
    ensures |Split(s)| == multiset(s)[' '] + 1
    ensures AllSpaceFree(Split(s))
  {
    if s != [] {
      SplitSpec(s[1..]);
      assert s == [s[0]] + s[1..];
      var rest := Split(s[1..]);
      if s[0] != ' ' {
        assert SpaceFree(rest[0]);
        assert forall i :: 1 <= i < |rest| ==> SpaceFree(rest[i]);
      }
    }
  }

  /** Joining the tokens with single spaces gives back the text. */
  lemma {:induction false} JoinSplit(s: string)
    ensures Join(Split(s)) == s
  {
    if s != [] {
      JoinSplit(s[1..]);
      var rest := Split(s[1..]);
      if s[0] == ' ' {
        assert Split(s) == [""] + rest;
        assert |Split(s)| >= 2;
        assert Split(s)[1..] == rest;
      } else {
        var ws := Split(s);
        assert ws[0] == [s[0]] + rest[0];
        if |rest| == 1 {
          assert s == [s[0]] + s[1..];
        } else {
          assert ws[1..] == rest[1..];
          assert Join(rest) == rest[0] + " " + Join(rest[1..]);
          assert s == [s[0]] + s[1..];
        }
      }
    }
  }

  lemma {:induction false} SplitSpaceFree(w: string)
    requires SpaceFree(w)
    ensures Split(w) == [w]
  {
    if w != [] {
      SplitSpaceFree(w[1..]);
      assert w == [w[0]] + w[1..];
    }
  }

  /** Cutting at one space splits the two sides independently. */
  lemma {:induction false} SplitConcat(a: string, t: string)
    ensures Split(a + " " + t) == Split(a) + Split(t)
  {
    if a == [] {
      assert a + " " + t == [' '] + t;
    } else {
      var s := a + " " + t;
      assert s[0] == a[0] && s[1..] == a[1..] + " " + t;
      SplitConcat(a[1..], t);
      var left, right := Split(a[1..]), Split(t);
      var rest := left + right;
      assert Split(s[1..]) == rest;
      if a[0] != ' ' {
        assert rest[0] == left[0] && rest[1..] == left[1..] + right;
        assert Split(a) == [[a[0]] + left[0]] + left[1..];
      }
    }
  }

  lemma SplitAtSpace(s: string, i: nat)
    requires i < |s| && s[i] == ' '
    ensures Split(s) == Split(s[..i]) + Split(s[i + 1..])
  {
    assert s == s[..i] + " " + s[i + 1..];
    SplitConcat(s[..i], s[i + 1..]);
  }

  /** Splitting undoes joining, for a non-empty list of space-free tokens. */
  lemma {:induction false} SplitJoin(ws: seq<string>)
    requires |ws| >= 1 && AllSpaceFree(ws)
    ensures Split(Join(ws)) == ws
  {
    if |ws| == 1 {
      SplitSpaceFree(ws[0]);
    } else {
      SplitConcat(ws[0], Join(ws[1..]));
      SplitSpaceFree(ws[0]);
      SplitJoin(ws[1..]);
      assert ws == [ws[0]] + ws[1..];
    }
  }

  /** Two adjacent spaces produce an empty token. */
  lemma SplitDoubleSpace(s: string)
    requires s == "a  b"
    ensures Split(s) == ["a", "", "b"]
  {
    var a, rest := s[..1], s[2..];
    SplitAtSpace(s, 1);
    SplitAtSpace(rest, 0);
    assert a == "a" && rest[..0] == "" && rest[1..] == "b";
    SplitSpaceFree(a);
    SplitSpaceFree(rest[1..]);
  }

  /** The empty text is one empty token. */
  lemma SplitEmpty(s: string)
    requires s == ""
    ensures Split(s) == [""]
  {
  }
}
