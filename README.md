# Markov next-word predictor, modelled in Dafny

`predictor.py` trains a first-order Markov chain on a text corpus and uses it
to generate sentences. The `Markov` class takes the corpus and does two things:

- It deletes every ASCII punctuation character (`remove_punctuations`).
- It splits the text on single spaces and records, for every token, the list
  of tokens that follow it (`model`).

`predict_words` starts from a seed word that must be a key of that table. It
then walks `number_of_words - 1` random steps through the table and returns:

- the seed capitalized,
- the chosen words, each after one space,
- a final period.

When the seed is not a key, it returns the fixed message
`"La palabra no esta en el cuerpo"`.

The project has five modules, one per stage of that pipeline:

| file | module | models |
|---|---|---|
| `normalizer.dfy` | `Normalizer` | `remove_punctuations`, a filter over the corpus |
| `tokenizer.dfy` | `Tokenizer` | `str.split(' ')` and its inverse `' '.join` |
| `chain.dfy` | `Chain` | specification of the transition table (`Succ`, `TransitionModel`) |
| `predictor.dfy` | `Predictor` | the `Markov` class, and the loop of `model` proved equal to `TransitionModel` |
| `generator.dfy` | `Generator` | `str.capitalize` over ASCII, the random walk, and `predict_words` |

How the model maps onto the code:

- **Randomness.** `random.choice` is replaced by an oracle `pick: nat -> nat`.
  The `k`-th draw (counting from 0) takes the element at index
  `pick(k) % |list|`. Every statement about a prediction holds for every
  oracle. `EveryWalkReachable` shows that every path through the table is
  produced by some oracle.
- **Errors.** Exceptions become values of `Result`:
  - The code indexes `chain[word1]` without a guard. When it reaches a word
    that is not a key, Python raises `KeyError`; the model returns
    `Err(KeyError(word))`.
  - When `random.choice` is given an empty list, the model returns
    `Err(EmptyChoice(word))`. A table built by `Markov.model` never holds one,
    but `predict_words` accepts any dictionary.
- **A walk can fail.** A token that occurs only as the last token of the
  corpus is not a key. A walk fails when it reaches such a token with steps
  still left; reaching it on the last step is harmless. `DeadEndExample` shows
  the failure on the text `"a b"`: seed `"a"` with 3 words reaches `"b"` with
  one step left. `PredictOnModelSucceeds` shows that no walk fails when the
  corpus's last token also occurs earlier.
- **Capitalization.** `str.capitalize` uppercases the first character and
  lowercases every character after it, so the rest of the seed does not keep
  its case (`CapitalizeExample`: `"hELLO"` becomes `"Hello"`).
- **Word count.** `number_of_words` is any integer and defaults to 5, as in
  the code; `PredictWords` takes it as its last parameter with that default.
  A count of 1 or less, including a negative one, makes
  `range(number_of_words - 1)` empty, so no word is sampled.

## Model

| member | source | states |
|---|---|---|
| Normalizer.RemovePunctuations | predictor.py:28-32 | the filter itself: walks the text and keeps each character that is not in `string.punctuation`, in order |
| Normalizer.RemovePunctuationsSpec | predictor.py:28-32 | the result holds no punctuation, is no longer than the input, keeps each other character exactly as often as it occurs, and is a subsequence of the input (order kept) |
| Normalizer.PunctuationSet | predictor.py:32 | the punctuation test used by the filter agrees with the 32-character `string.punctuation` list, in both directions |
| Normalizer.RemovePunctuationsUnique | predictor.py:28-32 | any string with no punctuation that is a subsequence of the input and keeps every other character's count equals the filter's result, so these properties characterize it |
| Normalizer.NoPunctuationUnchanged | predictor.py:32 | text without punctuation passes through unchanged |
| Normalizer.RemovePunctuationsIdempotent | predictor.py:28-32 | removing punctuation twice equals removing it once |
| Normalizer.RemovePunctuationsAppend | predictor.py:32 | the filter works piecewise: the result on `a + b` is the result on `a` followed by the result on `b` |
| Normalizer.RemovePunctuationsExample | predictor.py:32 | `"don't stop!"` becomes `"dont stop"`: the apostrophe and the `!` are removed, the space is kept |
| Tokenizer.Split | predictor.py:61 | `str.split(' ')`: cuts the text at every single space, always giving at least one token, empty tokens included |
| Tokenizer.Join | predictor.py:61 | `' '.join`: puts one space between consecutive tokens |
| Tokenizer.SplitSpec | predictor.py:61 | `split(' ')` gives one more token than there are spaces, and no token contains a space |
| Tokenizer.JoinSplit | predictor.py:61 | joining the tokens with single spaces gives back the text, so no character is lost |
| Tokenizer.SplitJoin | predictor.py:61 | splitting a space-joined non-empty list of space-free tokens gives back the list |
| Tokenizer.SplitConcat | predictor.py:61 | cutting at one space splits the two sides independently |
| Tokenizer.SplitDoubleSpace | predictor.py:61 | two adjacent spaces produce an empty token: `"a  b"` gives `["a", "", "b"]` |
| Tokenizer.SplitEmpty | predictor.py:61 | the empty text is the single token `""` |
| Chain.Succ | predictor.py:64-71 | the list `model` builds for one token: the token after each of its non-final occurrences, in text order, duplicates kept |
| Chain.TransitionModel | predictor.py:64-71 | the dictionary `model` returns: one key per token at a non-final position, mapped to its `Succ` list |
| Chain.ModelFromSucc | predictor.py:64-71 | a table equals the transition model when every token's lookup (empty for a missing key, as `defaultdict(list)` gives) is its successor list and no stored list is empty |
| Chain.Predecessors | predictor.py:67 | `words[0:-1]` has one element fewer than a non-empty `words` and the same elements in front |
| Chain.SuccAppend | predictor.py:67-68 | the successors of `w` in `a + b` are those in `a`, then the pair across the seam, then those in `b` |
| Chain.SuccCount | predictor.py:67-68 | `w` has exactly as many successors as it has occurrences at a non-final position |
| Chain.SuccOrder | predictor.py:67-68 | the successor after the `j`-th occurrence of a token is at position `j` of its list: lists keep the text's order, duplicates included |
| Chain.PairInModel | predictor.py:67-68 | for every `i < |words| - 1`, `words[i]` is a key and `words[i + 1]` is in its list |
| Chain.SuccFollows | predictor.py:67-68 | every element of a list follows some occurrence of its key in the text |
| Chain.ModelKeys | predictor.py:64-71 | the keys are exactly the tokens at a non-final position, and a token is a key exactly when its list is non-empty |
| Chain.ShortTextEmptyModel | predictor.py:67 | a text of fewer than two tokens has no pairs and so an empty table |
| Chain.ModelStep | predictor.py:68 | appending a token `x` changes the table only by appending `x` to the list of the previous last token, creating the list if it is missing (the `defaultdict(list)` append) |
| Chain.TotalSuccessors | predictor.py:67-68 | over the distinct keys, the list lengths add up to `|words| - 1`, one entry per adjacent pair |
| Chain.ModelClosed | predictor.py:67-68 | when the last token also occurs earlier, every listed successor is itself a key with a non-empty list |
| Predictor.Markov.constructor | predictor.py:8-15 | the stored text is the corpus without punctuation, and the stored table is the transition table of its tokens |
| Predictor.Markov.BuildModel | predictor.py:35-73 | the loop over adjacent pairs that appends into a `defaultdict(list)` builds exactly `TransitionModel(Split(text))`; the invariant is that after `i` pairs the table is the model of the first `i + 1` tokens |
| Predictor.EmptyCorpusEmptyModel | predictor.py:12-15 | a corpus that is empty after normalizing gives one empty token and an empty table |
| Predictor.DocstringModel | predictor.py:44-57 | on the docstring corpus the table is exactly the twelve-entry dictionary the docstring prints: `F -> [world]`, `G -> [hello]`, `V -> [hello]`, `a -> [good]`, `current -> [name]`, `good -> [day]`, `hello -> [my, my, my]`, `is -> [V, G, F, a]`, `my -> [name, name, current]`, `name -> [is, is, is]`, `today -> [is]`, `world -> [today]`, and no other key |
| Generator.Capitalize | predictor.py:97 | `str.capitalize` on ASCII: the first character uppercased, every later one lowercased |
| Generator.CapitalizeSpec | predictor.py:97 | `capitalize` keeps the length, each character up to case, and every non-letter; it puts no lowercase letter first and no uppercase letter after it |
| Generator.CapitalizeUnique | predictor.py:97 | those properties determine the result |
| Generator.CapitalizeIdempotent | predictor.py:97 | capitalizing twice equals capitalizing once |
| Generator.CapitalizeExample | predictor.py:97 | `"hELLO"` becomes `"Hello"`: the letters after the first are lowercased |
| Generator.Walk | predictor.py:100-103 | the loop's walk as a function: each remaining step looks up the current word, fails with `KeyError` if it is not a key or `EmptyChoice` if its list is empty, and otherwise moves to the entry the `k`-th draw selects |
| Generator.Predict | predictor.py:78-109 | `predict_words` as a function: the sentinel for an absent seed, otherwise the capitalized seed, the walk's words each after a space, and `'.'`, or the walk's error |
| Generator.PredictWords | predictor.py:78-109 | the loop, whose count defaults to 5 when omitted, returns `Predict`: the sentinel for an absent seed, otherwise the capitalized seed, `' ' + w` for each sampled word and `'.'`, or the lookup error the walk meets; each step moves to the sampled word |
| Generator.WalkPath | predictor.py:100-103 | a successful walk of `n` steps chooses `n` words, each in the list of the word before it |
| Generator.WalkFailure | predictor.py:101 | a failed walk stops at a word reached along a walk from the seed. On `KeyError` that word is not a key; on `EmptyChoice` it is a key whose list is empty |
| Generator.WalkReproducible | predictor.py:100-103 | two oracles that agree on the draws taken give the same walk |
| Generator.WalkFollows | predictor.py:100-103 | an oracle whose draws select the words of `ws` in turn makes the walk produce exactly `ws` |
| Generator.EveryWalkReachable | predictor.py:101 | every walk through the table is the outcome of some sequence of draws |
| Generator.WalkClosed | predictor.py:100-103 | in a table where every listed word is a key with a non-empty list, a walk from such a key never fails |
| Generator.SpacedJoin | predictor.py:103 | appending `' ' + w` for each word equals `' '.join` of the seed and the words |
| Generator.SentinelIffAbsent | predictor.py:94-109 | the result is the sentinel exactly when the seed is not a key, whatever the oracle |
| Generator.PredictSingleWord | predictor.py:97-106 | with a key as seed and `number_of_words <= 1`, the result is the capitalized seed followed by `'.'` |
| Generator.PredictSentence | predictor.py:94-107 | a successful prediction from a key has the form `' '.join([capitalize(seed)] + ws) + '.'`, where `ws` has `max(number_of_words - 1, 0)` words and each word is in the list of the one before it |
| Generator.PredictFailure | predictor.py:101 | a failed prediction has a key as seed and stops at a dead end reached in fewer than `number_of_words - 1` steps |
| Generator.PredictReproducible | predictor.py:100-103 | only the first `number_of_words - 1` draws affect the result |
| Generator.PredictOnModelSucceeds | predictor.py:100-103 | on the table built from a text whose last token also occurs earlier, every prediction from a key succeeds |
| Generator.DeadEndExample | predictor.py:101 | on the text `"a b"`, seed `"a"` with 3 words reaches `"b"`, which is not a key, and fails with `KeyError("b")` |
| Generator.DocstringSingleWord | predictor.py:97-106 | on the docstring corpus, seed `"hello"` with one word gives `"Hello."` |
| Generator.DocstringAbsentSeed | predictor.py:94-109 | on the docstring corpus, the absent seed `"zzz"` gives the sentinel |

## Left out

- `Markov.get_text` (predictor.py:18-25) reads the file. This is I/O, so the constructor takes the loaded text as a string, and the `file_path` field is not modelled.
- The confirmation `print` in `model` (predictor.py:72) and the interactive `__main__` block (predictor.py:111-124) are console I/O and are not modelled.
- `random.choice` is an oracle. The uniform distribution of the draws is not modelled, and neither is the random number generator's state.
- Predictor.Markov.BuildModel: `model` reads `self.text`, and the constructor (predictor.py:15) replaces the method with the dictionary `model` returns. The model is a static method that takes the text, and the table is a `const` field set once in the constructor.
- Predictor.Markov.BuildModel: Python dictionaries remember the order in which keys are inserted; a Dafny `map` does not, so that order is not modelled. The order within each list is modelled.
- Generator.Capitalize: covers ASCII letters only. Unicode case mapping and title case in `str.capitalize` are not modelled.
- Generator.PredictWords: an exception raised inside the loop is returned as an `Err` value. `KeyError` becomes `KeyError(word)` with the missing key. The `IndexError` that `random.choice` raises on an empty list becomes `EmptyChoice(word)`, which records the word whose list is empty instead of Python's fixed message. Python's traceback is not modelled.
