# Trivia question generation, modelled in Dafny

Brainstorm turns an encyclopedia article (summary text, title, URL) into a
fill-in-the-blank trivia question. Both `brainstorm.py` and `question_generator.py`
hold a copy of the `Article` analyzer. This project models four parts of it:

- **Distractor lookup** (`get_similar_words`): it walks the WordNet noun
  hierarchy from a word's first synset to that synset's first hypernym. It
  returns up to eight display names of the hypernym's hyponyms, leaving out the
  word itself.
- **Sentence evaluation** (`evaluate_sentence`):
  - It rejects sentences that start with an adverb or have fewer than six words.
  - It targets the first common noun that is not a substring of the title.
  - It blanks either the last two words of the first noun phrase that contains
    the target, or the target alone.
  - It replaces the first case-insensitive occurrence of the blanked words with
    groups of ten underscores.
- **Article analysis** (`generate_trivia_sentences`): it removes the first
  sentence from the summary's sentence list and evaluates the rest in order.
- **Selection** (`generate_trivia` in `brainstorm.py`): it keeps the *last*
  candidate with more than three distractors and cuts its distractors to three.
  With no such candidate it returns `False`, which the model writes as `None`.

## Modules

- `outcomes.dfy`, module `Outcomes`:
  - `Option` and `Result`.
  - `Fault`: one constructor for each `IndexError` the code can raise at an
    unguarded index.
- `text.dfy`, module `Text`: the Python string operations the code uses, over
  ASCII:
  - substring `in`, `str.split()`, `' '.join`, `replace('_', ' ')`, `strip()`,
    string repetition;
  - the first-match, case-insensitive substitution of
    `re.compile(re.escape(p), re.IGNORECASE).sub(r, s, count=1)`.
- `taxonomy.dfy`, module `Taxonomy`:
  - WordNet as a lexicon from words to noun synsets;
  - both copies of the distractor lookup, as functions with their properties.
- `evaluator.dfy`, module `Evaluator`: the sentence evaluator as functions, with
  the lemmas that say which words are blanked and what a candidate holds.
- `article.dfy`, module `Trivia`:
  - collection over a sentence list and the selection rule;
  - the class `Article`, whose methods run the source's loops and are each
    proved equal to the functions above;
  - the methods `GenerateTrivia` and `SelectTrivia`.
- `scenario.dfy`, module `Scenario`: a worked sentence, "Houston is the largest
  city in Texas.", in an article titled "Texas".

The two copies of `Article` differ in one place. `question_generator.py:73`
takes `hypernyms()[0]` without the emptiness test of `brainstorm.py:51`. The
model keeps one class with a `variant` field. The question_generator copy
returns `Failure(NoHypernym)` exactly where the Python raises.

### Faults

| Fault | Raised by |
|---|---|
| `NoFirstSentence` | `del sentences[0]` on a summary without sentences |
| `NoFirstTag` | `sentence.tags[0]` on a sentence without tags |
| `EmptyNounPhrase` | `phrase[0]` on an empty noun phrase |
| `NoHypernym` | the unguarded hypernym lookup, in the question_generator copy only |

A fault ends the whole analysis, because the exception propagates. The first
fault in sentence order wins.

### Other modelling choices

- **WordNet:** `Wellformed` requires, for each synset listed under a word,
  every hyponym of each of its hypernyms (one step up, then one step down) to
  have a lemma; these are the only synsets whose lemmas the code reads. The code reads `lemmas()[0]` without a guard, and
  WordNet guarantees every synset has at least one lemma.
- **`del sentences[0]`:** TextBlob caches the sentence list, so this shortens the
  article's own list. The model keeps that list in the `Article` field
  `sentences`, which `GenerateTriviaSentences` reassigns.
- **The selector:** the loop at `brainstorm.py:151-154` reassigns
  `trivia_question` on every candidate with more than three distractors, so the
  last one wins. The model follows the loop.

## Model

| member | source | states |
|---|---|---|
| Text.Contains | brainstorm.py:83-92 | Python's `in` on two strings, used for the title test and the phrase test: the empty string is in every string, and a string that is contained is no longer than the one containing it |
| Text.ContainsIffOccurs | brainstorm.py:83 | Python's substring test holds exactly when the word occurs at some position of the string |
| Text.Split | brainstorm.py:94 | `str.split()` yields only non-empty tokens without whitespace |
| Text.SplitJoin | brainstorm.py:110 | splitting the words joined by single spaces gives the same words back, in order |
| Text.Join | brainstorm.py:121 | `' '.join` of the blanked words, also the answer at line 110: the result starts with the first word, followed by a space when there is a second; it is empty for no words |
| Text.LastTwo | brainstorm.py:94 | `[-2:]` is the suffix of length min(2, n) |
| Text.ReplaceUnderscores | brainstorm.py:62 | every underscore becomes a space; the length and every other character are kept |
| Text.Repeat | brainstorm.py:122 | `s * n` is n times as long as `s` |
| Text.Strip | brainstorm.py:122 | `strip()` never lengthens the string, leaves no whitespace at either end, and a non-empty string that starts with a non-space keeps its first character |
| Text.FindFrom | brainstorm.py:124-125 | the found position is a case-insensitive match with no match before it; None means no match anywhere |
| Text.SubFirstIgnoreCase | brainstorm.py:124-125 | the substitution returns the text unchanged or with one case-insensitive occurrence of the pattern replaced; when the pattern occurs, the length changes by the replacement's length minus the pattern's |
| Text.SubFirstNoMatch | brainstorm.py:124-125 | without a case-insensitive occurrence the sentence is returned unchanged |
| Text.SubFirstAtLeftmost | brainstorm.py:124-125 | only the leftmost occurrence is replaced; the text before and after it is kept |
| Text.BlanksPhrase | brainstorm.py:122 | `('__________ ' * n).strip()` is empty exactly when n is 0; otherwise it is 11n - 1 characters long and starts and ends with an underscore |
| Text.BlanksPhraseGroups | brainstorm.py:122 | the placeholder phrase is n groups of ten underscores separated by single spaces, and splits into exactly n blanks |
| Taxonomy.NounSynsets | brainstorm.py:42 | the noun synsets of a word are its own entries in the database; an unknown word has none |
| Taxonomy.Siblings | brainstorm.py:42-57 | there are no siblings exactly when the word has no noun synset or its first synset has no hypernym |
| Taxonomy.DisplayName | brainstorm.py:62 | the first lemma name with every underscore turned into a space: same length, no underscore left, every other character kept |
| Taxonomy.Names | brainstorm.py:61-62 | one display name per hyponym, in enumeration order |
| Taxonomy.Others | brainstorm.py:64-65 | a name survives exactly when it is not the input word |
| Taxonomy.OthersAppend | brainstorm.py:61-65 | the filter distributes over concatenation, so hyponym order is kept |
| Taxonomy.Take | brainstorm.py:67-68 | the result is the prefix of length min(n, length) |
| Taxonomy.SimilarWords | brainstorm.py:40-70 | at most 8 distractors, never the word itself, no underscore in any name, and none without a synset or hypernym |
| Taxonomy.SimilarWordsUnguarded | question_generator.py:62-89 | it fails, with NoHypernym, exactly when the first synset exists and has no hypernym; otherwise it equals the guarded lookup |
| Taxonomy.RootWithoutHypernym | question_generator.py:70-73 | for the root noun "entity" the unguarded lookup fails while the guarded one returns [] |
| Taxonomy.SiblingsVerbatim | brainstorm.py:51-70 | with at most 8 siblings, none named like the word and none with an underscore, the result is their first lemma names verbatim, in order |
| Taxonomy.CityExample | brainstorm.py:40-70 | "city" with four sibling towns yields exactly those four names, in order |
| Evaluator.Rejected | brainstorm.py:73 | a sentence is dropped when its first tag is `RB` or it has fewer than six words; the first tag is read only when there is one |
| Evaluator.IsTarget | brainstorm.py:83 | a word is blanked only if tagged `NN` and not a substring of the title, so it is non-empty and differs from the title; an `NN` word longer than the title always qualifies |
| Evaluator.FirstTarget | brainstorm.py:81-83 | the position found is a common noun outside the title, with none before it; None means there is none at all |
| Evaluator.FirstTargetAt | brainstorm.py:81-83 | the first position that passes the noun filter is the one chosen |
| Evaluator.ScanPhrases | brainstorm.py:85-95 | the phrase scan stops at the first phrase that is empty, starts with an apostrophe, or contains the word; every phrase before it is passed over |
| Evaluator.ScanStopsAt | brainstorm.py:85-95 | a stopping phrase after passed-over ones decides the outcome: fault, abandon, or found |
| Evaluator.ReplaceNouns | brainstorm.py:80-101 | at most two non-empty words; only EmptyNounPhrase can fail; no words exactly when no tag is a target |
| Evaluator.SimilarFor | brainstorm.py:113-118 | distractors only for a single blanked word, by that copy's lookup; the brainstorm copy never fails |
| Evaluator.Evaluate | brainstorm.py:72-128 | a candidate carries the article's title and URL and a non-empty answer |
| Evaluator.EvaluateRejections | brainstorm.py:73-76 | NoFirstTag exactly when there are no tags; adverb-led, short, or target-less sentences give None; brainstorm never raises NoHypernym |
| Evaluator.BlankPhraseTail | brainstorm.py:92-95 | a containing phrase reached before any apostrophe phrase gives its last two words, or the word alone if it has none |
| Evaluator.BlankWordAlone | brainstorm.py:86-100 | with no containing phrase, or an apostrophe phrase first, the target word is blanked alone |
| Evaluator.BlankEmptyPhrase | brainstorm.py:86 | an empty phrase reached by the scan raises EmptyNounPhrase |
| Evaluator.CandidateShape | brainstorm.py:107-127 | the answer is the words joined by spaces; distractors only for one word; the question is the first-occurrence substitution with one blank group per word |
| Evaluator.EvaluatePhrase | brainstorm.py:103-128 | a kept sentence that blanks several words yields that answer and question with no distractors |
| Evaluator.AnswerWords | brainstorm.py:110 | splitting a candidate's answer gives back the blanked words, provided the target word has no whitespace |
| Evaluator.EvaluateVariants | question_generator.py:91-147 | the copies agree wherever question_generator succeeds; it fails wherever brainstorm fails; where brainstorm succeeds, its only possible fault is the missing hypernym of a single blanked word |
| Trivia.Collect | brainstorm.py:32-38 | no more candidates than sentences |
| Trivia.TriviaSentences | brainstorm.py:26-38 | NoFirstSentence exactly for an empty summary; otherwise at most one candidate per remaining sentence |
| Trivia.CollectFailurePrefix | brainstorm.py:33-34 | a fault in the first n sentences is the fault of the whole article |
| Trivia.CollectPositions | brainstorm.py:32-38 | the candidates are the non-None evaluations, at increasing sentence positions; every other sentence evaluated to None |
| Trivia.CollectFailure | brainstorm.py:33-34 | a fault comes from a sentence that failed, and every earlier sentence succeeded |
| Trivia.CollectVariants | question_generator.py:48-60 | the two copies collect the same candidates whenever question_generator succeeds, and it fails wherever brainstorm does |
| Trivia.LastQualifying | brainstorm.py:151-153 | the chosen position has more than three distractors, and no later candidate does; None means no candidate does |
| Trivia.Truncated | brainstorm.py:154 | exactly three distractors remain |
| Trivia.Select | brainstorm.py:149-157 | nothing is chosen exactly when no candidate has more than three distractors; otherwise the choice is the last such candidate with its first three distractors |
| Trivia.ChosenTrivia | brainstorm.py:136-157 | `generate_trivia` as a function: NoFirstSentence exactly for an empty summary; a one-sentence summary yields no question, since its only sentence is deleted; a chosen question has three distractors |
| Trivia.SelectLastWins | brainstorm.py:151-157 | with distractor counts 2, 5, 1, 4 the fourth candidate wins, cut to its first three |
| Trivia.Article.constructor | brainstorm.py:18-24 | the article holds the given sentences, URL and title |
| Trivia.Article.GetSimilarWords | brainstorm.py:40-70 | the guarded loop computes `SimilarWords` |
| Trivia.Article.GetSimilarWordsUnguarded | question_generator.py:62-89 | the unguarded loop computes `SimilarWordsUnguarded`, including its fault |
| Trivia.Article.CollectNames | brainstorm.py:61-68 | the append-and-break loop returns the first eight display names other than the word |
| Trivia.TakeCollected | brainstorm.py:67-68 | stopping at eight names, or at the end, leaves the first eight names other than the word |
| Trivia.Article.EvaluateSentence | brainstorm.py:72-128 | the nested tag and phrase loops with their breaks compute `Evaluate` for the article's copy |
| Trivia.Article.GenerateTriviaSentences | brainstorm.py:26-38 | the sentence list loses its first element, and the loop returns `TriviaSentences` of the old list |
| Trivia.SelectTrivia | brainstorm.py:149-157 | None exactly when no candidate has more than three distractors; otherwise the last qualifying candidate with its first three distractors |
| Trivia.GenerateTrivia | brainstorm.py:136-163 | analysis then selection; a summary without sentences is the only source of NoFirstSentence; a chosen question has exactly three distractors |
| Scenario.HoustonTarget | brainstorm.py:73-83 | the Houston sentence is kept, and "city" is its first common noun outside "Texas" |
| Scenario.HoustonPhrase | brainstorm.py:85-95 | the scan passes "houston" and stops at "largest city" |
| Scenario.HoustonWords | brainstorm.py:80-101 | the words blanked are "largest" and "city" |
| Scenario.HoustonMatch | brainstorm.py:124 | "largest city" first occurs right after "Houston is the " |
| Scenario.HoustonBlanked | brainstorm.py:121-125 | the question is "Houston is the __________ __________ in Texas." |

## Findings

| source | as written | input that shows it | evidently intended | confidence | as-written member | corrected member |
|---|---|---|---|---|---|---|
| question_generator.py:73 | `synset.hypernyms()[0]` with no emptiness test, so a word whose first noun synset has no hypernym raises IndexError | `get_similar_words("entity")`: WordNet's root noun synset has no hypernym | return no distractors, as the guard at brainstorm.py:51 does | medium, not executed | Taxonomy.SimilarWordsUnguarded (fault shown by Taxonomy.RootWithoutHypernym) | Taxonomy.SimilarWords (never fails; [] without a hypernym) |

## Left out

- The Flask application and its routes (brainstorm.py:166-217) are user interface and HTTP plumbing.
- The random placement of the answer among the distractors (brainstorm.py:199) is presentation and nondeterministic.
- The `solr_api` clients (brainstorm.py:130-134, question_generator.py:16-32) are network I/O. So is their HTML slicing, which depends on the server's response format.
- `generate_trivia` of question_generator.py (lines 149-167) only calls `generate_trivia_sentences` and writes the list to `question.json`. The call is `Trivia.Article.GenerateTriviaSentences` with the QuestionGenerator variant; the JSON file is I/O. The `__main__` blocks are I/O as well.
- test.py is a Solr search-and-print script with no core logic.
- TextBlob's sentence splitting, part-of-speech tagging and noun-phrase extraction are not modelled: their output is the `Sentence` input. `str(sentence)` is its `text` field and `len(sentence.words)` is its `wordCount` field.
- The WordNet database is not modelled. It is the `Lexicon` input, restricted by `Wellformed` so that the hyponyms of the hypernyms of each listed synset have lemmas.
- The unused `tag_map` (question_generator.py:97) is dead code; it cannot fail once `tags[0]` has succeeded.
- `Text.LowerAscii`: case-insensitive matching folds ASCII letters only; Unicode case folding is not modelled.
- `Text.IsSpace`: `str.split()` and `strip()` use the ASCII whitespace that `str.isspace` accepts, not the Unicode whitespace classes.
- `Text.SubFirstIgnoreCase`: only the literal pattern that `re.escape` produces is modelled, not general regular expressions. Backslashes in the replacement cannot arise, because it is made of underscores and spaces.
- `Trivia.SelectTrivia`: the Python truncates `similar_words` in place on the dict inside `questions`, so the list it returned earlier changes as well. The model returns a truncated copy. Nothing reads the list after the loop, so the returned question is the same.
- `Trivia.GenerateTrivia`: `False` and the question dict are written `None` and `Some`. A fault raised by the analysis is returned as `Failure` instead of propagating.
- The worked Houston sentence is proved up to its blanked words and its question (`Scenario.HoustonWords`, `Scenario.HoustonBlanked`). `Evaluator.EvaluatePhrase` connects those two facts to `Evaluate` for any sentence. Applying `Evaluate` to the literal sentence itself is not stated, because the solver unfolds the whole pipeline on literal data.
