/**
 * Question building from one sentence (`Article.evaluate_sentence`), stated
 * as functions. A sentence is what TextBlob's tagger and noun-phrase
 * extractor produce for it; the article's title, url and WordNet are the
 * context the evaluation reads.
 */
module Evaluator {
  import opened Outcomes
  import opened Text
  import opened Taxonomy

  /** A tagged sentence: `(word, tag)` pairs, the word count, noun phrases, and `str(sentence)`. */
  datatype Sentence = Sentence(
    tags: seq<(string, string)>,
    wordCount: nat,
    nounPhrases: seq<string>,
    text: string)

  /** The trivia dictionary: title, url, answer, similar_words and question. */
  datatype Candidate = Candidate(
    title: string,
    url: string,
    answer: string,
    similarWords: seq<string>,
    question: string)

  /** brainstorm.py guards the hypernym lookup; question_generator.py does not. */
  datatype Variant = Brainstorm | QuestionGenerator

  datatype Context = Context(title: string, url: string, variant: Variant, wordnet: Lexicon)

  /** Sentences with fewer words are rejected. */
  const MinWords: nat := 6

  /** The tag of an adverb; an adverb-led sentence is rejected. */
  const Adverb: string := "RB"

  /** The tag of a common singular noun, the only kind of word that is blanked. */
  const CommonNoun: string := "NN"

  /** The sentence starts with an adverb or is too short. */
  predicate Rejected(s: Sentence)
    requires |s.tags| > 0
  {
    s.tags[0].1 == Adverb || s.wordCount < MinWords
  }

  /** A common noun that is not a substring of the title. */
  predicate IsTarget(tag: (string, string), title: string)
    ensures IsTarget(tag, title) ==> tag.1 == CommonNoun && tag.0 != [] && tag.0 != title
    ensures tag.1 == CommonNoun && |tag.0| > |title| ==> IsTarget(tag, title)
  {
    tag.1 == CommonNoun && !Contains(title, tag.0)
  }

  /** The position of the first target word, if any. */
  function FirstTarget(tags: seq<(string, string)>, title: string): (r: Option<nat>)
    ensures r.Some? ==>
              r.value < |tags| && IsTarget(tags[r.value], title) &&
              forall j :: 0 <= j < r.value ==> !IsTarget(tags[j], title)
    ensures r.None? ==> forall j :: 0 <= j < |tags| ==> !IsTarget(tags[j], title)
  {
    if tags == [] then None
    else if IsTarget(tags[0], title) then Some(0)
    else
      match FirstTarget(tags[1..], title)
      case None => None
      case Some(i) => Some(i + 1)
  }

  /** The first target is the first position that satisfies the filter. */
  lemma FirstTargetAt(tags: seq<(string, string)>, title: string, i: nat)
    requires i < |tags| && IsTarget(tags[i], title)
    requires forall j :: 0 <= j < i ==> !IsTarget(tags[j], title)
    ensures FirstTarget(tags, title) == Some(i)
  {
  }

  /** Where the scan over the noun phrases stopped, and why. */
  datatype PhraseScan =
    | Found(index: nat)        // the phrase contains the word
    | Apostrophe(index: nat)   // the phrase starts with an apostrophe: the scan is abandoned
    | EmptyPhrase(index: nat)  // `phrase[0]` fails on an empty phrase
    | Exhausted                // no phrase contains the word

  /** A phrase the scan moves past. */
  predicate PassedOver(phrase: string, word: string) {
    phrase != [] && phrase[0] != '\'' && !Contains(phrase, word)
  }

  predicate PassedOverAll(phrases: seq<string>, word: string, n: nat)
    requires n <= |phrases|
  {
    forall j :: 0 <= j < n ==> PassedOver(phrases[j], word)
  }

  function Shift(r: PhraseScan): PhraseScan {
    match r
    case Found(i) => Found(i + 1)
    case Apostrophe(i) => Apostrophe(i + 1)
    case EmptyPhrase(i) => EmptyPhrase(i + 1)
    case Exhausted => Exhausted
  }

  /** The inner loop of `evaluate_sentence` over the noun phrases. */
  function ScanPhrases(phrases: seq<string>, word: string): (r: PhraseScan)
    ensures r.Found? ==>
              r.index < |phrases| && PassedOverAll(phrases, word, r.index) &&
              phrases[r.index] != [] && phrases[r.index][0] != '\'' &&
              Contains(phrases[r.index], word)
    ensures r.Apostrophe? ==>
              r.index < |phrases| && PassedOverAll(phrases, word, r.index) &&
              phrases[r.index] != [] && phrases[r.index][0] == '\''
    ensures r.EmptyPhrase? ==>
              r.index < |phrases| && PassedOverAll(phrases, word, r.index) &&
              phrases[r.index] == []
    ensures r.Exhausted? ==> PassedOverAll(phrases, word, |phrases|)
  {
    if phrases == [] then Exhausted
    else if phrases[0] == [] then EmptyPhrase(0)
    else if phrases[0][0] == '\'' then Apostrophe(0)
    else if Contains(phrases[0], word) then Found(0)
    else
      var r := ScanPhrases(phrases[1..], word);
      assert forall j :: 1 <= j <= |phrases| - 1 ==> phrases[1..][j - 1] == phrases[j];
      Shift(r)
  }

  /** Past `n` phrases, a phrase that stops the scan determines its outcome. */
  lemma ScanStopsAt(phrases: seq<string>, word: string, n: nat)
    requires n <= |phrases| && PassedOverAll(phrases, word, n)
    requires n < |phrases| ==> !PassedOver(phrases[n], word)
    ensures n == |phrases| ==> ScanPhrases(phrases, word) == Exhausted
    ensures n < |phrases| ==>
              ScanPhrases(phrases, word) ==
                if phrases[n] == [] then EmptyPhrase(n)
                else if phrases[n][0] == '\'' then Apostrophe(n)
                else Found(n)
  {
  }

  /**
   * `replace_nouns`: the words to blank, Success([]) when no word qualifies.
   * The target's first containing phrase contributes its last two words;
   * otherwise the target word stands alone.
   */
  function ReplaceNouns(s: Sentence, title: string): (r: Result<seq<string>, Fault>)
    ensures r.Success? ==> |r.value| <= 2 && forall w | w in r.value :: w != []
    ensures r.Failure? ==> r.error == EmptyNounPhrase
    ensures r == Success([]) <==> forall j :: 0 <= j < |s.tags| ==> !IsTarget(s.tags[j], title)
  {
    match FirstTarget(s.tags, title)
    case None => Success([])
    case Some(i) =>
      var word := s.tags[i].0;
      assert word != [] by { assert [] <= title; }
      match ScanPhrases(s.nounPhrases, word)
      case EmptyPhrase(_) => Failure(EmptyNounPhrase)
      case Found(k) =>
        var tail := LastTwo(Split(s.nounPhrases[k]));
        assert forall w | w in tail :: w in Split(s.nounPhrases[k]);
        Success(if tail != [] then tail else [word])
      case _ => Success([word])
  }

  /** The distractors for the blanked words, by the variant's lookup. */
  function SimilarFor(ctx: Context, words: seq<string>): (r: Result<seq<string>, Fault>)
    requires Wellformed(ctx.wordnet)
    ensures |words| != 1 ==> r == Success([])
    ensures |words| == 1 && r.Success? ==> r.value == SimilarWords(ctx.wordnet, words[0])
    ensures ctx.variant == Brainstorm ==> r.Success?
    ensures r.Failure? ==> r.error == NoHypernym
  {
    if |words| != 1 then Success([])
    else if ctx.variant == Brainstorm then Success(SimilarWords(ctx.wordnet, words[0]))
    else SimilarWordsUnguarded(ctx.wordnet, words[0])
  }

  /** `evaluate_sentence`: None for a rejected or unusable sentence, or a candidate. */
  function Evaluate(s: Sentence, ctx: Context): (r: Result<Option<Candidate>, Fault>)
    requires Wellformed(ctx.wordnet)
    ensures r.Success? && r.value.Some? ==>
              r.value.value.title == ctx.title && r.value.value.url == ctx.url &&
              r.value.value.answer != []
  {
    if |s.tags| == 0 then Failure(NoFirstTag)
    else if Rejected(s) then Success(None)
    else
      match ReplaceNouns(s, ctx.title)
      case Failure(e) => Failure(e)
      case Success(words) =>
        if words == [] then Success(None)
        else
          match SimilarFor(ctx, words)
          case Failure(e) => Failure(e)
          case Success(similar) =>
            var answer := Join(words);
            assert words[0] in words && |answer| >= |words[0]| > 0;
            var question := SubFirstIgnoreCase(s.text, answer, BlanksPhrase(|words|));
            Success(Some(Candidate(ctx.title, ctx.url, answer, similar, question)))
  }

  /**
   * A sentence without tags raises an IndexError (and nothing else raises
   * NoFirstTag); an adverb-led or short sentence, or one without a target
   * word, gives None; brainstorm.py never fails on a missing hypernym.
   */
  lemma EvaluateRejections(s: Sentence, ctx: Context)
    requires Wellformed(ctx.wordnet)
    ensures Evaluate(s, ctx) == Failure(NoFirstTag) <==> |s.tags| == 0
    ensures |s.tags| > 0 && Rejected(s) ==> Evaluate(s, ctx) == Success(None)
    ensures |s.tags| > 0 && (forall j :: 0 <= j < |s.tags| ==> !IsTarget(s.tags[j], ctx.title)) ==>
              Evaluate(s, ctx) == Success(None)
    ensures ctx.variant == Brainstorm ==> Evaluate(s, ctx) != Failure(NoHypernym)
  {
  }

  // ---------------------------------------------------------------------
  // Which words are blanked
  // ---------------------------------------------------------------------

  /**
   * A phrase containing the target, reached before any apostrophe-led
   * phrase, gives its last two words (the target alone when the phrase has
   * no word at all).
   */
  lemma BlankPhraseTail(s: Sentence, title: string, i: nat, k: nat)
    requires FirstTarget(s.tags, title) == Some(i)
    requires k < |s.nounPhrases| && PassedOverAll(s.nounPhrases, s.tags[i].0, k)
    requires s.nounPhrases[k] != [] && s.nounPhrases[k][0] != '\''
    requires Contains(s.nounPhrases[k], s.tags[i].0)
    ensures ReplaceNouns(s, title) ==
              Success(if Split(s.nounPhrases[k]) != [] then LastTwo(Split(s.nounPhrases[k]))
                      else [s.tags[i].0])
  {
    ScanStopsAt(s.nounPhrases, s.tags[i].0, k);
  }

  /**
   * When no phrase contains the target, or an apostrophe-led phrase comes
   * first, the target word is blanked alone.
   */
  lemma BlankWordAlone(s: Sentence, title: string, i: nat, k: nat)
    requires FirstTarget(s.tags, title) == Some(i)
    requires k <= |s.nounPhrases| && PassedOverAll(s.nounPhrases, s.tags[i].0, k)
    requires k < |s.nounPhrases| ==> s.nounPhrases[k] != [] && s.nounPhrases[k][0] == '\''
    ensures ReplaceNouns(s, title) == Success([s.tags[i].0])
  {
    ScanStopsAt(s.nounPhrases, s.tags[i].0, k);
  }

  /** An empty phrase reached by the scan raises an IndexError. */
  lemma BlankEmptyPhrase(s: Sentence, title: string, i: nat, k: nat)
    requires FirstTarget(s.tags, title) == Some(i)
    requires k < |s.nounPhrases| && PassedOverAll(s.nounPhrases, s.tags[i].0, k)
    requires s.nounPhrases[k] == []
    ensures ReplaceNouns(s, title) == Failure(EmptyNounPhrase)
  {
    ScanStopsAt(s.nounPhrases, s.tags[i].0, k);
  }

  // ---------------------------------------------------------------------
  // What a candidate holds
  // ---------------------------------------------------------------------

  /**
   * A candidate's answer is the blanked words joined by single spaces; it
   * has distractors only when one word is blanked; its question is the
   * sentence with the first case-insensitive occurrence of the answer
   * replaced by one blank group per word.
   */
  lemma CandidateShape(s: Sentence, ctx: Context)
    requires Wellformed(ctx.wordnet)
    requires Evaluate(s, ctx).Success? && Evaluate(s, ctx).value.Some?
    ensures ReplaceNouns(s, ctx.title).Success?
    ensures var words, c := ReplaceNouns(s, ctx.title).value, Evaluate(s, ctx).value.value;
            1 <= |words| <= 2 &&
            c.answer == Join(words) &&
            (|words| > 1 ==> c.similarWords == []) &&
            (|words| == 1 ==> c.similarWords == SimilarWords(ctx.wordnet, words[0])) &&
            c.question == SubFirstIgnoreCase(s.text, c.answer, BlanksPhrase(|words|)) &&
            Split(BlanksPhrase(|words|)) == Blanks(|words|)
  {
    BlanksPhraseGroups(|ReplaceNouns(s, ctx.title).value|);
  }

  /** A sentence that is kept and blanks several words yields a candidate without distractors. */
  lemma EvaluatePhrase(s: Sentence, ctx: Context, words: seq<string>)
    requires Wellformed(ctx.wordnet)
    requires |s.tags| > 0 && !Rejected(s)
    requires ReplaceNouns(s, ctx.title) == Success(words) && |words| > 1
    ensures Evaluate(s, ctx) ==
              Success(Some(Candidate(ctx.title, ctx.url, Join(words), [],
                SubFirstIgnoreCase(s.text, Join(words), BlanksPhrase(|words|)))))
  {
  }

  /**
   * The blanked words read back from the answer: splitting the answer gives
   * the words that were joined, as long as the target word has no space.
   */
  lemma AnswerWords(s: Sentence, ctx: Context, i: nat)
    requires Wellformed(ctx.wordnet)
    requires FirstTarget(s.tags, ctx.title) == Some(i) && IsToken(s.tags[i].0)
    requires Evaluate(s, ctx).Success? && Evaluate(s, ctx).value.Some?
    ensures Split(Evaluate(s, ctx).value.value.answer) == ReplaceNouns(s, ctx.title).value
  {
    var words := ReplaceNouns(s, ctx.title).value;
    var word := s.tags[i].0;
    var scan := ScanPhrases(s.nounPhrases, word);
    if scan.Found? {
      var tail := LastTwo(Split(s.nounPhrases[scan.index]));
      assert forall w | w in tail :: w in Split(s.nounPhrases[scan.index]);
    }
    assert forall w | w in words :: IsToken(w);
    SplitJoin(words);
  }

  // ---------------------------------------------------------------------
  // The two copies of the evaluator
  // ---------------------------------------------------------------------

  /**
   * The copy in question_generator.py agrees with the one in brainstorm.py
   * except that it fails where a single blanked word has a first synset
   * without a hypernym.
   */
  lemma EvaluateVariants(s: Sentence, title: string, url: string, wn: Lexicon)
    requires Wellformed(wn)
    ensures var b, q := Evaluate(s, Context(title, url, Brainstorm, wn)),
                        Evaluate(s, Context(title, url, QuestionGenerator, wn));
            (q.Success? ==> b == q) &&
            (b.Failure? ==> q == b) &&
            (b.Success? && q.Failure? ==> q == Failure(NoHypernym)) &&
            (q == Failure(NoHypernym) <==>
               b.Success? && b.value.Some? &&
               |ReplaceNouns(s, title).value| == 1 &&
               var w := ReplaceNouns(s, title).value[0];
               NounSynsets(wn, w) != [] && NounSynsets(wn, w)[0].hypernyms == [])
  {
  }
}
