/**
 * The article analyzer and the trivia selector. `Article` holds what the
 * Python class holds (url, title, and the summary's sentence list, which
 * `generate_trivia_sentences` shortens in place) and runs the imperative
 * code of both copies of the class; `GenerateTrivia` is the selection loop of
 * brainstorm.py. Each method is proved against the functions below.
 */
module Trivia {
  import opened Outcomes
  import opened Text
  import opened Taxonomy
  import opened Evaluator

  // ---------------------------------------------------------------------
  // Collecting the candidates of an article
  // ---------------------------------------------------------------------

  /** The candidates of `ss` in sentence order; the first fault raised wins. */
  function Collect(ss: seq<Sentence>, ctx: Context): (r: Result<seq<Candidate>, Fault>)
    requires Wellformed(ctx.wordnet)
    ensures r.Success? ==> |r.value| <= |ss|
    decreases |ss|
  {
    if ss == [] then Success([])
    else
      match Collect(ss[..|ss| - 1], ctx)
      case Failure(e) => Failure(e)
      case Success(acc) =>
        match Evaluate(ss[|ss| - 1], ctx)
        case Failure(e) => Failure(e)
        case Success(None) => Success(acc)
        case Success(Some(c)) => Success(acc + [c])
  }

  /** `generate_trivia_sentences`: drop the first sentence, collect the rest. */
  function TriviaSentences(ss: seq<Sentence>, ctx: Context): (r: Result<seq<Candidate>, Fault>)
    requires Wellformed(ctx.wordnet)
    ensures ss == [] <==> r == Failure(NoFirstSentence)
    ensures r.Success? ==> |r.value| <= |ss| - 1
  {
    if ss == [] then Failure(NoFirstSentence)
    else
      var r := Collect(ss[1..], ctx);
      assert r.Failure? ==> r.error != NoFirstSentence by {
        if r.Failure? { var i := CollectFailure(ss[1..], ctx); }
      }
      r
  }

  /** Collecting one more sentence: its fault, nothing, or one more candidate. */
  lemma CollectSnoc(ss: seq<Sentence>, ctx: Context, i: nat, acc: seq<Candidate>)
    requires Wellformed(ctx.wordnet)
    requires i < |ss| && Collect(ss[..i], ctx) == Success(acc)
    ensures Evaluate(ss[i], ctx).Failure? ==>
              Collect(ss[..i + 1], ctx) == Failure(Evaluate(ss[i], ctx).error)
    ensures Evaluate(ss[i], ctx) == Success(None) ==> Collect(ss[..i + 1], ctx) == Success(acc)
    ensures Evaluate(ss[i], ctx).Success? && Evaluate(ss[i], ctx).value.Some? ==>
              Collect(ss[..i + 1], ctx) == Success(acc + [Evaluate(ss[i], ctx).value.value])
  {
    assert ss[..i + 1][..i] == ss[..i];
  }

  /** A fault in a prefix is the fault of the whole sequence. */
  lemma {:induction false} CollectFailurePrefix(ss: seq<Sentence>, ctx: Context, n: nat)
    requires Wellformed(ctx.wordnet)
    requires n <= |ss| && Collect(ss[..n], ctx).Failure?
    ensures Collect(ss, ctx) == Collect(ss[..n], ctx)
    decreases |ss| - n
  {
    if n < |ss| {
      var m := |ss| - 1;
      assert ss[..m][..n] == ss[..n];
      CollectFailurePrefix(ss[..m], ctx, n);
    } else {
      assert ss[..n] == ss;
    }
  }

  /** The outcome of evaluating one sentence. */
  type Outcome = Result<Option<Candidate>, Fault>

  /**
   * A proof device: the collection rule of `Collect` over evaluations
   * computed in advance, equal to `Collect` by `CollectIsGather`. Reasoning
   * about it does not unfold `Evaluate`.
   */
  function Gather(es: seq<Outcome>): (r: Result<seq<Candidate>, Fault>)
    ensures r.Success? ==> |r.value| <= |es|
  {
    if es == [] then Success([])
    else
      match Gather(es[..|es| - 1])
      case Failure(e) => Failure(e)
      case Success(acc) =>
        match es[|es| - 1]
        case Failure(e) => Failure(e)
        case Success(None) => Success(acc)
        case Success(Some(c)) => Success(acc + [c])
  }

  /** Collecting is gathering the sentences' evaluations. */
  lemma {:induction false} CollectIsGather(ss: seq<Sentence>, ctx: Context, es: seq<Outcome>)
    requires Wellformed(ctx.wordnet)
    requires |es| == |ss| && forall j :: 0 <= j < |ss| ==> es[j] == Evaluate(ss[j], ctx)
    ensures Collect(ss, ctx) == Gather(es)
    decreases |ss|
  {
    if ss != [] {
      var m := |ss| - 1;
      assert forall j :: 0 <= j < m ==> es[..m][j] == Evaluate(ss[..m][j], ctx);
      CollectIsGather(ss[..m], ctx, es[..m]);
    }
  }

  /** The positions of the candidates among `es`, increasing; the rest are None. */
  lemma {:induction false} GatherPositions(es: seq<Outcome>) returns (idx: seq<nat>)
    requires Gather(es).Success?
    ensures var out := Gather(es).value;
            |idx| == |out| &&
            (forall k :: 0 <= k < |idx| ==> idx[k] < |es| && es[idx[k]] == Success(Some(out[k]))) &&
            (forall k, l :: 0 <= k < l < |idx| ==> idx[k] < idx[l]) &&
            (forall j :: 0 <= j < |es| && j !in idx ==> es[j] == Success(None))
    decreases |es|
  {
    if es == [] {
      idx := [];
    } else {
      var m := |es| - 1;
      var front := es[..m];
      var pre := GatherPositions(front);
      assert forall j :: 0 <= j < m ==> front[j] == es[j];
      match es[m]
      case Success(None) =>
        idx := pre;
      case Success(Some(c)) =>
        idx := pre + [m];
    }
  }

  /**
   * A collected sequence is exactly the evaluations that gave a candidate,
   * in sentence order: `idx` lists their positions, increasing; every other
   * sentence evaluated to None.
   */
  lemma CollectPositions(ss: seq<Sentence>, ctx: Context) returns (idx: seq<nat>)
    requires Wellformed(ctx.wordnet)
    requires Collect(ss, ctx).Success?
    ensures var out := Collect(ss, ctx).value;
            |idx| == |out| &&
            (forall k :: 0 <= k < |idx| ==>
               idx[k] < |ss| && Evaluate(ss[idx[k]], ctx) == Success(Some(out[k]))) &&
            (forall k, l :: 0 <= k < l < |idx| ==> idx[k] < idx[l]) &&
            (forall j :: 0 <= j < |ss| && j !in idx ==> Evaluate(ss[j], ctx) == Success(None))
  {
    var es := seq(|ss|, j requires 0 <= j < |ss| => Evaluate(ss[j], ctx));
    CollectIsGather(ss, ctx, es);
    idx := GatherPositions(es);
  }

  /** A fault comes from the first sentence whose evaluation fails. */
  lemma {:induction false} CollectFailure(ss: seq<Sentence>, ctx: Context) returns (i: nat)
    requires Wellformed(ctx.wordnet)
    requires Collect(ss, ctx).Failure?
    ensures i < |ss| && Evaluate(ss[i], ctx) == Failure(Collect(ss, ctx).error)
    ensures forall j :: 0 <= j < i ==> Evaluate(ss[j], ctx).Success?
    decreases |ss|
  {
    var m := |ss| - 1;
    var front := ss[..m];
    assert forall j :: 0 <= j < m ==> front[j] == ss[j];
    if Collect(front, ctx).Failure? {
      i := CollectFailure(front, ctx);
    } else {
      i := m;
      var pos := CollectPositions(front, ctx);
      forall j | 0 <= j < m ensures Evaluate(ss[j], ctx).Success? {
        if j !in pos {
        } else {
          var k :| 0 <= k < |pos| && pos[k] == j;
        }
      }
    }
  }

  /**
   * The two copies of the class agree on every article the copy in
   * question_generator.py can process, and it fails wherever the copy in
   * brainstorm.py does.
   */
  lemma {:induction false} CollectVariants(ss: seq<Sentence>, title: string, url: string, wn: Lexicon)
    requires Wellformed(wn)
    ensures var b, q := Collect(ss, Context(title, url, Brainstorm, wn)),
                        Collect(ss, Context(title, url, QuestionGenerator, wn));
            (q.Success? ==> b == q) && (b.Failure? ==> q.Failure?)
    decreases |ss|
  {
    if ss != [] {
      CollectVariants(ss[..|ss| - 1], title, url, wn);
      EvaluateVariants(ss[|ss| - 1], title, url, wn);
    }
  }

  // ---------------------------------------------------------------------
  // Selecting the trivia question
  // ---------------------------------------------------------------------

  /** A candidate with enough distractors to be used. */
  predicate Qualifies(c: Candidate) {
    |c.similarWords| > Distractors
  }

  /** The number of distractors a trivia question is shown with. */
  const Distractors: nat := 3

  /** The position of the last candidate that qualifies. */
  function LastQualifying(qs: seq<Candidate>): (r: Option<nat>)
    ensures r.Some? ==>
              r.value < |qs| && Qualifies(qs[r.value]) &&
              forall j :: r.value < j < |qs| ==> !Qualifies(qs[j])
    ensures r.None? ==> forall j :: 0 <= j < |qs| ==> !Qualifies(qs[j])
    decreases |qs|
  {
    if qs == [] then None
    else if Qualifies(qs[|qs| - 1]) then Some(|qs| - 1)
    else
      var r := LastQualifying(qs[..|qs| - 1]);
      assert forall j :: 0 <= j < |qs| - 1 ==> qs[..|qs| - 1][j] == qs[j];
      r
  }

  /** The candidate with its distractors cut to the first three. */
  function Truncated(c: Candidate): (t: Candidate)
    requires |c.similarWords| >= Distractors
    ensures |t.similarWords| == Distractors
  {
    c.(similarWords := c.similarWords[..Distractors])
  }

  /** The selection of `generate_trivia`: the last qualifying candidate, truncated. */
  function Select(qs: seq<Candidate>): (r: Option<Candidate>)
    ensures r.None? <==> forall j :: 0 <= j < |qs| ==> !Qualifies(qs[j])
    ensures r.Some? ==>
              exists i :: 0 <= i < |qs| && Qualifies(qs[i]) &&
                (forall j :: i < j < |qs| ==> !Qualifies(qs[j])) &&
                r.value == qs[i].(similarWords := qs[i].similarWords[..Distractors])
    ensures r.Some? ==> |r.value.similarWords| == Distractors
  {
    match LastQualifying(qs)
    case None => None
    case Some(i) => Some(Truncated(qs[i]))
  }

  /** `generate_trivia` of brainstorm.py on an article's sentences. */
  function ChosenTrivia(summary: seq<Sentence>, url: string, title: string, wn: Lexicon)
    : (r: Result<Option<Candidate>, Fault>)
    requires Wellformed(wn)
    ensures summary == [] <==> r == Failure(NoFirstSentence)
    ensures |summary| == 1 ==> r == Success(None)
    ensures r.Success? && r.value.Some? ==> |r.value.value.similarWords| == Distractors
  {
    match TriviaSentences(summary, Context(title, url, Brainstorm, wn))
    case Failure(e) => Failure(e)
    case Success(qs) => Success(Select(qs))
  }

  /** Given distractor counts 2, 5, 1, 4 the last qualifying candidate, the fourth, wins. */
  lemma SelectLastWins(a: Candidate, b: Candidate, c: Candidate, d: Candidate)
    requires |a.similarWords| == 2 && |b.similarWords| == 5
    requires |c.similarWords| == 1 && |d.similarWords| == 4
    ensures Select([a, b, c, d]) == Some(d.(similarWords := d.similarWords[..3]))
  {
  }

  // ---------------------------------------------------------------------
  // The imperative code
  // ---------------------------------------------------------------------

  class Article {
    const url: string
    const title: string
    const variant: Variant
    /** The summary's sentence list, which TextBlob caches and the analyzer shortens. */
    var sentences: seq<Sentence>

    constructor (summary: seq<Sentence>, url: string, title: string, variant: Variant)
      ensures this.sentences == summary && this.url == url
      ensures this.title == title && this.variant == variant
    {
      this.url := url;
      this.title := title;
      this.variant := variant;
      this.sentences := summary;
    }

    function Ctx(wn: Lexicon): Context {
      Context(title, url, variant, wn)
    }

    /** `get_similar_words` of brainstorm.py, with the hypernym guard. */
    method GetSimilarWords(word: string, wn: Lexicon) returns (similarWords: seq<string>)
      requires Wellformed(wn)
      ensures similarWords == SimilarWords(wn, word)
    {
      var synsets := NounSynsets(wn, word);
      if |synsets| == 0 {
        return [];
      }
      var synset := synsets[0];
      similarWords := [];
      if |synset.hypernyms| > 0 {
        var hypernym := synset.hypernyms[0];
        SiblingsHaveLemmas(wn, word);
        similarWords := CollectNames(hypernym.hyponyms, word);
      }
    }

    /** `get_similar_words` of question_generator.py, which indexes `hypernyms()[0]` unguarded. */
    method GetSimilarWordsUnguarded(word: string, wn: Lexicon) returns (r: Result<seq<string>, Fault>)
      requires Wellformed(wn)
      ensures r == SimilarWordsUnguarded(wn, word)
    {
      var synsets := NounSynsets(wn, word);
      if |synsets| == 0 {
        return Success([]);
      }
      var synset := synsets[0];
      if |synset.hypernyms| == 0 {
        return Failure(NoHypernym);
      }
      var hypernym := synset.hypernyms[0];
      SiblingsHaveLemmas(wn, word);
      var similarWords := CollectNames(hypernym.hyponyms, word);
      return Success(similarWords);
    }

    /**
     * The loop both copies of `get_similar_words` run over the hyponyms:
     * append each display name other than `word`, stop at eight.
     */
    method CollectNames(hyponyms: seq<Synset>, word: string) returns (similarWords: seq<string>)
      requires forall k | k in hyponyms :: k.lemmaNames != []
      ensures similarWords == Take(Others(Names(hyponyms), word), MaxSimilar)
    {
      similarWords := [];
      var i := 0;
      while i < |hyponyms|
        invariant 0 <= i <= |hyponyms|
        invariant similarWords == Others(Names(hyponyms[..i]), word)
        invariant |similarWords| < MaxSimilar
      {
        var similarWord := ReplaceUnderscores(hyponyms[i].lemmaNames[0]);
        NamesSnoc(hyponyms, i);
        OthersAppend(Names(hyponyms[..i]), [similarWord], word);
        assert Others([similarWord], word) == if similarWord != word then [similarWord] else [];
        if similarWord != word {
          similarWords := similarWords + [similarWord];
        }
        i := i + 1;
        if |similarWords| == MaxSimilar {
          break;
        }
      }
      TakeCollected(hyponyms, word, i);
    }

    /** `evaluate_sentence`, with its nested loops over tags and noun phrases. */
    method EvaluateSentence(sentence: Sentence, wn: Lexicon) returns (r: Result<Option<Candidate>, Fault>)
      requires Wellformed(wn)
      ensures r == Evaluate(sentence, Ctx(wn))
    {
      if |sentence.tags| == 0 {
        return Failure(NoFirstTag);
      }
      if sentence.tags[0].1 == Adverb || sentence.wordCount < MinWords {
        return Success(None);
      }
      var replaceNouns: seq<string> := [];
      var i := 0;
      while i < |sentence.tags|
        invariant 0 <= i <= |sentence.tags|
        invariant forall j :: 0 <= j < i ==> !IsTarget(sentence.tags[j], title)
        invariant replaceNouns == []
      {
        var (word, tag) := sentence.tags[i];
        if tag == CommonNoun && !Contains(title, word) {
          FirstTargetAt(sentence.tags, title, i);
          var phrases := sentence.nounPhrases;
          var k := 0;
          while k < |phrases|
            invariant 0 <= k <= |phrases|
            invariant PassedOverAll(phrases, word, k)
            invariant replaceNouns == []
          {
            var phrase := phrases[k];
            if |phrase| == 0 {
              ScanStopsAt(phrases, word, k);
              return Failure(EmptyNounPhrase);
            }
            if phrase[0] == '\'' {
              ScanStopsAt(phrases, word, k);
              break;
            }
            if Contains(phrase, word) {
              ScanStopsAt(phrases, word, k);
              replaceNouns := LastTwo(Split(phrase));
              break;
            }
            k := k + 1;
          }
          if k == |phrases| {
            ScanStopsAt(phrases, word, k);
          }
          if |replaceNouns| == 0 {
            replaceNouns := [word];
          }
          assert ReplaceNouns(sentence, title) == Success(replaceNouns);
          break;
        }
        i := i + 1;
      }
      assert ReplaceNouns(sentence, title) == Success(replaceNouns);
      if |replaceNouns| == 0 {
        return Success(None);
      }
      var answer := Join(replaceNouns);
      var similarWords: seq<string>;
      if |replaceNouns| == 1 {
        if variant == Brainstorm {
          similarWords := GetSimilarWords(replaceNouns[0], wn);
        } else {
          var found := GetSimilarWordsUnguarded(replaceNouns[0], wn);
          if found.Failure? {
            return Failure(found.error);
          }
          similarWords := found.value;
        }
      } else {
        similarWords := [];
      }
      var replacePhrase := Join(replaceNouns);
      var blanksPhrase := BlanksPhrase(|replaceNouns|);
      var question := SubFirstIgnoreCase(sentence.text, replacePhrase, blanksPhrase);
      return Success(Some(Candidate(title, url, answer, similarWords, question)));
    }

    /** `generate_trivia_sentences`: `del sentences[0]`, then evaluate the rest in order. */
    method GenerateTriviaSentences(wn: Lexicon) returns (r: Result<seq<Candidate>, Fault>)
      requires Wellformed(wn)
      modifies this
      ensures sentences == if old(sentences) == [] then [] else old(sentences)[1..]
      ensures r == TriviaSentences(old(sentences), Ctx(wn))
    {
      if |sentences| == 0 {
        return Failure(NoFirstSentence);
      }
      sentences := sentences[1..];
      var triviaSentences: seq<Candidate> := [];
      var i := 0;
      while i < |sentences|
        invariant 0 <= i <= |sentences|
        invariant sentences == old(sentences)[1..]
        invariant Collect(sentences[..i], Ctx(wn)) == Success(triviaSentences)
      {
        var trivia := EvaluateSentence(sentences[i], wn);
        CollectSnoc(sentences, Ctx(wn), i, triviaSentences);
        if trivia.Failure? {
          CollectFailurePrefix(sentences, Ctx(wn), i + 1);
          return Failure(trivia.error);
        }
        if trivia.value.Some? {
          triviaSentences := triviaSentences + [trivia.value.value];
        }
        i := i + 1;
      }
      assert sentences[..i] == sentences;
      return Success(triviaSentences);
    }
  }

  /** The display names of `hs[..i + 1]` extend those of `hs[..i]` by one. */
  lemma NamesSnoc(hs: seq<Synset>, i: nat)
    requires i < |hs| && forall k | k in hs :: k.lemmaNames != []
    ensures Names(hs[..i + 1]) == Names(hs[..i]) + [ReplaceUnderscores(hs[i].lemmaNames[0])]
  {
    assert hs[i] in hs;
    var a, b := Names(hs[..i + 1]), Names(hs[..i]) + [ReplaceUnderscores(hs[i].lemmaNames[0])];
    assert |a| == |b|;
    forall j | 0 <= j < |a| ensures a[j] == b[j] {
      assert hs[..i + 1][j] == hs[j];
      if j < i {
        assert hs[..i][j] == hs[j];
      }
    }
  }

  /** Display names distribute over concatenation. */
  lemma {:induction false} NamesAppend(a: seq<Synset>, b: seq<Synset>)
    requires forall k | k in a + b :: k.lemmaNames != []
    ensures Names(a + b) == Names(a) + Names(b)
    decreases |a|
  {
    if a == [] {
      assert a + b == b;
    } else {
      assert (a + b)[1..] == a[1..] + b;
      NamesAppend(a[1..], b);
    }
  }

  /**
   * The loop stops at position `i` either at the end of the hyponyms or with
   * eight names collected; either way, what it collected is the first eight
   * names, other than `word`, of all the hyponyms.
   */
  lemma TakeCollected(hs: seq<Synset>, word: string, i: nat)
    requires i <= |hs| && forall k | k in hs :: k.lemmaNames != []
    requires |Others(Names(hs[..i]), word)| == MaxSimilar ||
             (i == |hs| && |Others(Names(hs[..i]), word)| < MaxSimilar)
    ensures Take(Others(Names(hs), word), MaxSimilar) == Others(Names(hs[..i]), word)
  {
    assert hs[..i] + hs[i..] == hs;
    NamesAppend(hs[..i], hs[i..]);
    var a, b := Names(hs[..i]), Names(hs[i..]);
    OthersAppend(a, b, word);
    var x, y := Others(a, word), Others(b, word);
    assert Others(Names(hs), word) == x + y;
    if i == |hs| {
      assert hs[i..] == [];
      assert y == [];
      assert x + y == x;
    } else {
      assert (x + y)[..|x|] == x;
    }
  }

  /**
   * `generate_trivia` of brainstorm.py: analyze the article, then keep the
   * last candidate with more than three distractors, cut to three; None is
   * the source's `False`.
   */
  method GenerateTrivia(summary: seq<Sentence>, url: string, title: string, wn: Lexicon)
    returns (r: Result<Option<Candidate>, Fault>)
    requires Wellformed(wn)
    ensures r == ChosenTrivia(summary, url, title, wn)
    ensures summary == [] <==> r == Failure(NoFirstSentence)
    ensures r.Success? && r.value.Some? ==> |r.value.value.similarWords| == Distractors
  {
    var article := new Article(summary, url, title, Brainstorm);
    var questions := article.GenerateTriviaSentences(wn);
    if questions.Failure? {
      return Failure(questions.error);
    }
    var trivia := SelectTrivia(questions.value);
    return Success(trivia);
  }

  /** The selection loop of `generate_trivia`. */
  method SelectTrivia(questions: seq<Candidate>) returns (triviaQuestion: Option<Candidate>)
    ensures triviaQuestion == Select(questions)
    ensures triviaQuestion.None? <==> forall j :: 0 <= j < |questions| ==> !Qualifies(questions[j])
    ensures triviaQuestion.Some? ==>
              exists i :: 0 <= i < |questions| && Qualifies(questions[i]) &&
                (forall j :: i < j < |questions| ==> !Qualifies(questions[j])) &&
                triviaQuestion.value == questions[i].(similarWords := questions[i].similarWords[..Distractors])
    ensures triviaQuestion.Some? ==> |triviaQuestion.value.similarWords| == Distractors
  {
    triviaQuestion := None;
    for i := 0 to |questions|
      invariant triviaQuestion == Select(questions[..i])
    {
      assert questions[..i + 1][..i] == questions[..i];
      var question := questions[i];
      if |question.similarWords| > Distractors {
        triviaQuestion := Some(Truncated(question));
      }
    }
    assert questions[..|questions|] == questions;
  }
}
