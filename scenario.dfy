/**
 * A worked sentence: "Houston is the largest city in Texas." in an article
 * titled "Texas". The tagger's and the noun-phrase extractor's output is
 * written out as fixture data.
 */
module Scenario {
  import opened Outcomes
  import opened Text
  import opened Evaluator

  const Title: string := "Texas"

  /** The Houston sentence around its blanked phrase. */
  const Before: string := "Houston is the "
  const Phrase: string := "largest city"
  const After: string := " in Texas."
  const HoustonText: string := Before + Phrase + After

  /** A word whose first character does not occur in `s` is not a substring of it. */
  lemma {:induction false} AbsentHead(s: string, sub: string)
    requires sub != [] && sub[0] !in s
    ensures !Contains(s, sub)
    decreases |s|
  {
    if s != [] {
      assert s[0] in s;
      assert forall c | c in s[1..] :: c in s;
      AbsentHead(s[1..], sub);
    }
  }

  /** A phrase placed between two strings matches where it was placed. */
  lemma MatchBetween(a: string, p: string, b: string)
    ensures MatchAt(a + p + b, p, |a|)
  {
    var t := a + p + b;
    forall k | 0 <= k < |p| ensures t[|a| + k] == p[k] { }
  }

  /** No match starts at a character that differs from the pattern's first one. */
  lemma NoMatchBefore(a: string, p: string, b: string, j: nat)
    requires p != [] && j < |a| && LowerAscii(a[j]) != LowerAscii(p[0])
    ensures !MatchAt(a + p + b, p, j)
  {
    assert (a + p + b)[j] == a[j];
  }

  function Houston(): Sentence {
    Sentence(
      [("Houston", "NNP"), ("is", "VBZ"), ("the", "DT"), ("largest", "JJS"), ("city", "NN"),
       ("in", "IN"), ("Texas", "NNP")],
      7,
      ["houston", Phrase, "texas"],
      HoustonText)
  }

  /** The sentence is kept, and "city" is its first common noun outside the title. */
  lemma HoustonTarget()
    ensures |Houston().tags| > 0 && !Rejected(Houston())
    ensures FirstTarget(Houston().tags, Title) == Some(4)
  {
    AbsentHead("Texas", "city");
    FirstTargetAt(Houston().tags, Title, 4);
  }

  /** The scan passes "houston" and stops at "largest city". */
  lemma HoustonPhrase()
    ensures PassedOverAll(Houston().nounPhrases, "city", 1)
    ensures Contains(Phrase, "city")
  {
    AbsentHead("houston", "city");
    assert Phrase[8..12] == "city";
    OccursContains(Phrase, "city", 8);
  }

  lemma HoustonSplit()
    ensures LastTwo(Split(Phrase)) == ["largest", "city"]
  {
    assert Join(["largest", "city"]) == Phrase;
    assert IsToken("largest") && IsToken("city");
    SplitJoin(["largest", "city"]);
  }

  /**
   * The last two words of "largest city" are blanked; with two words the
   * candidate gets no distractors (`Evaluator.EvaluatePhrase`).
   */
  lemma HoustonWords()
    ensures ReplaceNouns(Houston(), Title) == Success(["largest", "city"])
  {
    var s := Houston();
    HoustonTarget();
    HoustonPhrase();
    HoustonSplit();
    assert s.nounPhrases[1] == Phrase;
    BlankPhraseTail(s, Title, 4, 1);
  }

  /** "largest city" first occurs right after "Houston is the ". */
  lemma HoustonMatch()
    ensures MatchAt(HoustonText, Phrase, |Before|)
    ensures forall j: nat :: j < |Before| ==> !MatchAt(HoustonText, Phrase, j)
  {
    MatchBetween(Before, Phrase, After);
    assert forall c | c in Before :: LowerAscii(c) != 'l';
    forall j: nat | j < |Before| ensures !MatchAt(HoustonText, Phrase, j) {
      assert Before[j] in Before;
      NoMatchBefore(Before, Phrase, After, j);
    }
  }

  /** Replacing a phrase that first occurs after `a` keeps `a` and `b` around the replacement. */
  lemma SubBetween(a: string, p: string, b: string, repl: string)
    requires forall j: nat :: j < |a| ==> !MatchAt(a + p + b, p, j)
    ensures SubFirstIgnoreCase(a + p + b, p, repl) == a + repl + b
  {
    var t := a + p + b;
    MatchBetween(a, p, b);
    SubFirstAtLeftmost(t, p, repl, |a|);
    assert t[..|a|] == a;
    assert t[|a| + |p|..] == b;
  }

  lemma TwoBlanks()
    ensures BlanksPhrase(2) == Blank + " " + Blank
  {
    BlanksPhraseGroups(2);
    assert Blanks(2) == [Blank, Blank];
  }

  /** The question: the phrase replaced by two blank groups, the rest kept. */
  const HoustonQuestion: string := Before + (Blank + " " + Blank) + After

  lemma HoustonBlanked()
    ensures SubFirstIgnoreCase(HoustonText, Phrase, BlanksPhrase(2)) == HoustonQuestion
  {
    HoustonMatch();
    TwoBlanks();
    SubBetween(Before, Phrase, After, BlanksPhrase(2));
  }
}
