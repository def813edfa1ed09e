/**
 * Distractor selection through the WordNet noun hierarchy
 * (`Article.get_similar_words`). WordNet itself is an input: a synset is the
 * part of the database the code reads (lemma names, hypernyms, hyponyms), and
 * a lexicon gives, for each word, the list `wn.synsets(word, pos='n')`.
 */
module Taxonomy {
  import opened Outcomes
  import opened Text

  datatype Synset = Synset(lemmaNames: seq<string>, hypernyms: seq<Synset>, hyponyms: seq<Synset>)

  /** The noun synsets WordNet lists for each word it knows. */
  type Lexicon = map<string, seq<Synset>>

  /** At most this many distractors are collected. */
  const MaxSimilar: nat := 8

  /** `wn.synsets(word, pos='n')`: an unknown word has no synsets. */
  function NounSynsets(wn: Lexicon, word: string): (r: seq<Synset>)
    ensures word !in wn ==> r == []
    ensures forall s | s in r :: word in wn && s in wn[word]
  {
    if word in wn then wn[word] else []
  }

  /**
   * Every synset of the database has at least one lemma. The code reads
   * `hyponym.lemmas()[0]` without a guard and relies on this.
   */
  predicate Wellformed(wn: Lexicon) {
    forall w | w in wn ::
      forall s | s in wn[w] ::
        forall h | h in s.hypernyms ::
          forall k | k in h.hyponyms :: k.lemmaNames != []
  }

  /**
   * The hyponyms of the first hypernym of the first noun synset of `word`,
   * or None when there is no synset or that synset has no hypernym.
   */
  function Siblings(wn: Lexicon, word: string): (r: Option<seq<Synset>>)
    ensures r.None? <==> NounSynsets(wn, word) == [] || NounSynsets(wn, word)[0].hypernyms == []
  {
    var synsets := NounSynsets(wn, word);
    if synsets == [] || synsets[0].hypernyms == [] then None
    else Some(synsets[0].hypernyms[0].hyponyms)
  }

  lemma SiblingsHaveLemmas(wn: Lexicon, word: string)
    requires Wellformed(wn) && Siblings(wn, word).Some?
    ensures forall k | k in Siblings(wn, word).value :: k.lemmaNames != []
  {
    var s := NounSynsets(wn, word)[0];
    assert word in wn && s in wn[word];
    assert s.hypernyms[0] in s.hypernyms;
  }

  /** The first lemma name of a synset, with `_` replaced by a space. */
  function DisplayName(k: Synset): (r: string)
    requires k.lemmaNames != []
    ensures |r| == |k.lemmaNames[0]|
    ensures '_' !in r
    ensures forall i :: 0 <= i < |r| && k.lemmaNames[0][i] != '_' ==> r[i] == k.lemmaNames[0][i]
  {
    ReplaceUnderscores(k.lemmaNames[0])
  }

  /** The display names of `hs`, in enumeration order. */
  function Names(hs: seq<Synset>): (r: seq<string>)
    requires forall k | k in hs :: k.lemmaNames != []
    ensures |r| == |hs|
    ensures forall i :: 0 <= i < |hs| ==> r[i] == DisplayName(hs[i])
  {
    if hs == [] then [] else [DisplayName(hs[0])] + Names(hs[1..])
  }

  /** The elements of `names` other than `word`, in order. */
  function Others(names: seq<string>, word: string): (r: seq<string>)
    ensures |r| <= |names|
    ensures forall x :: x in r <==> x in names && x != word
  {
    if names == [] then []
    else (if names[0] != word then [names[0]] else []) + Others(names[1..], word)
  }

  /** Filtering distributes over concatenation, so it keeps the order of `names`. */
  lemma {:induction false} OthersAppend(a: seq<string>, b: seq<string>, word: string)
    ensures Others(a + b, word) == Others(a, word) + Others(b, word)
    decreases |a|
  {
    if a == [] {
      assert a + b == b;
    } else {
      assert (a + b)[0] == a[0];
      assert (a + b)[1..] == a[1..] + b;
      OthersAppend(a[1..], b, word);
    }
  }

  /** The first `n` elements of `names`, or all of them when there are fewer. */
  function Take(names: seq<string>, n: nat): (r: seq<string>)
    ensures |r| == if |names| < n then |names| else n
    ensures r == names[..|r|]
  {
    if |names| <= n then names else names[..n]
  }

  /**
   * `get_similar_words` of brainstorm.py: no distractors without a synset or
   * without a hypernym; otherwise the first eight display names of the
   * hypernym's hyponyms that differ from `word`.
   */
  function SimilarWords(wn: Lexicon, word: string): (r: seq<string>)
    requires Wellformed(wn)
    ensures |r| <= MaxSimilar
    ensures word !in r
    ensures forall x | x in r :: '_' !in x
    ensures Siblings(wn, word).None? ==> r == []
  {
    match Siblings(wn, word)
    case None => []
    case Some(hs) =>
      SiblingsHaveLemmas(wn, word);
      var names := Names(hs);
      var r := Take(Others(names, word), MaxSimilar);
      assert forall x | x in r :: x in Others(names, word);
      r
  }

  /**
   * `get_similar_words` of question_generator.py: the same, except that a
   * first synset without a hypernym raises an IndexError.
   */
  function SimilarWordsUnguarded(wn: Lexicon, word: string): (r: Result<seq<string>, Fault>)
    requires Wellformed(wn)
    ensures r.Failure? <==> NounSynsets(wn, word) != [] && NounSynsets(wn, word)[0].hypernyms == []
    ensures r.Failure? ==> r.error == NoHypernym
    ensures r.Success? ==> r.value == SimilarWords(wn, word)
  {
    var synsets := NounSynsets(wn, word);
    if synsets == [] then Success([])
    else if synsets[0].hypernyms == [] then Failure(NoHypernym)
    else
      SiblingsHaveLemmas(wn, word);
      Success(Take(Others(Names(synsets[0].hypernyms[0].hyponyms), word), MaxSimilar))
  }

  /**
   * WordNet's root noun "entity" has no hypernym: the unguarded lookup raises
   * where the guarded one returns no distractors.
   */
  lemma RootWithoutHypernym()
    ensures var wn := map["entity" := [Synset(["entity"], [], [])]];
            Wellformed(wn) &&
            SimilarWordsUnguarded(wn, "entity") == Failure(NoHypernym) &&
            SimilarWords(wn, "entity") == []
  {
    var wn := map["entity" := [Synset(["entity"], [], [])]];
    assert NounSynsets(wn, "entity") == [Synset(["entity"], [], [])];
  }

  /** A lemma name without underscores is displayed as it is. */
  lemma PlainDisplayName(k: Synset, s: string)
    requires k.lemmaNames != [] && k.lemmaNames[0] == s && '_' !in s
    ensures DisplayName(k) == s
  {
    assert ReplaceUnderscores(s) == s;
  }

  /** Filtering out a word that does not occur keeps every element. */
  lemma {:induction false} OthersAbsent(names: seq<string>, word: string)
    requires word !in names
    ensures Others(names, word) == names
    decreases |names|
  {
    if names != [] {
      OthersAbsent(names[1..], word);
      assert [names[0]] + names[1..] == names;
    }
  }

  /** The first lemma names of `hs`, in order. */
  function LemmaNames(hs: seq<Synset>): (r: seq<string>)
    requires forall k | k in hs :: k.lemmaNames != []
    ensures |r| == |hs| && forall i :: 0 <= i < |hs| ==> r[i] == hs[i].lemmaNames[0]
  {
    seq(|hs|, i requires 0 <= i < |hs| => hs[i].lemmaNames[0])
  }

  /**
   * When at most eight siblings exist, none is named like `word` and no name
   * has an underscore, the siblings' first lemma names are returned verbatim,
   * in enumeration order.
   */
  lemma SiblingsVerbatim(wn: Lexicon, word: string)
    requires Wellformed(wn) && Siblings(wn, word).Some?
    requires forall k | k in Siblings(wn, word).value ::
               k.lemmaNames != [] && '_' !in k.lemmaNames[0] && k.lemmaNames[0] != word
    requires |Siblings(wn, word).value| <= MaxSimilar
    ensures SimilarWords(wn, word) == LemmaNames(Siblings(wn, word).value)
  {
    var hs := Siblings(wn, word).value;
    var names := Names(hs);
    forall i | 0 <= i < |hs| ensures names[i] == hs[i].lemmaNames[0] {
      assert hs[i] in hs;
      PlainDisplayName(hs[i], hs[i].lemmaNames[0]);
    }
    assert names == LemmaNames(hs);
    forall i | 0 <= i < |names| ensures names[i] != word {
      assert hs[i] in hs;
    }
    OthersAbsent(names, word);
  }

  /** A lexicon where "city" has one sense whose hypernym has four hyponyms. */
  function CityLexicon(): Lexicon {
    var parent := Synset(["municipality"], [], CitySiblings());
    map["city" := [Synset(["city"], [parent], [])]]
  }

  function CitySiblings(): seq<Synset> {
    [Synset(["town"], [], []), Synset(["village"], [], []),
     Synset(["metropolis"], [], []), Synset(["borough"], [], [])]
  }

  lemma CityWellformed()
    ensures Wellformed(CityLexicon())
  {
    var wn := CityLexicon();
    assert wn.Keys == {"city"};
    forall s | s in wn["city"] ensures forall h | h in s.hypernyms :: forall k | k in h.hyponyms :: k.lemmaNames != [] {
      assert s == Synset(["city"], [Synset(["municipality"], [], CitySiblings())], []);
    }
  }

  lemma CityFacts()
    ensures Siblings(CityLexicon(), "city") == Some(CitySiblings())
    ensures forall k | k in CitySiblings() ::
              k.lemmaNames != [] && '_' !in k.lemmaNames[0] && k.lemmaNames[0] != "city"
  {
  }

  lemma CityLemmaNames()
    ensures forall k | k in CitySiblings() :: k.lemmaNames != []
    ensures LemmaNames(CitySiblings()) == ["town", "village", "metropolis", "borough"]
  {
    var n := LemmaNames(CitySiblings());
    assert n[0] == "town" && n[1] == "village" && n[2] == "metropolis" && n[3] == "borough";
  }

  /** The worked example: the siblings of "city" are returned verbatim, in order. */
  lemma CityExample()
    ensures Wellformed(CityLexicon())
    ensures SimilarWords(CityLexicon(), "city") == ["town", "village", "metropolis", "borough"]
  {
    CityWellformed();
    CityFacts();
    SiblingsVerbatim(CityLexicon(), "city");
    CityLemmaNames();
  }
}
