/** Optional values, results, and the faults the pipeline can raise. */
module Outcomes {

  datatype Option<+T> = None | Some(value: T)

  datatype Result<+T, +E> = Success(value: T) | Failure(error: E)

  /** Each fault is a Python IndexError raised at one unguarded index. */
  datatype Fault =
    | NoFirstSentence    // `del sentences[0]` on an empty sentence list
    | NoFirstTag         // `sentence.tags[0]` on a sentence without tags
    | EmptyNounPhrase    // `phrase[0]` on an empty noun phrase
    | NoHypernym         // `synset.hypernyms()[0]` without the emptiness guard
}
