/** The NLTK part-of-speech tagger, which both the normaliser and the chunker call, and the
    minimal contract the proofs assume of it. */
module Nltk {

  /** `nltk.pos_tag`: a list of tokens to a list of `(token, tag)` pairs. */
  type Tagger = seq<string> -> seq<(string, string)>

  /** The tagger returns one pair per token, in the order of the tokens, each carrying its
      token unchanged. */
  ghost predicate TagsEachToken(posTag: Tagger) {
    forall tokens: seq<string> ::
      |posTag(tokens)| == |tokens| &&
      forall i :: 0 <= i < |tokens| ==> posTag(tokens)[i].0 == tokens[i]
  }

  /** No tag the tagger produces is the empty string. */
  ghost predicate TagsAreNonEmpty(posTag: Tagger) {
    forall tokens: seq<string>, i :: 0 <= i < |posTag(tokens)| ==> |posTag(tokens)[i].1| > 0
  }
}
