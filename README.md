# Text preprocessing: a Dafny model

This project models the two pure components of a small Python text-preprocessing library and
proves properties about them.

- **The normaliser** (`string_preprocessing.py`) turns raw text into a canonical lemmatised form.
  It runs six stages in a fixed order: lower-casing, accent folding, compound-word splitting,
  number-to-words conversion, punctuation removal, and lemmatisation guided by part-of-speech
  tags.
- **The chunker** (`tokeniser.py`) tokenises and tags a sentence. NLTK's regular-expression
  chunk parser then groups runs of tags into noun-phrase subtrees. The chunker flattens the
  resulting tree into one string per top-level node.

All linguistic work is done by external libraries:

- `str.lower`
- `str.isnumeric`
- `unidecode`
- `wordninja.split`
- `num2words`
- `nltk.pos_tag`
- `WordNetLemmatizer.lemmatize`
- `nltk.word_tokenize`
- `RegexpParser.parse`

The model receives these libraries as function-valued fields of a record: `Library` for the
normaliser, `ChunkerLibrary` for the chunker. Any fact the proofs need about one of them is a
named `ghost predicate`. For example, `Nltk.TagsEachToken` says the tagger returns one
`(token, tag)` pair per token, in order. A lemma that relies on such a fact says so in its
`requires`.

Layout:

- `wrappers.dfy`: `Option` and `Result`.
- `text.dfy`: Python's `str.split()` and `' '.join(...)`, with their round trip.
- `filters.dfy`: `''.join(filter(keep, s))` and its laws. These cover order, membership,
  multiplicity, concatenation and idempotence.
- `nltk.dfy`: the tagger type and its contract.
- `string_preprocessing.dfy`: the normaliser.
- `tokeniser.dfy`: the chunker.

Three behaviours of the code are easy to misread, and the model follows the code in each:

- **Empty tag.** The docstring of `get_wordnet_pos` promises a NOUN default
  (string_preprocessing.py:72). The default only covers an unknown first character. The code
  indexes `tag[0]`, so an empty tag raises `IndexError` (string_preprocessing.py:79).
  `GetWordnetPos` therefore requires a non-empty tag. `PartOfSpeechTags` returns
  `Err(IndexError)` if the tagger ever produces an empty tag.
- **Pipeline failure.** The pipeline is not total. `lemmatise_according_to_pos` calls
  `map(lemmatize, *zip(*pairs))`. When there are no tokens, `zip` yields nothing, so `map`
  receives no iterables and raises `TypeError` (string_preprocessing.py:67). The empty input is
  one such case. `PreprocessingPipeline` returns a `Result`, and
  `PipelineFailsExactlyWithoutTokens` says exactly when it fails.
- **Docstrings.** The docstring of `remove_punctuation` says spaces are inserted. The code
  inserts none (`RemovePunctuationInsertsNothing`). The annotated return type of
  `part_of_speech_tags` is a tuple of lists. The code returns a `zip` object, modelled by
  `Columns`, which is either no columns at all or a token column and a category column.

## Model

| member | source | states |
|---|---|---|
| `Text.Split` | string_preprocessing.py:59 | `str.split()`: every token is non-empty and whitespace-free; every character of a token comes from the input; there are no tokens if and only if the input is empty or all whitespace |
| `Text.SplitKeepsNonSpace` | string_preprocessing.py:59 | the tokens, concatenated, are exactly the non-whitespace characters of the input in their original order: splitting drops the whitespace and nothing else |
| `Text.Join` | string_preprocessing.py:120 | `' '.join(ts)`; it has no contract of its own, and `SplitJoin` and `SplitJoinRoundTrip` state what splitting its result gives |
| `Text.SplitJoin` | string_preprocessing.py:120 | splitting a single-space join gives, in order, the tokens of each joined string |
| `Text.SplitJoinRoundTrip` | string_preprocessing.py:120 | `' '.join(ts).split() == ts` whenever every `ts[i]` is non-empty and whitespace-free |
| `Text.SplitJoinSplit` | string_preprocessing.py:116-120 | re-joining a string's tokens with single spaces and splitting again gives the same tokens |
| `Text.SplitAppend` | string_preprocessing.py:120 | splitting is a homomorphism over a concatenation whose second part starts at whitespace |
| `Filters.Filter` | string_preprocessing.py:85 | `''.join(filter(keep, s))`: the output is no longer than the input; the lemmas below pin it down completely (membership, order, multiplicity) |
| `Filters.FilterMembership` | string_preprocessing.py:85 | a filter's output contains exactly the input characters the predicate keeps |
| `Filters.FilterIsSubsequence` | string_preprocessing.py:85 | a filter's output is a subsequence of its input: characters keep their order and nothing is inserted |
| `Filters.FilterAppend` | string_preprocessing.py:85 | filtering a concatenation is the concatenation of the filtered parts |
| `Filters.FilterCount` | string_preprocessing.py:85 | each kept character occurs as often in the output as in the input; each dropped character does not occur |
| `Filters.FilterUnchanged` | string_preprocessing.py:85 | the output equals the input if and only if every character is kept |
| `Filters.FilterIdempotent` | string_preprocessing.py:85 | filtering twice is filtering once |
| `StringPreprocessing.GetWordnetPos` | string_preprocessing.py:69-79 | only the first character decides: 'J' gives ADJ, 'V' gives VERB, 'R' gives ADV, and any other first character (including 'N') gives NOUN, each as an if-and-only-if; an empty tag is excluded because `tag[0]` raises |
| `StringPreprocessing.GetWordnetPosExamples` | string_preprocessing.py:74-79 | "VBG" gives VERB, "xyz" NOUN, "JJR" ADJ, "RB" ADV, "NNS" NOUN |
| `StringPreprocessing.PunctuationIsAsciiSymbols` | string_preprocessing.py:14 | `string.punctuation` has 32 characters, exactly those in the ranges `!`..`/`, `:`..`@`, `[`..`` ` ``, `{`..`~` |
| `StringPreprocessing.RemovePunctuation` | string_preprocessing.py:81-85 | no output character is punctuation; a character occurs in the output if and only if it occurs in the input and is not punctuation; the output is no longer than the input |
| `StringPreprocessing.RemovePunctuationKeepsOrder` | string_preprocessing.py:85 | the output is a subsequence of the input; every non-punctuation occurrence survives; the result for `s + t` is the result for `s` followed by the result for `t` |
| `StringPreprocessing.RemovePunctuationIdempotent` | string_preprocessing.py:85 | removing punctuation twice is removing it once |
| `StringPreprocessing.RemovePunctuationUnchanged` | string_preprocessing.py:85 | a string is left unchanged if and only if it contains no punctuation |
| `StringPreprocessing.RemovePunctuationExamples` | string_preprocessing.py:85 | "a.b" becomes "ab" |
| `StringPreprocessing.RemovePunctuationInsertsNothing` | string_preprocessing.py:81-85 | "a - b" becomes "a  b": no space is inserted for the removed character, and the existing spaces are not collapsed |
| `StringPreprocessing.KeepOnlyNumbers` | string_preprocessing.py:99-103 | every output character is numeric, '.' or ','; a character occurs in the output if and only if it occurs in the input and is one of these; the output is no longer than the input |
| `StringPreprocessing.KeepOnlyNumbersKeepsOrder` | string_preprocessing.py:103 | the output is an order-preserving subsequence of the input; every numeric, '.' or ',' occurrence survives, and every other character occurs zero times; applying the function again changes nothing |
| `StringPreprocessing.KeepOnlyNumbersEmpty` | string_preprocessing.py:103 | the output is empty if and only if no input character is numeric, '.' or ',' |
| `StringPreprocessing.KeepOnlyNumbersExample` | string_preprocessing.py:99-103 | "$2.00p" gives "2.00" |
| `StringPreprocessing.ConvertNumbersToWords` | string_preprocessing.py:105-114 | the result is the converter's output for the token's numeric characters when the converter succeeds, and the token unchanged when it fails; no failure escapes |
| `StringPreprocessing.NonNumericTokenUnchanged` | string_preprocessing.py:111-114 | a token without any numeric character, '.' or ',' comes back unchanged, given that `num2words` rejects the empty string |
| `StringPreprocessing.ConvertNumbersToWordsExample` | string_preprocessing.py:111-114 | "$2.00p" is converted as "2.00", or comes back as "$2.00p" if the converter rejects "2.00" |
| `StringPreprocessing.ConvertTokens` | string_preprocessing.py:120 | one converted token per input token, position by position |
| `StringPreprocessing.ConvertAnyNumbersToWords` | string_preprocessing.py:116-120 | the output's tokens are, in order, the tokens of each converted input token |
| `StringPreprocessing.ConvertAnyNumbersToWordsNoConversion` | string_preprocessing.py:116-120 | when no token converts, the output is the input's tokens re-joined by single spaces, and `Split(output) == Split(input)` |
| `StringPreprocessing.PartOfSpeechTags` | string_preprocessing.py:47-60 | fails with `IndexError` if and only if some tag is empty; otherwise gives no columns for no pairs, and for pairs gives equal-length token and category columns whose entry `i` is token `i` and the coarsening of tag `i` |
| `StringPreprocessing.PartOfSpeechTagsAligned` | string_preprocessing.py:54-60 | with a tagger that tags every token and never yields an empty tag: no columns if and only if the input has no tokens; otherwise the token column is exactly `Split(s)` and category `i` is the coarsening of tag `i` |
| `StringPreprocessing.LemmatiseColumns` | string_preprocessing.py:67 | `map` over two columns: length is the shorter column's length, and element `i` is `lemmatize(token_i, category_i)` |
| `StringPreprocessing.LemmatiseAccordingToPos` | string_preprocessing.py:62-67 | fails with `IndexError` if and only if the tagger yields an empty tag, and with `TypeError` if and only if it yields no pairs (so `map` receives no iterables) |
| `StringPreprocessing.LemmatiseAccordingToPosAligned` | string_preprocessing.py:62-67 | with a tagger that tags every token and never yields an empty tag: fails, and only with `TypeError`, if and only if the input is empty or whitespace only; otherwise returns the single-space join of one lemma per token, in token order, lemma `i` using category `i` |
| `StringPreprocessing.LemmatiseAccordingToPosTokenCount` | string_preprocessing.py:67 | with a tagger that tags every token and never yields an empty tag, and lemmas that are tokens: the output splits into exactly the lemmas, so there are as many output tokens as input tokens, in the same order |
| `StringPreprocessing.ConvertAccentedCharacters` | string_preprocessing.py:87-91 | `unidecode` applied to the whole string; a library call with no contract of its own (see "Left out") |
| `StringPreprocessing.SeparateCompoundWords` | string_preprocessing.py:93-97 | the output's tokens are, in order, the tokens of each piece the compound splitter returns |
| `StringPreprocessing.PreprocessingPipeline` | string_preprocessing.py:25-44 | the let-chain of the six stages; it has no contract of its own, and `PipelineRunsStagesInOrder`, `PipelineLemmatisesPunctuationFreeText` and `PipelineFailsExactlyWithoutTokens` state its behaviour |
| `StringPreprocessing.ApplyStage` | string_preprocessing.py:38-43 | every stage except lemmatisation always succeeds |
| `StringPreprocessing.RunStages` | string_preprocessing.py:38-44 | a run of stages can fail only if the lemmatisation stage is among them |
| `StringPreprocessing.RunStagesAppend` | string_preprocessing.py:38-44 | running `a + b` is running `a`, then `b` on its output, stopping at the first failure |
| `StringPreprocessing.PipelineRunsStagesInOrder` | string_preprocessing.py:25-44 | the pipeline equals the documented stages run in order: lower-case, accent folding, compound splitting, numbers to words, punctuation removal, lemmatisation |
| `StringPreprocessing.PipelineLemmatisesPunctuationFreeText` | string_preprocessing.py:38-44 | the first five stages never fail; the string they hand to the lemmatiser, and every token of it, contains no punctuation; the pipeline's result is the lemmatiser's result on that string |
| `StringPreprocessing.PipelineFailsExactlyWithoutTokens` | string_preprocessing.py:38-44 | with a tagger that tags every token and never yields an empty tag, the pipeline fails, and only with `TypeError`, if and only if the punctuation-free text has no tokens |
| `Tokeniser.Leaves` | tokeniser.py:38 | `tree.leaves()`: the `(word, tag)` pairs at every depth, left to right; it has no contract of its own, and `LeavesOfAppend` states how it distributes over children |
| `Tokeniser.LeavesOf` | tokeniser.py:38 | the leaves of a sequence of children, left to right; `LeavesOfAppend` states its behaviour over a concatenation |
| `Tokeniser.LeavesOfAppend` | tokeniser.py:38 | the leaves of a concatenation of children are the leaves of each part, in order |
| `Tokeniser.ChunksOf` | tokeniser.py:29-33 | one chunk per child, in order: a leaf yields its word (its tag is dropped), and a subtree yields the single-space join of the words of all its leaves |
| `Tokeniser.ConvertTreeToChunks` | tokeniser.py:27-33 | exactly one chunk per top-level child of the tree, in left-to-right order; a leaf yields its word, and a subtree yields its extracted string |
| `Tokeniser.ExtractStringFromTree` | tokeniser.py:35-39 | the output's tokens are, in order, the tokens of each leaf word of the tree, including those of nested subtrees |
| `Tokeniser.ExtractStringFromTreeSplits` | tokeniser.py:35-39 | when every leaf word is non-empty and contains no whitespace, the extracted string splits back into the tree's leaf words, left to right, including those of nested subtrees |
| `Tokeniser.ChunksPreserveWordOrder` | tokeniser.py:28-39 | under the same assumption, splitting every chunk and concatenating the results gives the tree's full leaf-word sequence |
| `Tokeniser.ChunkCount` | tokeniser.py:29-39 | if every top-level subtree has a leaf, there are no more chunks than leaves, and exactly as many if and only if every top-level subtree has a single leaf |
| `Tokeniser.ConvertTreeToChunksExample` | tokeniser.py:28-39 | `S[NP[(a,NN),(b,NN)], (c,DT)]` flattens to `["a b", "c"]` |
| `Tokeniser.Chunk` | tokeniser.py:20-25 | tokenise, tag, parse with `REGEX_NP_PATTERNS`, flatten; it has no contract of its own, and `ChunkPreservesTokens` states its behaviour |
| `Tokeniser.ChunkPreservesTokens` | tokeniser.py:20-25 | given a tokenizer that yields tokens, a tagger that keeps them, and a parser that only groups: splitting the chunks gives the sentence's tokens in order, and there are no more chunks than tokens |

## Left out

- **External libraries.** `str.lower`, `unidecode`, `wordninja.split`, `num2words`, `pos_tag`,
  `WordNetLemmatizer.lemmatize`, `word_tokenize` and the `RegexpParser` engine have no visible
  code. Each is an arbitrary function parameter, constrained only by the predicates that a
  lemma names in its `requires`. That is why end-to-end examples such as "Málaga" → "malaga"
  or "300" → "three hundred" are not stated.
- **Chunk-grammar semantics.** `REGEX_NP_PATTERNS` appears only as data passed to the parser.
  The parser's rule matching, greed and rule order belong to the library and are not modelled.
  The rule `<ADJ><NN>+` names a tag the Penn tagger never emits, and the model records it as
  written.
- **Unicode.** Python's `str.split()` also splits on non-ASCII whitespace (for example U+0085
  and U+00A0). The model's whitespace set is the ASCII part of that set. `str.isnumeric`
  beyond ASCII is not modelled: it is a parameter that the examples constrain only on the
  ASCII characters they use.
- **Library object details.** The model omits the construction of a fresh `WordNetLemmatizer()`
  on every call. It also omits `Chunker` inheriting from `RegexpParser` and the label of the
  root tree.
- **Failures inside the libraries.** Exceptions raised inside the tagger, tokenizer, parser,
  lemmatiser, accent folder or compound splitter are not modelled. Only `num2words` may fail,
  and its failure is swallowed per token.
- `Tokeniser.ChunksPreserveWordOrder`: leaf words are split with `str.split()` rather than
  `str.split(' ')`. The lemma therefore assumes every word is non-empty and whitespace-free,
  which `word_tokenize` output satisfies. The `' '`-only variant for words containing tabs is
  not stated.
- `StringPreprocessing.KeepOnlyNumbersExample`: it assumes only that `isnumeric` holds for
  '2' and '0' and fails for '$' and 'p'. It does not assume the whole ASCII behaviour.
