/** The normaliser: six text transforms applied in a fixed order (lower-casing, accent
    folding, compound splitting, number expansion, punctuation removal and lemmatisation by
    part of speech), together with the helpers they are built from.

    The linguistic work is done by libraries whose code is not part of this model. They are
    the fields of `Library`; the few facts the proofs need about them are the `ghost
    predicate`s below, and a lemma assumes one only where it says so in its `requires`. */
module StringPreprocessing {
  import opened Wrappers
  import opened Text
  import opened Filters
  import opened Nltk

  /** The four `nltk.corpus.wordnet` constants the lemmatiser is given. */
  datatype WordNetPos = Adj | Noun | Verb | Adv

  /** The exceptions the functions below let escape to their caller. */
  datatype PyError =
    | IndexError  // `tag[0]` on an empty tag
    | TypeError   // `map(lemmatize)` called with no iterables

  datatype Library = Library(
    lower: string -> string,                   // str.lower
    isNumeric: char -> bool,                   // str.isnumeric, one character at a time
    unidecode: string -> string,               // unidecode.unidecode
    splitCompounds: string -> seq<string>,     // wordninja.split
    num2words: string -> Option<string>,       // num2words.num2words; None when it raises
    posTag: Tagger,                            // nltk.pos_tag
    lemmatize: (string, WordNetPos) -> string  // WordNetLemmatizer().lemmatize
  )

  /** On ASCII, `str.isnumeric` holds of the ten digits and of nothing else. */
  ghost predicate NumericOnAsciiIsDigit(isNumeric: char -> bool) {
    forall c :: c < '\U{80}' ==> (isNumeric(c) <==> '0' <= c <= '9')
  }

  /** `num2words` raises on the empty string. */
  ghost predicate RejectsEmpty(num2words: string -> Option<string>) {
    num2words("").None?
  }

  /** The lemma of a token is again a token (non-empty, without whitespace). */
  ghost predicate LemmatizesToTokens(lemmatize: (string, WordNetPos) -> string) {
    forall t, pos :: IsToken(t) ==> IsToken(lemmatize(t, pos))
  }

  // ---------------------------------------------------------------------------------------
  // get_wordnet_pos

  /** Coarsens a Penn Treebank tag by its first character. `tag[0]` raises on an empty tag,
      hence the precondition. */
  function GetWordnetPos(tag: string): (pos: WordNetPos)
    requires |tag| > 0
    ensures pos == Adj <==> tag[0] == 'J'
    ensures pos == Verb <==> tag[0] == 'V'
    ensures pos == Adv <==> tag[0] == 'R'
    ensures pos == Noun <==> tag[0] != 'J' && tag[0] != 'V' && tag[0] != 'R'
  {
    var table := map['J' := Adj, 'N' := Noun, 'V' := Verb, 'R' := Adv];
    if tag[0] in table then table[tag[0]] else Noun
  }

  lemma GetWordnetPosExamples()
    ensures GetWordnetPos("VBG") == Verb
    ensures GetWordnetPos("xyz") == Noun
    ensures GetWordnetPos("JJR") == Adj
    ensures GetWordnetPos("RB") == Adv
    ensures GetWordnetPos("NNS") == Noun
  {
  }

  // ---------------------------------------------------------------------------------------
  // remove_punctuation

  /** Python's `string.punctuation`. */
  const PUNCTUATION: string := "!\"#$%&'()*+,-./:;<=>?@[\\]^_`{|}~"

  /** Membership in `PUNCTUATION`, written as the four ASCII ranges it consists of (see
      `PunctuationIsAsciiSymbols`). */
  predicate IsPunctuation(c: char) {
    '!' <= c <= '/' || ':' <= c <= '@' || '[' <= c <= '`' || '{' <= c <= '~'
  }

  predicate NotPunctuation(c: char) {
    !IsPunctuation(c)
  }

  /** `string.punctuation` holds 32 characters, and they are exactly the characters
      `IsPunctuation` accepts: the printable ASCII characters that are neither letters, digits
      nor space. */
  lemma PunctuationIsAsciiSymbols()
    ensures |PUNCTUATION| == 32
    ensures forall c :: c in PUNCTUATION <==> IsPunctuation(c)
  {
  }

  function RemovePunctuation(s: string): (r: string)
    ensures forall i :: 0 <= i < |r| ==> !IsPunctuation(r[i])
    ensures forall c :: c in r <==> c in s && !IsPunctuation(c)
    ensures |r| <= |s|
  {
    FilterMembership(NotPunctuation, s);
    Filter(NotPunctuation, s)
  }

  /** Characters survive in their original order, every non-punctuation occurrence survives,
      and the result for a concatenation is the concatenation of the results: nothing is
      inserted where punctuation was removed. */
  lemma RemovePunctuationKeepsOrder(s: string, t: string, c: char)
    ensures IsSubsequence(RemovePunctuation(s), s)
    ensures multiset(RemovePunctuation(s))[c] == if IsPunctuation(c) then 0 else multiset(s)[c]
    ensures RemovePunctuation(s + t) == RemovePunctuation(s) + RemovePunctuation(t)
  {
    FilterIsSubsequence(NotPunctuation, s);
    FilterCount(NotPunctuation, s, c);
    FilterAppend(NotPunctuation, s, t);
  }

  lemma RemovePunctuationIdempotent(s: string)
    ensures RemovePunctuation(RemovePunctuation(s)) == RemovePunctuation(s)
  {
    FilterIdempotent(NotPunctuation, s);
  }

  lemma RemovePunctuationUnchanged(s: string)
    ensures RemovePunctuation(s) == s <==> forall i :: 0 <= i < |s| ==> !IsPunctuation(s[i])
  {
    FilterUnchanged(NotPunctuation, s);
  }

  lemma RemovePunctuationExamples()
    ensures RemovePunctuation("a.b") == "ab"
  {
    assert Filter(NotPunctuation, "a.b") == "ab";
  }

  lemma RemovePunctuationInsertsNothing()
    ensures RemovePunctuation("a - b") == "a  b"
  {
    assert Filter(NotPunctuation, "a - b") == "a  b";
  }

  // ---------------------------------------------------------------------------------------
  // keep_only_numbers

  function NumberCharacter(isNumeric: char -> bool): char -> bool {
    c => isNumeric(c) || c == '.' || c == ','
  }

  function KeepOnlyNumbers(isNumeric: char -> bool, s: string): (r: string)
    ensures forall i :: 0 <= i < |r| ==> isNumeric(r[i]) || r[i] == '.' || r[i] == ','
    ensures forall c :: c in r <==> c in s && (isNumeric(c) || c == '.' || c == ',')
    ensures |r| <= |s|
  {
    FilterMembership(NumberCharacter(isNumeric), s);
    Filter(NumberCharacter(isNumeric), s)
  }

  /** Characters survive in their original order, every numeric, '.' or ',' occurrence
      survives, and a second pass changes nothing. */
  lemma KeepOnlyNumbersKeepsOrder(isNumeric: char -> bool, s: string, c: char)
    ensures IsSubsequence(KeepOnlyNumbers(isNumeric, s), s)
    ensures multiset(KeepOnlyNumbers(isNumeric, s))[c] ==
      if isNumeric(c) || c == '.' || c == ',' then multiset(s)[c] else 0
    ensures KeepOnlyNumbers(isNumeric, KeepOnlyNumbers(isNumeric, s)) == KeepOnlyNumbers(isNumeric, s)
  {
    FilterIsSubsequence(NumberCharacter(isNumeric), s);
    FilterCount(NumberCharacter(isNumeric), s, c);
    FilterIdempotent(NumberCharacter(isNumeric), s);
  }

  /** The result is empty exactly when no character of the input is numeric, '.' or ','. */
  lemma KeepOnlyNumbersEmpty(isNumeric: char -> bool, s: string)
    ensures KeepOnlyNumbers(isNumeric, s) == [] <==>
      forall i :: 0 <= i < |s| ==> !(isNumeric(s[i]) || s[i] == '.' || s[i] == ',')
  {
    var r := KeepOnlyNumbers(isNumeric, s);
    if r != [] {
      assert r[0] in r;
    } else {
      forall i | 0 <= i < |s| ensures !(isNumeric(s[i]) || s[i] == '.' || s[i] == ',') {
        assert s[i] in s;
      }
    }
  }

  lemma KeepOnlyNumbersExample(isNumeric: char -> bool)
    requires isNumeric('2') && isNumeric('0') && !isNumeric('$') && !isNumeric('p')
    ensures KeepOnlyNumbers(isNumeric, "$2.00p") == "2.00"
  {
    var k := NumberCharacter(isNumeric);
    assert k('2') && k('0') && k('.') && !k('$') && !k('p');
  }

  // ---------------------------------------------------------------------------------------
  // convert_numbers_to_words, convert_any_numbers_to_words

  /** The converter's words for the token's numeric characters when it accepts them, and the
      token itself when it raises; no failure reaches the caller. */
  function ConvertNumbersToWords(lib: Library, token: string): (r: string)
    ensures lib.num2words(KeepOnlyNumbers(lib.isNumeric, token)).Some? ==>
      r == lib.num2words(KeepOnlyNumbers(lib.isNumeric, token)).value
    ensures lib.num2words(KeepOnlyNumbers(lib.isNumeric, token)).None? ==> r == token
  {
    match lib.num2words(KeepOnlyNumbers(lib.isNumeric, token))
    case Some(words) => words
    case None => token
  }

  /** A token without a single numeric character, '.' or ',' comes back as it was. */
  lemma NonNumericTokenUnchanged(lib: Library, token: string)
    requires RejectsEmpty(lib.num2words)
    requires forall i :: 0 <= i < |token| ==>
      !(lib.isNumeric(token[i]) || token[i] == '.' || token[i] == ',')
    ensures ConvertNumbersToWords(lib, token) == token
  {
    KeepOnlyNumbersEmpty(lib.isNumeric, token);
  }

  /** "$2.00p" is converted as "2.00". */
  lemma ConvertNumbersToWordsExample(lib: Library)
    requires NumericOnAsciiIsDigit(lib.isNumeric)
    ensures ConvertNumbersToWords(lib, "$2.00p") ==
      if lib.num2words("2.00").Some? then lib.num2words("2.00").value else "$2.00p"
  {
    KeepOnlyNumbersExample(lib.isNumeric);
  }

  /** Python's `map(convert_numbers_to_words, tokens)`. */
  function ConvertTokens(lib: Library, tokens: seq<string>): (r: seq<string>)
    ensures |r| == |tokens|
    ensures forall i :: 0 <= i < |r| ==> r[i] == ConvertNumbersToWords(lib, tokens[i])
  {
    if tokens == [] then [] else [ConvertNumbersToWords(lib, tokens[0])] + ConvertTokens(lib, tokens[1..])
  }

  /** The tokens of the result are, in order, the tokens of each converted input token. */
  function ConvertAnyNumbersToWords(lib: Library, s: string): (r: string)
    ensures Split(r) == SplitAll(ConvertTokens(lib, Split(s)))
  {
    SplitJoin(ConvertTokens(lib, Split(s)));
    Join(ConvertTokens(lib, Split(s)))
  }

  /** When no token converts, the result is the input's tokens re-joined by single spaces, and
      so has the same tokens as the input. */
  lemma ConvertAnyNumbersToWordsNoConversion(lib: Library, s: string)
    requires forall i :: 0 <= i < |Split(s)| ==>
      lib.num2words(KeepOnlyNumbers(lib.isNumeric, Split(s)[i])).None?
    ensures ConvertAnyNumbersToWords(lib, s) == Join(Split(s))
    ensures Split(ConvertAnyNumbersToWords(lib, s)) == Split(s)
  {
    assert ConvertTokens(lib, Split(s)) == Split(s);
    SplitJoinSplit(s);
  }

  // ---------------------------------------------------------------------------------------
  // part_of_speech_tags, lemmatise_according_to_pos

  /** What `zip(*pairs)` produces from the `(token, category)` pairs: nothing at all when
      there are no pairs, otherwise the column of tokens and the column of categories. */
  datatype Columns = NoColumns | Columns(tokens: seq<string>, categories: seq<WordNetPos>)

  predicate HasEmptyTag(tagged: seq<(string, string)>) {
    exists i :: 0 <= i < |tagged| && tagged[i].1 == []
  }

  function PartOfSpeechTags(lib: Library, s: string): (r: Result<Columns, PyError>)
    ensures var tagged := lib.posTag(Split(s));
      && (r.Err? <==> HasEmptyTag(tagged))
      && (r.Err? ==> r.error == IndexError)
      && (r == Ok(NoColumns) <==> !HasEmptyTag(tagged) && tagged == [])
      && (r.Ok? && r.value.Columns? ==>
            && |r.value.tokens| == |r.value.categories| == |tagged|
            && forall i :: 0 <= i < |tagged| ==>
                 && r.value.tokens[i] == tagged[i].0
                 && r.value.categories[i] == GetWordnetPos(tagged[i].1))
  {
    var tagged := lib.posTag(Split(s));
    if HasEmptyTag(tagged) then Err(IndexError)
    else if tagged == [] then Ok(NoColumns)
    else
      Ok(Columns(
        seq(|tagged|, i requires 0 <= i < |tagged| => tagged[i].0),
        seq(|tagged|, i requires 0 <= i < |tagged| && !HasEmptyTag(tagged) => GetWordnetPos(tagged[i].1))))
  }

  /** Python's `map(lemmatize, tokens, categories)`, which stops at the shorter column. */
  function LemmatiseColumns(lemmatize: (string, WordNetPos) -> string,
                            tokens: seq<string>, categories: seq<WordNetPos>): (r: seq<string>)
    ensures |r| == if |tokens| <= |categories| then |tokens| else |categories|
    ensures forall i :: 0 <= i < |r| ==> r[i] == lemmatize(tokens[i], categories[i])
  {
    if tokens == [] || categories == [] then []
    else [lemmatize(tokens[0], categories[0])] + LemmatiseColumns(lemmatize, tokens[1..], categories[1..])
  }

  /** Fails with `IndexError` exactly when the tagger yields an empty tag, and otherwise with
      `TypeError` exactly when it yields no pairs at all. */
  function LemmatiseAccordingToPos(lib: Library, s: string): (r: Result<string, PyError>)
    ensures r == Err(IndexError) <==> HasEmptyTag(lib.posTag(Split(s)))
    ensures r == Err(TypeError) <==> !HasEmptyTag(lib.posTag(Split(s))) && lib.posTag(Split(s)) == []
  {
    match PartOfSpeechTags(lib, s)
    case Err(e) => Err(e)
    case Ok(NoColumns) => Err(TypeError)
    case Ok(Columns(tokens, categories)) => Ok(Join(LemmatiseColumns(lib.lemmatize, tokens, categories)))
  }

  /** Lemma `i` of the whitespace tokens of `s`: token `i` lemmatised with the coarse category
      of the tag the tagger gave it. */
  ghost function ExpectedLemmas(lib: Library, s: string): (r: seq<string>)
    requires TagsEachToken(lib.posTag) && TagsAreNonEmpty(lib.posTag)
    ensures |r| == |Split(s)|
  {
    var tokens := Split(s);
    var tagged := lib.posTag(tokens);
    seq(|tokens|, i requires 0 <= i < |tokens| => lib.lemmatize(tokens[i], GetWordnetPos(tagged[i].1)))
  }

  /** With a tagger that tags every token, the `(token, category)` columns are the whitespace
      tokens of the input and the coarsened tags, position by position; and there are no
      columns at all exactly when the input has no tokens. */
  lemma PartOfSpeechTagsAligned(lib: Library, s: string)
    requires TagsEachToken(lib.posTag) && TagsAreNonEmpty(lib.posTag)
    ensures Split(s) == [] <==> PartOfSpeechTags(lib, s) == Ok(NoColumns)
    ensures Split(s) != [] ==>
      && PartOfSpeechTags(lib, s).Ok?
      && PartOfSpeechTags(lib, s).value.Columns?
      && PartOfSpeechTags(lib, s).value.tokens == Split(s)
      && |PartOfSpeechTags(lib, s).value.categories| == |Split(s)|
      && forall i :: 0 <= i < |Split(s)| ==>
           PartOfSpeechTags(lib, s).value.categories[i] == GetWordnetPos(lib.posTag(Split(s))[i].1)
  {
    var tagged := lib.posTag(Split(s));
    assert |tagged| == |Split(s)|;
    assert !HasEmptyTag(tagged);
  }

  /** Lemmatisation fails (with the `TypeError` of `map` called on no iterables) exactly when
      the input is whitespace only; otherwise it yields one lemma per token, in token order,
      each computed with that token's own category. */
  lemma LemmatiseAccordingToPosAligned(lib: Library, s: string)
    requires TagsEachToken(lib.posTag) && TagsAreNonEmpty(lib.posTag)
    ensures LemmatiseAccordingToPos(lib, s).Err? <==> Split(s) == []
    ensures LemmatiseAccordingToPos(lib, s).Err? ==> LemmatiseAccordingToPos(lib, s).error == TypeError
    ensures LemmatiseAccordingToPos(lib, s).Ok? ==>
      LemmatiseAccordingToPos(lib, s).value == Join(ExpectedLemmas(lib, s))
  {
    PartOfSpeechTagsAligned(lib, s);
    if Split(s) != [] {
      var cols := PartOfSpeechTags(lib, s).value;
      assert LemmatiseColumns(lib.lemmatize, cols.tokens, cols.categories) == ExpectedLemmas(lib, s);
    }
  }

  /** As many lemmas come out as tokens went in, in the same order, when lemmas are tokens. */
  lemma LemmatiseAccordingToPosTokenCount(lib: Library, s: string)
    requires TagsEachToken(lib.posTag) && TagsAreNonEmpty(lib.posTag)
    requires LemmatizesToTokens(lib.lemmatize)
    ensures LemmatiseAccordingToPos(lib, s).Ok? ==>
      Split(LemmatiseAccordingToPos(lib, s).value) == ExpectedLemmas(lib, s)
      && |Split(LemmatiseAccordingToPos(lib, s).value)| == |Split(s)|
  {
    LemmatiseAccordingToPosAligned(lib, s);
    var lemmas := ExpectedLemmas(lib, s);
    forall i | 0 <= i < |lemmas| ensures IsToken(lemmas[i]) {
      assert IsToken(Split(s)[i]);
    }
    SplitJoinRoundTrip(lemmas);
  }

  // ---------------------------------------------------------------------------------------
  // preprocessing_pipeline

  function ConvertAccentedCharacters(lib: Library, s: string): string
  {
    lib.unidecode(s)
  }

  /** The tokens of the result are, in order, the tokens of the pieces the splitter returns. */
  function SeparateCompoundWords(lib: Library, s: string): (r: string)
    ensures Split(r) == SplitAll(lib.splitCompounds(s))
  {
    SplitJoin(lib.splitCompounds(s));
    Join(lib.splitCompounds(s))
  }

  function PreprocessingPipeline(lib: Library, rawString: string): Result<string, PyError>
  {
    var lowerCaseString := lib.lower(rawString);
    var noAccentsString := ConvertAccentedCharacters(lib, lowerCaseString);
    var noCompoundsString := SeparateCompoundWords(lib, noAccentsString);
    var noNumbersString := ConvertAnyNumbersToWords(lib, noCompoundsString);
    var noPunctuationString := RemovePunctuation(noNumbersString);
    LemmatiseAccordingToPos(lib, noPunctuationString)
  }

  /** The stages the normaliser is documented to run, as data. */
  datatype Stage = LowerCase | ConvertAccents | SplitCompounds | NumbersToWords | StripPunctuation | LemmatiseByPos

  const PIPELINE: seq<Stage> :=
    [LowerCase, ConvertAccents, SplitCompounds, NumbersToWords, StripPunctuation, LemmatiseByPos]

  function ApplyStage(lib: Library, stage: Stage, s: string): (r: Result<string, PyError>)
    ensures stage != LemmatiseByPos ==> r.Ok?
  {
    match stage
    case LowerCase => Ok(lib.lower(s))
    case ConvertAccents => Ok(ConvertAccentedCharacters(lib, s))
    case SplitCompounds => Ok(SeparateCompoundWords(lib, s))
    case NumbersToWords => Ok(ConvertAnyNumbersToWords(lib, s))
    case StripPunctuation => Ok(RemovePunctuation(s))
    case LemmatiseByPos => LemmatiseAccordingToPos(lib, s)
  }

  /** Each stage applied to the previous stage's output, the first failure ending the run. */
  function RunStages(lib: Library, stages: seq<Stage>, s: string): (r: Result<string, PyError>)
    ensures r.Err? ==> LemmatiseByPos in stages
  {
    if stages == [] then Ok(s)
    else match ApplyStage(lib, stages[0], s)
      case Err(e) => Err(e)
      case Ok(t) => RunStages(lib, stages[1..], t)
  }

  lemma {:induction false} RunStagesAppend(lib: Library, a: seq<Stage>, b: seq<Stage>, s: string)
    ensures RunStages(lib, a + b, s) ==
      match RunStages(lib, a, s)
      case Err(e) => Err(e)
      case Ok(t) => RunStages(lib, b, t)
    decreases |a|
  {
    if a == [] {
      assert a + b == b;
    } else {
      assert (a + b)[0] == a[0];
      assert (a + b)[1..] == a[1..] + b;
      match ApplyStage(lib, a[0], s)
      case Err(e) =>
      case Ok(t) => RunStagesAppend(lib, a[1..], b, t);
    }
  }

  /** The normaliser is exactly the six documented stages run in their documented order. */
  lemma PipelineRunsStagesInOrder(lib: Library, rawString: string)
    ensures PreprocessingPipeline(lib, rawString) == RunStages(lib, PIPELINE, rawString)
  {
    var s1 := lib.lower(rawString);
    var s2 := ConvertAccentedCharacters(lib, s1);
    var s3 := SeparateCompoundWords(lib, s2);
    var s4 := ConvertAnyNumbersToWords(lib, s3);
    var s5 := RemovePunctuation(s4);
    assert RunStages(lib, PIPELINE[5..], s5) == LemmatiseAccordingToPos(lib, s5);
    assert RunStages(lib, PIPELINE[4..], s4) == RunStages(lib, PIPELINE[5..], s5);
    assert RunStages(lib, PIPELINE[3..], s3) == RunStages(lib, PIPELINE[4..], s4);
    assert RunStages(lib, PIPELINE[2..], s2) == RunStages(lib, PIPELINE[3..], s3);
    assert RunStages(lib, PIPELINE[1..], s1) == RunStages(lib, PIPELINE[2..], s2);
  }

  /** The first five stages, run one after the other, give the punctuation-free text. */
  lemma FirstFiveStages(lib: Library, rawString: string)
    ensures RunStages(lib, PIPELINE[..5], rawString) ==
      Ok(RemovePunctuation(ConvertAnyNumbersToWords(lib,
        SeparateCompoundWords(lib, ConvertAccentedCharacters(lib, lib.lower(rawString))))))
  {
    var first := PIPELINE[..5];
    var s1 := lib.lower(rawString);
    var s2 := ConvertAccentedCharacters(lib, s1);
    var s3 := SeparateCompoundWords(lib, s2);
    var s4 := ConvertAnyNumbersToWords(lib, s3);
    var s5 := RemovePunctuation(s4);
    assert first[4..][0] == StripPunctuation && first[4..][1..] == [];
    assert RunStages(lib, first[4..], s4) == Ok(s5);
    assert first[3..][0] == NumbersToWords && first[3..][1..] == first[4..];
    assert RunStages(lib, first[3..], s3) == RunStages(lib, first[4..], s4);
    assert first[2..][0] == SplitCompounds && first[2..][1..] == first[3..];
    assert RunStages(lib, first[2..], s2) == RunStages(lib, first[3..], s3);
    assert first[1..][0] == ConvertAccents && first[1..][1..] == first[2..];
    assert RunStages(lib, first[1..], s1) == RunStages(lib, first[2..], s2);
  }

  /** The first five stages never fail, and the string they hand to the lemmatiser, and so
      every token the tagger and the lemmatiser see, is free of punctuation. */
  lemma PipelineLemmatisesPunctuationFreeText(lib: Library, rawString: string)
    ensures RunStages(lib, PIPELINE[..5], rawString).Ok?
    ensures var p := RunStages(lib, PIPELINE[..5], rawString).value;
      && (forall i :: 0 <= i < |p| ==> !IsPunctuation(p[i]))
      && (forall k, c :: 0 <= k < |Split(p)| && c in Split(p)[k] ==> !IsPunctuation(c))
      && PreprocessingPipeline(lib, rawString) == LemmatiseAccordingToPos(lib, p)
  {
    PipelineRunsStagesInOrder(lib, rawString);
    assert PIPELINE == PIPELINE[..5] + [LemmatiseByPos];
    RunStagesAppend(lib, PIPELINE[..5], [LemmatiseByPos], rawString);
    FirstFiveStages(lib, rawString);
  }

  /** The normaliser can fail, and only with the lemmatiser's `TypeError`: exactly when the
      punctuation-free text handed to it has no tokens, as for the empty input. */
  lemma PipelineFailsExactlyWithoutTokens(lib: Library, rawString: string)
    requires TagsEachToken(lib.posTag) && TagsAreNonEmpty(lib.posTag)
    ensures var p := RunStages(lib, PIPELINE[..5], rawString);
      && p.Ok?
      && (PreprocessingPipeline(lib, rawString).Err? <==> Split(p.value) == [])
      && (PreprocessingPipeline(lib, rawString).Err? ==> PreprocessingPipeline(lib, rawString).error == TypeError)
  {
    PipelineLemmatisesPunctuationFreeText(lib, rawString);
    LemmatiseAccordingToPosAligned(lib, RunStages(lib, PIPELINE[..5], rawString).value);
  }
}
