/** The chunker: tokenise a sentence, tag its tokens, let the regular-expression chunk parser
    group runs of tags into noun-phrase subtrees, and flatten the resulting tree into one
    string per top-level node.

    Tokenising, tagging and parsing are NLTK's; they are the fields of `ChunkerLibrary`, and
    the contracts the lemmas assume of them are the `ghost predicate`s below. */
module Tokeniser {
  import opened Text
  import opened Nltk

  /** An `nltk.tree.Tree`: a label and an ordered list of children, each of which is either a
      `(word, tag)` pair or another tree. */
  datatype Tree = Tree(name: string, children: seq<Child>)
  datatype Child = Leaf(word: string, tag: string) | Subtree(tree: Tree)

  /** A rule `{<first><repeated>+}`: one `first` tag followed by one or more `repeated` tags. */
  datatype ChunkRule = ChunkRule(first: string, repeated: string)

  /** A chunk grammar: the label of the chunks it builds and its rules, in the order tried. */
  datatype Grammar = Grammar(chunkLabel: string, rules: seq<ChunkRule>)

  /** The grammar every `Chunker` is constructed with. */
  const REGEX_NP_PATTERNS: Grammar := Grammar("NP", [
    ChunkRule("NN", "NN"),
    ChunkRule("NNP", "NNP"),
    ChunkRule("NN", "VBG"),
    ChunkRule("RB", "VBN"),
    ChunkRule("RB", "VB"),
    ChunkRule("VBG", "NN"),
    ChunkRule("ADJ", "NN"),
    ChunkRule("CD", "NNS")
  ])

  datatype ChunkerLibrary = ChunkerLibrary(
    wordTokenize: string -> seq<string>,                 // nltk.word_tokenize
    posTag: Tagger,                                      // nltk.pos_tag
    parse: (Grammar, seq<(string, string)>) -> Tree      // RegexpParser.parse
  )

  // ---------------------------------------------------------------------------------------
  // Tree.leaves()

  /** The `(word, tag)` pairs of a tree, left to right, at every depth. */
  function Leaves(t: Tree): seq<(string, string)>
  {
    LeavesOf(t.children)
  }

  function LeavesOf(cs: seq<Child>): seq<(string, string)>
  {
    if cs == [] then [] else ChildLeaves(cs[0]) + LeavesOf(cs[1..])
  }

  function ChildLeaves(c: Child): seq<(string, string)>
  {
    match c
    case Leaf(w, g) => [(w, g)]
    case Subtree(t) => Leaves(t)
  }

  /** `node[0]` of every pair. */
  function Words(pairs: seq<(string, string)>): seq<string>
  {
    seq(|pairs|, i requires 0 <= i < |pairs| => pairs[i].0)
  }

  lemma {:induction false} LeavesOfAppend(a: seq<Child>, b: seq<Child>)
    ensures LeavesOf(a + b) == LeavesOf(a) + LeavesOf(b)
    decreases |a|
  {
    if a == [] {
      assert a + b == b;
    } else {
      assert (a + b)[0] == a[0];
      assert (a + b)[1..] == a[1..] + b;
      LeavesOfAppend(a[1..], b);
    }
  }

  lemma WordsAppend(a: seq<(string, string)>, b: seq<(string, string)>)
    ensures Words(a + b) == Words(a) + Words(b)
  {
  }

  // ---------------------------------------------------------------------------------------
  // Chunker.extract_string_from_tree, Chunker.convert_tree_to_chunks

  /** The leaf words joined by single spaces: its tokens are, in order, the tokens of each
      leaf word. */
  function ExtractStringFromTree(t: Tree): (r: string)
    ensures Split(r) == SplitAll(Words(Leaves(t)))
  {
    SplitJoin(Words(Leaves(t)));
    Join(Words(Leaves(t)))
  }

  function ChildChunk(c: Child): string
  {
    match c
    case Leaf(w, _) => w
    case Subtree(t) => ExtractStringFromTree(t)
  }

  /** One string per child, in order: a leaf gives its word, its tag dropped; a subtree gives
      the words of all its leaves joined by single spaces. */
  function ChunksOf(cs: seq<Child>): (chunks: seq<string>)
    ensures |chunks| == |cs|
    ensures forall i :: 0 <= i < |cs| && cs[i].Leaf? ==> chunks[i] == cs[i].word
    ensures forall i :: 0 <= i < |cs| && cs[i].Subtree? ==>
      chunks[i] == Join(Words(Leaves(cs[i].tree)))
  {
    if cs == [] then [] else [ChildChunk(cs[0])] + ChunksOf(cs[1..])
  }

  function ConvertTreeToChunks(t: Tree): (chunks: seq<string>)
    ensures |chunks| == |t.children|
    ensures forall i :: 0 <= i < |chunks| && t.children[i].Leaf? ==> chunks[i] == t.children[i].word
    ensures forall i :: 0 <= i < |chunks| && t.children[i].Subtree? ==>
      chunks[i] == ExtractStringFromTree(t.children[i].tree)
  {
    ChunksOf(t.children)
  }

  /** When every word is non-empty and holds no whitespace, the string of a subtree splits
      back into its words. */
  lemma ExtractStringFromTreeSplits(t: Tree)
    requires AllTokens(Words(Leaves(t)))
    ensures Split(ExtractStringFromTree(t)) == Words(Leaves(t))
  {
    SplitAllTokens(Words(Leaves(t)));
  }

  lemma {:induction false} ChunksOfSplitToWords(cs: seq<Child>)
    requires AllTokens(Words(LeavesOf(cs)))
    ensures SplitAll(ChunksOf(cs)) == Words(LeavesOf(cs))
    decreases |cs|
  {
    if cs != [] {
      var first, rest := ChildLeaves(cs[0]), LeavesOf(cs[1..]);
      WordsAppend(first, rest);
      assert Words(first) == Words(LeavesOf(cs))[..|first|];
      assert Words(rest) == Words(LeavesOf(cs))[|first|..];
      assert AllTokens(Words(first)) && AllTokens(Words(rest));
      match cs[0] {
        case Leaf(w, g) =>
          assert Words(first)[0] == w;
          assert IsToken(Words(first)[0]);
          SplitToken(w);
        case Subtree(t) =>
          ExtractStringFromTreeSplits(t);
      }
      ChunksOfSplitToWords(cs[1..]);
    }
  }

  /** Word order is preserved: splitting every chunk at its spaces and concatenating the
      pieces gives the words of all leaves of the tree, left to right. */
  lemma ChunksPreserveWordOrder(t: Tree)
    requires AllTokens(Words(Leaves(t)))
    ensures SplitAll(ConvertTreeToChunks(t)) == Words(Leaves(t))
  {
    ChunksOfSplitToWords(t.children);
  }

  lemma {:induction false} ChunksOfCount(cs: seq<Child>)
    requires forall i :: 0 <= i < |cs| ==> |ChildLeaves(cs[i])| >= 1
    ensures |ChunksOf(cs)| <= |LeavesOf(cs)|
    ensures |ChunksOf(cs)| == |LeavesOf(cs)| <==> forall i :: 0 <= i < |cs| ==> |ChildLeaves(cs[i])| == 1
    decreases |cs|
  {
    if cs != [] {
      ChunksOfCount(cs[1..]);
      if |ChildLeaves(cs[0])| == 1 && !(forall i :: 0 <= i < |cs| ==> |ChildLeaves(cs[i])| == 1) {
        var i :| 0 <= i < |cs| && |ChildLeaves(cs[i])| != 1;
        assert cs[1..][i - 1] == cs[i];
      }
    }
  }

  /** With no empty subtree at the top level there are at most as many chunks as leaves, and
      exactly as many when every top-level subtree holds a single leaf. */
  lemma ChunkCount(t: Tree)
    requires forall i :: 0 <= i < |t.children| && t.children[i].Subtree? ==>
      |Leaves(t.children[i].tree)| >= 1
    ensures |ConvertTreeToChunks(t)| <= |Leaves(t)|
    ensures |ConvertTreeToChunks(t)| == |Leaves(t)| <==>
      forall i :: 0 <= i < |t.children| && t.children[i].Subtree? ==> |Leaves(t.children[i].tree)| == 1
  {
    ChunksOfCount(t.children);
  }

  lemma ConvertTreeToChunksExample()
    ensures ConvertTreeToChunks(
      Tree("S", [Subtree(Tree("NP", [Leaf("a", "NN"), Leaf("b", "NN")])), Leaf("c", "DT")]))
      == ["a b", "c"]
  {
    var np := Tree("NP", [Leaf("a", "NN"), Leaf("b", "NN")]);
    assert Leaves(np) == [("a", "NN"), ("b", "NN")];
    assert Words(Leaves(np)) == ["a", "b"];
    assert ExtractStringFromTree(np) == "a b";
  }

  // ---------------------------------------------------------------------------------------
  // Chunker.chunk

  function Chunk(lib: ChunkerLibrary, sentence: string): seq<string>
  {
    var tokens := lib.wordTokenize(sentence);
    var tags := lib.posTag(tokens);
    var tree := lib.parse(REGEX_NP_PATTERNS, tags);
    ConvertTreeToChunks(tree)
  }

  /** `word_tokenize` yields non-empty tokens without whitespace. */
  ghost predicate TokenizesToTokens(wordTokenize: string -> seq<string>) {
    forall s :: AllTokens(wordTokenize(s))
  }

  /** The parser only groups: the leaves of its tree are the tagged tokens it was given, in
      order. */
  ghost predicate ParseKeepsTokens(parse: (Grammar, seq<(string, string)>) -> Tree) {
    forall g, tagged :: Leaves(parse(g, tagged)) == tagged
  }

  /** The parser builds no empty chunk. */
  ghost predicate ParseBuildsNonEmptyChunks(parse: (Grammar, seq<(string, string)>) -> Tree) {
    forall g, tagged, i :: 0 <= i < |parse(g, tagged).children| && parse(g, tagged).children[i].Subtree? ==>
      |Leaves(parse(g, tagged).children[i].tree)| >= 1
  }

  /** The chunks of a sentence, split at their spaces, are the sentence's tokens in order; and
      there are never more chunks than tokens. */
  lemma ChunkPreservesTokens(lib: ChunkerLibrary, sentence: string)
    requires TokenizesToTokens(lib.wordTokenize)
    requires TagsEachToken(lib.posTag)
    requires ParseKeepsTokens(lib.parse)
    requires ParseBuildsNonEmptyChunks(lib.parse)
    ensures SplitAll(Chunk(lib, sentence)) == lib.wordTokenize(sentence)
    ensures |Chunk(lib, sentence)| <= |lib.wordTokenize(sentence)|
  {
    var tokens := lib.wordTokenize(sentence);
    var tags := lib.posTag(tokens);
    var tree := lib.parse(REGEX_NP_PATTERNS, tags);
    assert Leaves(tree) == tags;
    assert Words(tags) == tokens;
    ChunksPreserveWordOrder(tree);
    ChunkCount(tree);
  }
}
