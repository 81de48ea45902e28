/** Python's `str.split()` (no separator argument) and `' '.join(...)`, the two string
    operations that every stage of the preprocessing uses to move between a string and its
    tokens. */
module Text {
  import opened Filters

  /** The characters `str.isspace()` accepts among ASCII: space, tab, line feed, vertical tab,
      form feed, carriage return and the four separator controls 0x1C..0x1F. */
  predicate IsSpace(c: char) {
    c == ' ' || c == '\t' || c == '\n' || c == '\r' || c == '\U{B}' || c == '\U{C}'
    || ('\U{1C}' <= c <= '\U{1F}')
  }

  predicate NoSpace(s: string) {
    forall i :: 0 <= i < |s| ==> !IsSpace(s[i])
  }

  /** What `str.split()` can produce: a non-empty run of non-whitespace characters. */
  /** `s.isspace() or s == ""`: every character is whitespace. */
  predicate AllSpace(s: string) {
    forall i :: 0 <= i < |s| ==> IsSpace(s[i])
  }

  predicate IsToken(s: string) {
    |s| > 0 && NoSpace(s)
  }

  predicate AllTokens(ts: seq<string>) {
    forall i :: 0 <= i < |ts| ==> IsToken(ts[i])
  }

  /** The longest whitespace-free prefix of `s`. */
  function Word(s: string): (w: string)
    ensures |w| <= |s| && w == s[..|w|]
    ensures NoSpace(w)
    ensures |w| < |s| ==> IsSpace(s[|w|])
  {
    if s == [] || IsSpace(s[0]) then [] else [s[0]] + Word(s[1..])
  }

  /** `s.split()`: the maximal whitespace-free runs of `s`, left to right; leading, trailing
      and repeated whitespace produce no empty tokens. */
  function Split(s: string): (ts: seq<string>)
    ensures AllTokens(ts)
    ensures forall i, c :: 0 <= i < |ts| && c in ts[i] ==> c in s
    ensures ts == [] <==> AllSpace(s)
    decreases |s|
  {
    if s == [] then []
    else if IsSpace(s[0]) then
      assert forall c :: c in s[1..] ==> c in s;
      assert AllSpace(s) <==> AllSpace(s[1..]);
      Split(s[1..])
    else
      var w := Word(s);
      assert |w| > 0;
      assert forall c :: c in w ==> c in s;
      assert forall c :: c in s[|w|..] ==> c in s;
      [w] + Split(s[|w|..])
  }

  /** `' '.join(ts)`. */
  function Join(ts: seq<string>): string
  {
    if |ts| == 0 then ""
    else if |ts| == 1 then ts[0]
    else ts[0] + " " + Join(ts[1..])
  }

  /** The tokens of each string of `ts`, concatenated in order. */
  function SplitAll(ts: seq<string>): seq<string>
  {
    if ts == [] then [] else Split(ts[0]) + SplitAll(ts[1..])
  }

  lemma {:induction false} WordAppend(a: string, c: string)
    requires c == [] || IsSpace(c[0])
    ensures Word(a + c) == Word(a)
    decreases |a|
  {
    if a == [] {
      assert a + c == c;
    } else if !IsSpace(a[0]) {
      assert (a + c)[1..] == a[1..] + c;
      WordAppend(a[1..], c);
    }
  }

  /** Splitting distributes over a concatenation whose second part begins at a token
      boundary. */
  lemma {:induction false} SplitAppend(a: string, c: string)
    requires c == [] || IsSpace(c[0])
    ensures Split(a + c) == Split(a) + Split(c)
    decreases |a|
  {
    if a == [] {
      assert a + c == c;
    } else if IsSpace(a[0]) {
      assert (a + c)[1..] == a[1..] + c;
      SplitAppend(a[1..], c);
    } else {
      WordAppend(a, c);
      var w := Word(a);
      assert (a + c)[|w|..] == a[|w|..] + c;
      SplitAppend(a[|w|..], c);
    }
  }

  /** Re-splitting a single-space join gives the tokens of every joined string, in order. */
  lemma {:induction false} SplitJoin(ts: seq<string>)
    ensures Split(Join(ts)) == SplitAll(ts)
    decreases |ts|
  {
    if |ts| == 1 {
      assert SplitAll(ts[1..]) == [];
    } else if |ts| > 1 {
      var rest := " " + Join(ts[1..]);
      assert ts[0] + " " + Join(ts[1..]) == ts[0] + rest;
      SplitAppend(ts[0], rest);
      assert rest[1..] == Join(ts[1..]);
      SplitJoin(ts[1..]);
    }
  }

  /** A token splits to itself. */
  lemma SplitToken(t: string)
    requires IsToken(t)
    ensures Split(t) == [t]
  {
    WordAppend(t, []);
    assert t + [] == t;
    assert Word(t) == t;
    assert t[|t|..] == [];
  }

  lemma {:induction false} SplitAllTokens(ts: seq<string>)
    requires AllTokens(ts)
    ensures SplitAll(ts) == ts
    decreases |ts|
  {
    if ts != [] {
      SplitToken(ts[0]);
      SplitAllTokens(ts[1..]);
    }
  }

  /** The round trip `' '.join(ts).split() == ts` for non-empty, whitespace-free tokens. */
  lemma SplitJoinRoundTrip(ts: seq<string>)
    requires AllTokens(ts)
    ensures Split(Join(ts)) == ts
  {
    SplitJoin(ts);
    SplitAllTokens(ts);
  }

  /** Re-joining the tokens of a string with single spaces and splitting again gives back the
      same tokens. */
  lemma SplitJoinSplit(s: string)
    ensures Split(Join(Split(s))) == Split(s)
  {
    SplitJoinRoundTrip(Split(s));
  }

  /** The tokens, concatenated without separators. */
  function Concat(ts: seq<string>): string
  {
    if ts == [] then "" else ts[0] + Concat(ts[1..])
  }

  predicate IsNonSpace(c: char) {
    !IsSpace(c)
  }

  /** Splitting drops the whitespace and nothing else: the tokens, put back together, are the
      non-whitespace characters of the input in their original order. */
  lemma {:induction false} SplitKeepsNonSpace(s: string)
    ensures Concat(Split(s)) == Filter(IsNonSpace, s)
    decreases |s|
  {
    if s != [] {
      if IsSpace(s[0]) {
        SplitKeepsNonSpace(s[1..]);
      } else {
        var w := Word(s);
        var rest := s[|w|..];
        assert s == w + rest;
        FilterAppend(IsNonSpace, w, rest);
        FilterUnchanged(IsNonSpace, w);
        SplitKeepsNonSpace(rest);
        assert Split(s) == [w] + Split(rest);
        assert ([w] + Split(rest))[1..] == Split(rest);
      }
    }
  }
}
