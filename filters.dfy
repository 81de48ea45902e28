/** Python's `''.join(filter(keep, s))`: the characters of `s` that `keep` accepts, in their
    original order, and nothing else. */
module Filters {

  function Filter(keep: char -> bool, s: string): (r: string)
    ensures |r| <= |s|
  {
    if s == [] then []
    else (if keep(s[0]) then [s[0]] else []) + Filter(keep, s[1..])
  }

  /** The result holds the kept characters of the input and nothing else. */
  lemma {:induction false} FilterMembership(keep: char -> bool, s: string)
    ensures forall i :: 0 <= i < |Filter(keep, s)| ==> keep(Filter(keep, s)[i])
    ensures forall x :: x in Filter(keep, s) <==> x in s && keep(x)
    decreases |s|
  {
    if s != [] {
      FilterMembership(keep, s[1..]);
    }
  }

  /** `r` is `s` with some elements deleted and the rest left in order. */
  ghost predicate IsSubsequence(r: string, s: string)
    decreases |s|
  {
    if r == [] then true
    else if s == [] then false
    else (r[0] == s[0] && IsSubsequence(r[1..], s[1..])) || IsSubsequence(r, s[1..])
  }

  lemma {:induction false} FilterIsSubsequence(keep: char -> bool, s: string)
    ensures IsSubsequence(Filter(keep, s), s)
    decreases |s|
  {
    if s != [] {
      FilterIsSubsequence(keep, s[1..]);
      var r := Filter(keep, s);
      if keep(s[0]) {
        assert r[0] == s[0] && r[1..] == Filter(keep, s[1..]);
      } else {
        assert r == Filter(keep, s[1..]);
      }
    }
  }

  /** Filtering works element by element: it distributes over concatenation. */
  lemma {:induction false} FilterAppend(keep: char -> bool, a: string, b: string)
    ensures Filter(keep, a + b) == Filter(keep, a) + Filter(keep, b)
    decreases |a|
  {
    if a == [] {
      assert a + b == b;
    } else {
      var head := if keep(a[0]) then [a[0]] else [];
      assert (a + b)[0] == a[0];
      assert (a + b)[1..] == a[1..] + b;
      assert Filter(keep, a + b) == head + Filter(keep, a[1..] + b);
      FilterAppend(keep, a[1..], b);
      assert head + (Filter(keep, a[1..]) + Filter(keep, b)) == (head + Filter(keep, a[1..])) + Filter(keep, b);
    }
  }

  /** Every occurrence of a kept element survives, every occurrence of a dropped one goes. */
  lemma {:induction false} FilterCount(keep: char -> bool, s: string, x: char)
    ensures multiset(Filter(keep, s))[x] == if keep(x) then multiset(s)[x] else 0
    decreases |s|
  {
    if s != [] {
      FilterCount(keep, s[1..], x);
      assert s == [s[0]] + s[1..];
      assert multiset(s) == multiset([s[0]]) + multiset(s[1..]);
    }
  }

  /** A sequence is left unchanged exactly when every element is kept. */
  lemma {:induction false} FilterUnchanged(keep: char -> bool, s: string)
    ensures Filter(keep, s) == s <==> forall i :: 0 <= i < |s| ==> keep(s[i])
    decreases |s|
  {
    if s != [] {
      FilterUnchanged(keep, s[1..]);
      FilterMembership(keep, s);
      if !keep(s[0]) {
        assert |Filter(keep, s)| < |s|;
      } else if forall i :: 0 <= i < |s| ==> keep(s[i]) {
        assert forall i :: 0 <= i < |s[1..]| ==> keep(s[1..][i]);
      } else {
        var i :| 0 <= i < |s| && !keep(s[i]);
        assert s[i] in s;
        assert s[i] !in Filter(keep, s);
      }
    }
  }

  lemma FilterIdempotent(keep: char -> bool, s: string)
    ensures Filter(keep, Filter(keep, s)) == Filter(keep, s)
  {
    FilterMembership(keep, s);
    FilterUnchanged(keep, Filter(keep, s));
  }
}
