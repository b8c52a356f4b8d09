/**
 * Python's ordering of `str` values (lexicographic by code point) and the
 * sorts the shell applies to directory listings: `sorted(...)` ascending and
 * `list.sort(reverse=True)` descending.
 */
module StringOrder {

  /** `a < b` on Python strings. */
  predicate Below(a: string, b: string)
    decreases |a|
  {
    if a == [] then b != []
    else if b == [] then false
    else a[0] < b[0] || (a[0] == b[0] && Below(a[1..], b[1..]))
  }

  /** `a <= b` on Python strings. */
  predicate AtMost(a: string, b: string)
  {
    a == b || Below(a, b)
  }

  lemma {:induction false} BelowIrreflexive(a: string)
    ensures !Below(a, a)
    decreases |a|
  {
    if a != [] {
      BelowIrreflexive(a[1..]);
    }
  }

  lemma {:induction false} BelowTransitive(a: string, b: string, c: string)
    requires Below(a, b) && Below(b, c)
    ensures Below(a, c)
    decreases |a|
  {
    if a != [] && a[0] == b[0] && b[0] == c[0] {
      BelowTransitive(a[1..], b[1..], c[1..]);
    }
  }

  /** Any two strings are equal or ordered one way or the other. */
  lemma {:induction false} BelowTotal(a: string, b: string)
    ensures a == b || Below(a, b) || Below(b, a)
    decreases |a|
  {
    if a != [] && b != [] && a[0] == b[0] {
      BelowTotal(a[1..], b[1..]);
      if a[1..] == b[1..] {
        assert a == [a[0]] + a[1..] && b == [b[0]] + b[1..];
      }
    }
  }

  lemma {:induction false} BelowAsymmetric(a: string, b: string)
    requires Below(a, b)
    ensures !Below(b, a)
    decreases |a|
  {
    if a != [] && a[0] == b[0] {
      BelowAsymmetric(a[1..], b[1..]);
    }
  }

  lemma AtMostTransitive(a: string, b: string, c: string)
    requires AtMost(a, b) && AtMost(b, c)
    ensures AtMost(a, c)
  {
    if a != b && b != c {
      BelowTransitive(a, b, c);
    }
  }

  /** Each element is at most the next one. */
  predicate Ascending(xs: seq<string>)
  {
    forall i :: 0 < i < |xs| ==> AtMost(xs[i - 1], xs[i])
  }

  /** Each element is at least the next one. */
  predicate Descending(xs: seq<string>)
  {
    forall i :: 0 < i < |xs| ==> AtMost(xs[i], xs[i - 1])
  }

  /** Neighbour order extends to every pair of positions. */
  lemma {:induction false} AscendingPairs(xs: seq<string>, i: nat, j: nat)
    requires Ascending(xs) && i <= j < |xs|
    ensures AtMost(xs[i], xs[j])
    decreases j - i
  {
    if i < j {
      AscendingPairs(xs, i, j - 1);
      AtMostTransitive(xs[i], xs[j - 1], xs[j]);
    }
  }

  /** `x` placed before the first element it does not exceed. */
  function Insert(x: string, xs: seq<string>): (r: seq<string>)
    requires Ascending(xs)
    ensures Ascending(r)
    ensures multiset(r) == multiset(xs) + multiset{x}
    ensures r[0] == x || (xs != [] && r[0] == xs[0])
    decreases |xs|
  {
    if xs == [] then [x]
    else if AtMost(x, xs[0]) then [x] + xs
    else
      BelowTotal(x, xs[0]);
      var rest := Insert(x, xs[1..]);
      assert xs == [xs[0]] + xs[1..];
      assert AtMost(xs[0], rest[0]) by {
        if xs[1..] != [] {
          assert AtMost(xs[0], xs[1..][0]);
        }
      }
      [xs[0]] + rest
  }

  /** `sorted(xs)`: the ascending permutation of `xs`. */
  function Sort(xs: seq<string>): (r: seq<string>)
    ensures Ascending(r)
    ensures multiset(r) == multiset(xs)
    decreases |xs|
  {
    if xs == [] then []
    else
      assert xs == [xs[0]] + xs[1..];
      Insert(xs[0], Sort(xs[1..]))
  }

  function Reverse(xs: seq<string>): (r: seq<string>)
    ensures |r| == |xs|
    ensures forall i :: 0 <= i < |xs| ==> r[i] == xs[|xs| - 1 - i]
  {
    seq(|xs|, i requires 0 <= i < |xs| => xs[|xs| - 1 - i])
  }

  /** `xs.sort(reverse=True)`: the descending permutation of `xs`. */
  function SortDescending(xs: seq<string>): seq<string>
  {
    Reverse(Sort(xs))
  }

  lemma {:induction false} ReverseMultiset(xs: seq<string>)
    ensures multiset(Reverse(xs)) == multiset(xs)
    decreases |xs|
  {
    if xs != [] {
      var r := Reverse(xs);
      var last := xs[|xs| - 1];
      var init := xs[..|xs| - 1];
      ReverseMultiset(init);
      assert r == [last] + Reverse(init);
      assert xs == init + [last];
    }
  }

  /** The descending sort orders its result from the greatest down and keeps
      every element with its multiplicity. */
  lemma SortDescendingSpec(xs: seq<string>)
    ensures Descending(SortDescending(xs))
    ensures multiset(SortDescending(xs)) == multiset(xs)
  {
    var s := Sort(xs);
    ReverseMultiset(s);
    var r := Reverse(s);
    forall i | 0 < i < |r|
      ensures AtMost(r[i], r[i - 1])
    {
      assert r[i] == s[|s| - 1 - i] && r[i - 1] == s[|s| - 1 - i + 1];
    }
  }
}
