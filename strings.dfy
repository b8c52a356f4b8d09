/**
 * String primitives with the semantics of the Python `str` methods the shell
 * relies on: prefix/suffix tests, substring search, `replace`, `strip`,
 * `split`, and ASCII case mapping.
 */
module Strings {
  import Wrappers

  /** `s.startswith(p)` */
  predicate IsPrefix(p: string, s: string)
  {
    |p| <= |s| && s[..|p|] == p
  }

  /** `s.endswith(p)` */
  predicate IsSuffix(p: string, s: string)
  {
    |p| <= |s| && s[|s| - |p|..] == p
  }

  /** A suffix of a suffix is a suffix. */
  lemma SuffixTransitive(a: string, b: string, c: string)
    requires IsSuffix(a, b) && IsSuffix(b, c)
    ensures IsSuffix(a, c)
  {
    assert c[|c| - |a|..] == c[|c| - |b|..][|b| - |a|..];
  }

  /** `pat in s`, scanning from the front. */
  predicate Contains(s: string, pat: string)
    decreases |s|
  {
    IsPrefix(pat, s) || (s != [] && Contains(s[1..], pat))
  }

  /** `pat` occurs at index `i` of `s`. */
  ghost predicate OccursAt(s: string, pat: string, i: int)
  {
    0 <= i && i + |pat| <= |s| && s[i..i + |pat|] == pat
  }

  /** An occurrence at any index is found by the recursive search. */
  lemma {:induction false} OccursContains(s: string, pat: string, i: int)
    requires OccursAt(s, pat, i)
    ensures Contains(s, pat)
    decreases i
  {
    if i > 0 {
      assert s[1..][i - 1..i - 1 + |pat|] == s[i..i + |pat|];
      OccursContains(s[1..], pat, i - 1);
    }
  }

  /** What the recursive search finds is an occurrence at some index. */
  lemma {:induction false} ContainsOccurs(s: string, pat: string) returns (i: int)
    requires Contains(s, pat)
    ensures OccursAt(s, pat, i)
    decreases |s|
  {
    if IsPrefix(pat, s) {
      i := 0;
    } else {
      var j := ContainsOccurs(s[1..], pat);
      assert s[j + 1..j + 1 + |pat|] == s[1..][j..j + |pat|];
      i := j + 1;
    }
  }

  /** A character that does not occur is not a substring. */
  lemma {:induction false} CharAbsent(s: string, c: char)
    requires c !in s
    ensures !Contains(s, [c])
    decreases |s|
  {
    if s != [] {
      assert s[0] != c;
      assert s[1..] == s[1..] && forall k :: 0 <= k < |s[1..]| ==> s[1..][k] == s[k + 1];
      CharAbsent(s[1..], c);
    }
  }

  /** `s.replace(pat, rep)` for a non-empty `pat`: every non-overlapping
      occurrence, found left to right, is replaced; the replacement text is
      not searched again. */
  function ReplaceAll(s: string, pat: string, rep: string): string
    requires |pat| > 0
    decreases |s|
  {
    if |s| < |pat| then s
    else if s[..|pat|] == pat then rep + ReplaceAll(s[|pat|..], pat, rep)
    else [s[0]] + ReplaceAll(s[1..], pat, rep)
  }

  /** Replacing a pattern that does not occur leaves the string unchanged. */
  lemma {:induction false} ReplaceAbsent(s: string, pat: string, rep: string)
    requires |pat| > 0 && !Contains(s, pat)
    ensures ReplaceAll(s, pat, rep) == s
    decreases |s|
  {
    if |s| >= |pat| {
      ReplaceAbsent(s[1..], pat, rep);
      assert [s[0]] + s[1..] == s;
    }
  }

  /** A text in which the pattern's first character does not occur is
      copied unchanged, and the replacing goes on after it. */
  lemma {:induction false} ReplaceSkip(a: string, b: string, pat: string, rep: string)
    requires |pat| > 0 && pat[0] !in a
    ensures ReplaceAll(a + b, pat, rep) == a + ReplaceAll(b, pat, rep)
    decreases |a|
  {
    if a != [] {
      var s := a + b;
      assert s[0] == a[0] && s[1..] == a[1..] + b;
      if |s| >= |pat| {
        assert s[..|pat|][0] != pat[0];
      }
      ReplaceSkip(a[1..], b, pat, rep);
      assert [a[0]] + (a[1..] + ReplaceAll(b, pat, rep)) == a + ReplaceAll(b, pat, rep);
    } else {
      assert a + b == b;
    }
  }

  /** A character in neither the text nor the replacement is not in the result. */
  lemma {:induction false} ReplaceKeepsAbsent(s: string, pat: string, rep: string, c: char)
    requires |pat| > 0 && c !in s && c !in rep
    ensures c !in ReplaceAll(s, pat, rep)
    decreases |s|
  {
    if |s| >= |pat| {
      if s[..|pat|] == pat {
        ReplaceKeepsAbsent(s[|pat|..], pat, rep, c);
      } else {
        ReplaceKeepsAbsent(s[1..], pat, rep, c);
      }
    }
  }

  /** A text free of `pat`, followed by one `pat`, loses exactly that
      occurrence to `replace` when `pat` cannot overlap itself (its first
      character does not occur again in it). */
  lemma {:induction false} ReplaceTrailing(x: string, pat: string, rep: string)
    requires |pat| > 0 && pat[0] !in pat[1..] && !Contains(x, pat)
    ensures ReplaceAll(x + pat, pat, rep) == x + rep
    decreases |x|
  {
    if x == [] {
      assert x + pat == pat && pat[|pat|..] == [];
    } else {
      var s := x + pat;
      var t := x[1..];
      NoMatchInFront(x, pat);
      assert !Contains(t, pat);
      ReplaceTrailing(t, pat, rep);
      assert s[1..] == t + pat;
      assert s[0] == x[0] && |s| >= |pat|;
      assert ReplaceAll(s, pat, rep) == [x[0]] + ReplaceAll(t + pat, pat, rep);
      assert [x[0]] + (t + rep) == x + rep;
    }
  }

  /** When `x` is non-empty and free of `pat`, `x + pat` does not start with `pat`. */
  lemma NoMatchInFront(x: string, pat: string)
    requires |pat| > 0 && pat[0] !in pat[1..] && x != [] && !Contains(x, pat)
    ensures (x + pat)[..|pat|] != pat
  {
    var s := x + pat;
    if |x| < |pat| {
      assert s[..|pat|][|x|] == pat[0];
      assert pat[|x|] == pat[1..][|x| - 1];
    } else {
      assert !IsPrefix(pat, x);
      assert s[..|pat|] == x[..|pat|];
    }
  }

  /** Whitespace as Python's `str.isspace` defines it. */
  predicate IsSpace(c: char)
  {
    c in {' ', '\t', '\n', '\r', '\U{000B}', '\U{000C}', '\U{001C}', '\U{001D}', '\U{001E}',
          '\U{001F}', '\U{0085}', '\U{00A0}', '\U{1680}', '\U{2000}', '\U{2001}', '\U{2002}',
          '\U{2003}', '\U{2004}', '\U{2005}', '\U{2006}', '\U{2007}', '\U{2008}', '\U{2009}',
          '\U{200A}', '\U{2028}', '\U{2029}', '\U{202F}', '\U{205F}', '\U{3000}'}
  }

  /** `s.lstrip()`: the longest suffix of `s` that does not start with whitespace. */
  function LStrip(s: string): (r: string)
    ensures IsSuffix(r, s)
    ensures r == [] || !IsSpace(r[0])
    ensures forall i :: 0 <= i < |s| - |r| ==> IsSpace(s[i])
    decreases |s|
  {
    if s != [] && IsSpace(s[0]) then LStrip(s[1..]) else s
  }

  lemma LStripIdempotent(s: string)
    ensures LStrip(LStrip(s)) == LStrip(s)
  {
  }

  /** `s.rstrip()`: the longest prefix of `s` that does not end with whitespace. */
  function RStrip(s: string): (r: string)
    ensures IsPrefix(r, s)
    ensures r == [] || !IsSpace(r[|r| - 1])
    ensures forall i :: |r| <= i < |s| ==> IsSpace(s[i])
    decreases |s|
  {
    if s != [] && IsSpace(s[|s| - 1]) then RStrip(s[..|s| - 1]) else s
  }

  /** `s.strip()` */
  function Strip(s: string): string
  {
    RStrip(LStrip(s))
  }

  /** Stripping twice is stripping once. */
  lemma StripIdempotent(s: string)
    ensures Strip(Strip(s)) == Strip(s)
  {
    var l := LStrip(s);
    var t := RStrip(l);
    if t != [] {
      assert t[0] == l[0];
      StripTrimmed(t);
    }
  }

  /** A string with no whitespace at either end is its own strip. */
  lemma StripTrimmed(s: string)
    requires s == [] || (!IsSpace(s[0]) && !IsSpace(s[|s| - 1]))
    ensures Strip(s) == s
  {
  }

  /** `s.split(c)`: the pieces between the separators, always at least one. */
  function Split(s: string, c: char): (r: seq<string>)
    ensures |r| >= 1
    ensures forall k :: 0 <= k < |r| ==> c !in r[k]
    ensures |r| == 1 <==> c !in s
    ensures c !in s ==> r == [s]
    decreases |s|
  {
    if s == [] then [[]]
    else
      var rest := Split(s[1..], c);
      assert s == [s[0]] + s[1..];
      if s[0] == c then [[]] + rest
      else [[s[0]] + rest[0]] + rest[1..]
  }

  /** `c.join(parts)` */
  function Join(parts: seq<string>, c: char): string
    decreases |parts|
  {
    if parts == [] then []
    else if |parts| == 1 then parts[0]
    else parts[0] + [c] + Join(parts[1..], c)
  }

  /** A separator-free prefix followed by the separator splits off as the first piece. */
  lemma {:induction false} SplitFirst(a: string, c: char, b: string)
    requires c !in a
    ensures Split(a + [c] + b, c) == [a] + Split(b, c)
    decreases |a|
  {
    if a == [] {
      assert (a + [c] + b)[1..] == b;
    } else {
      assert (a + [c] + b)[1..] == a[1..] + [c] + b;
      SplitFirst(a[1..], c, b);
      assert [a[0]] + a[1..] == a;
    }
  }

  /** Splitting is the inverse of joining separator-free pieces. */
  lemma {:induction false} SplitJoin(parts: seq<string>, c: char)
    requires |parts| >= 1
    requires forall k :: 0 <= k < |parts| ==> c !in parts[k]
    ensures Split(Join(parts, c), c) == parts
    decreases |parts|
  {
    if |parts| == 1 {
      assert Split(parts[0], c) == [parts[0]];
    } else {
      SplitJoin(parts[1..], c);
      SplitFirst(parts[0], c, Join(parts[1..], c));
      assert [parts[0]] + parts[1..] == parts;
    }
  }

  /** `s.split(c, 1)` unpacked into two names: the text before the first `c`
      and the text after it, or `None` where Python raises `ValueError`
      because `c` does not occur. */
  function SplitOnce(s: string, c: char): (r: Wrappers.Option<(string, string)>)
    ensures r.None? <==> c !in s
    ensures r.Some? ==> r.value.0 + [c] + r.value.1 == s && c !in r.value.0
    decreases |s|
  {
    if s == [] then Wrappers.None
    else if s[0] == c then
      assert s == [] + [c] + s[1..];
      Wrappers.Some(([], s[1..]))
    else
      var rest := SplitOnce(s[1..], c);
      assert s == [s[0]] + s[1..];
      if rest.None? then Wrappers.None
      else
        assert [s[0]] + rest.value.0 + [c] + rest.value.1 == [s[0]] + (rest.value.0 + [c] + rest.value.1);
        Wrappers.Some(([s[0]] + rest.value.0, rest.value.1))
  }

  /** Splitting at the first separator undoes putting a separator-free head in front. */
  lemma {:induction false} SplitOnceJoin(a: string, c: char, b: string)
    requires c !in a
    ensures SplitOnce(a + [c] + b, c) == Wrappers.Some((a, b))
    decreases |a|
  {
    var s := a + [c] + b;
    if a == [] {
      assert s[1..] == b;
    } else {
      assert s[0] == a[0] && s[1..] == a[1..] + [c] + b;
      SplitOnceJoin(a[1..], c, b);
      assert [a[0]] + a[1..] == a;
    }
  }

  /** A string that starts with a separator-free head and the separator splits right after that head. */
  lemma SplitOnceAfterPrefix(head: string, c: char, s: string)
    requires c !in head && IsPrefix(head + [c], s)
    ensures SplitOnce(s, c) == Wrappers.Some((head, s[|head| + 1..]))
  {
    assert s == head + [c] + s[|head| + 1..];
    SplitOnceJoin(head, c, s[|head| + 1..]);
  }

  /** `s.split(c)[-1]`: the text after the last separator. */
  function LastSegment(s: string, c: char): (r: string)
    ensures c !in r
  {
    var parts := Split(s, c);
    parts[|parts| - 1]
  }

  /** The last segment is exactly the tail of `s` after its last separator. */
  lemma {:induction false} LastSegmentIsTail(s: string, c: char)
    ensures IsSuffix(LastSegment(s, c), s)
    ensures |LastSegment(s, c)| < |s| ==> s[|s| - |LastSegment(s, c)| - 1] == c
    decreases |s|
  {
    if s != [] {
      var t := s[1..];
      LastSegmentIsTail(t, c);
      var rest := Split(t, c);
      var last := LastSegment(t, c);
      assert s == [s[0]] + t;
      if s[0] != c && |rest| == 1 {
        assert Split(s, c) == [[s[0]] + rest[0]];
        assert LastSegment(s, c) == s;
      } else {
        assert Split(s, c)[|Split(s, c)| - 1] == rest[|rest| - 1];
        assert LastSegment(s, c) == last;
        assert t[|t| - |last|..] == s[|s| - |last|..];
      }
    }
  }

  /** What follows the last separator is the last segment, whatever precedes it. */
  lemma {:induction false} LastSegmentAfter(a: string, c: char, b: string)
    requires c !in b
    ensures LastSegment(a + [c] + b, c) == b
    decreases |a|
  {
    var s := a + [c] + b;
    if a == [] {
      assert s[1..] == b;
      assert Split(s, c) == [[]] + [b];
    } else {
      var t := a[1..] + [c] + b;
      assert s[1..] == t && s[0] == a[0];
      LastSegmentAfter(a[1..], c, b);
      var rest := Split(t, c);
      assert c in t by { assert t[|a| - 1] == c; }
      assert |rest| >= 2;
      assert Split(s, c)[|Split(s, c)| - 1] == rest[|rest| - 1];
    }
  }

  /** The digit character for `d`. */
  function Digit(d: nat): (r: char)
    requires d < 10
    ensures '0' <= r <= '9'
  {
    ('0' as int + d) as char
  }

  /** `str(n)`: the decimal digits of `n`, without leading zeros. */
  function NatToString(n: nat): (r: string)
    ensures |r| >= 1
    ensures forall i :: 0 <= i < |r| ==> '0' <= r[i] <= '9'
    decreases n
  {
    if n < 10 then [Digit(n)] else NatToString(n / 10) + [Digit(n % 10)]
  }

  /** The number a string of decimal digits denotes. */
  function DecimalValue(s: string): nat
    requires forall i :: 0 <= i < |s| ==> '0' <= s[i] <= '9'
    decreases |s|
  {
    if s == [] then 0
    else DecimalValue(s[..|s| - 1]) * 10 + (s[|s| - 1] as int - '0' as int)
  }

  /** Reading the digits back gives the number. */
  lemma {:induction false} NatToStringRoundTrip(n: nat)
    ensures DecimalValue(NatToString(n)) == n
    decreases n
  {
    var r := NatToString(n);
    if n >= 10 {
      NatToStringRoundTrip(n / 10);
      assert r[..|r| - 1] == NatToString(n / 10);
    } else {
      assert r[..0] == [];
    }
  }

  /** Different numbers are written differently. */
  lemma NatToStringInjective(m: nat, n: nat)
    requires NatToString(m) == NatToString(n)
    ensures m == n
  {
    NatToStringRoundTrip(m);
    NatToStringRoundTrip(n);
  }

  /** ASCII lower case, the part of `str.lower` this model covers. */
  function LowerChar(c: char): char
  {
    if 'A' <= c <= 'Z' then (c as int + 32) as char else c
  }

  function UpperChar(c: char): char
  {
    if 'a' <= c <= 'z' then (c as int - 32) as char else c
  }

  /** `s.lower()` on ASCII letters. */
  function Lower(s: string): (r: string)
    ensures |r| == |s|
    ensures forall i :: 0 <= i < |s| ==> r[i] == LowerChar(s[i])
  {
    seq(|s|, i requires 0 <= i < |s| => LowerChar(s[i]))
  }

  /** `s.capitalize()` on ASCII letters: first character upper case, the rest lower case. */
  function Capitalize(s: string): (r: string)
    ensures |r| == |s|
    ensures s != [] ==> r[0] == UpperChar(s[0]) && r[1..] == Lower(s[1..])
  {
    if s == [] then [] else [UpperChar(s[0])] + Lower(s[1..])
  }
}
