/**
 * The POSIX flavour of Python's `os.path` used on the device: `dirname`,
 * `basename`, two-argument `join` and `splitext`, on paths separated by '/'.
 */
module Paths {
  import opened Strings
  import Wrappers

  /** `p.rfind('/') + 1`: where the last component starts. */
  function SepCut(p: string): (r: nat)
    ensures r <= |p|
    ensures '/' !in p[r..]
    ensures r > 0 ==> p[r - 1] == '/'
    decreases |p|
  {
    if p == [] then 0
    else if p[|p| - 1] == '/' then |p|
    else
      var r := SepCut(p[..|p| - 1]);
      assert p[r..] == p[..|p| - 1][r..] + [p[|p| - 1]];
      r
  }

  predicate AllSlashes(s: string)
  {
    forall i :: 0 <= i < |s| ==> s[i] == '/'
  }

  /** `s.rstrip('/')` */
  function RStripSlashes(s: string): (r: string)
    ensures IsPrefix(r, s)
    ensures r == [] || r[|r| - 1] != '/'
    ensures forall i :: |r| <= i < |s| ==> s[i] == '/'
    decreases |s|
  {
    if s != [] && s[|s| - 1] == '/' then RStripSlashes(s[..|s| - 1]) else s
  }

  /** `posixpath.basename` */
  function Basename(p: string): (r: string)
    ensures '/' !in r
    ensures IsSuffix(r, p)
  {
    p[SepCut(p)..]
  }

  /** `posixpath.dirname`: everything up to the last '/', with trailing
      slashes removed unless the head consists of slashes only. */
  function Dirname(p: string): string
  {
    var head := p[..SepCut(p)];
    if head != [] && !AllSlashes(head) then RStripSlashes(head) else head
  }

  /** `posixpath.join(a, b)` */
  function Join(a: string, b: string): string
  {
    if b != [] && b[0] == '/' then b
    else if a == [] || a[|a| - 1] == '/' then a + b
    else a + "/" + b
  }

  /** The shapes `dirname` can return: nothing, a run of slashes, or a path
      that does not end in a slash. */
  predicate IsDirname(d: string)
  {
    d == [] || AllSlashes(d) || d[|d| - 1] != '/'
  }

  lemma DirnameShape(p: string)
    ensures IsDirname(Dirname(p))
  {
  }

  lemma {:induction false} SepCutNoSlashTail(a: string, t: string)
    requires '/' !in t
    ensures SepCut(a + t) == SepCut(a)
    decreases |t|
  {
    if t != [] {
      var at := a + t;
      assert at[..|at| - 1] == a + t[..|t| - 1];
      assert t[|t| - 1] in t;
      SepCutNoSlashTail(a, t[..|t| - 1]);
    } else {
      assert a + t == a;
    }
  }

  /**
   * Joining a directory as `dirname` returns it to a single component gives
   * back that directory and that component.
   */
  lemma JoinName(d: string, name: string)
    requires IsDirname(d) && name != [] && '/' !in name
    ensures Dirname(Join(d, name)) == d
    ensures Basename(Join(d, name)) == name
  {
    assert name[0] in name;
    if d == [] {
      assert Join(d, name) == [] + name;
      SepCutNoSlashTail([], name);
    } else if d[|d| - 1] == '/' {
      var p := d + name;
      SepCutNoSlashTail(d, name);
      assert SepCut(d) == |d|;
      assert p[..|d|] == d && p[|d|..] == name;
    } else {
      var ds := d + "/";
      var p := ds + name;
      assert Join(d, name) == p;
      SepCutNoSlashTail(ds, name);
      assert SepCut(ds) == |ds|;
      assert p[..|ds|] == ds && p[|ds|..] == name;
      assert ds[|d| - 1] != '/';
      assert ds[..|ds| - 1] == d;
    }
  }

  /** `posixpath.splitext` on a path: the extension starts at the last '.'
      of the last component, unless that component is only dots before it. */
  function SplitExt(p: string): (r: (string, string))
    ensures r.0 + r.1 == p
  {
    var cut := SepCut(p);
    var dots := DotIndexFrom(p, cut);
    if dots.None? then (p, [])
    else if AllDots(p[cut..dots.value]) then (p, [])
    else (p[..dots.value], p[dots.value..])
  }

  predicate AllDots(s: string)
  {
    forall i :: 0 <= i < |s| ==> s[i] == '.'
  }

  /** The last '.' at or after `from`, if any. */
  function DotIndexFrom(p: string, from: nat): (r: Wrappers.Option<nat>)
    requires from <= |p|
    ensures r.Some? ==> from <= r.value < |p| && p[r.value] == '.' && '.' !in p[r.value + 1..]
    ensures r.None? ==> '.' !in p[from..]
    decreases |p| - from
  {
    if from == |p| then Wrappers.None
    else
      var later := DotIndexFrom(p, from + 1);
      if later.Some? then later
      else if p[from] == '.' then
        Wrappers.Some(from)
      else
        assert p[from..] == [p[from]] + p[from + 1..];
        Wrappers.None
  }

}
