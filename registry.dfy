/**
 * The task registry's values: the two dictionaries of running tasks (as
 * Python dictionaries, which remember insertion order), the records they
 * hold, the display name of a host package and the `kind:id` references
 * the task switcher hands around.
 */
module TaskRegistry {
  import opened Wrappers
  import opened Strings
  import Json

  /**
   * A Python dictionary with string keys: `keys` is the iteration order,
   * `values` the contents.
   */
  datatype Dict<V> = Dict(keys: seq<string>, values: map<string, V>)

  /** Each key is listed once, and exactly the stored keys are listed. */
  ghost predicate Valid<V>(d: Dict<V>)
  {
    NoDuplicates(d.keys) && (forall k :: k in d.keys <==> k in d.values)
  }

  predicate NoDuplicates(xs: seq<string>)
    decreases |xs|
  {
    xs == [] || (xs[0] !in xs[1..] && NoDuplicates(xs[1..]))
  }

  /** A fresh element can be appended without creating a duplicate. */
  lemma {:induction false} AppendFresh(xs: seq<string>, k: string)
    requires NoDuplicates(xs) && k !in xs
    ensures NoDuplicates(xs + [k])
    decreases |xs|
  {
    if xs != [] {
      assert (xs + [k])[1..] == xs[1..] + [k];
      AppendFresh(xs[1..], k);
    } else {
      assert [] + [k] == [k] && [k][1..] == [];
    }
  }

  function EmptyDict<V>(): (r: Dict<V>)
    ensures Valid(r) && r.values == map[]
  {
    Dict([], map[])
  }

  /** `d[k] = v`: a new key goes to the end, an existing one keeps its place. */
  function Put<V>(d: Dict<V>, k: string, v: V): (r: Dict<V>)
    requires Valid(d)
    ensures Valid(r)
    ensures r.values == d.values[k := v]
    ensures k in d.values ==> r.keys == d.keys
    ensures k !in d.values ==> r.keys == d.keys + [k]
  {
    if k in d.values then Dict(d.keys, d.values[k := v])
    else
      AppendFresh(d.keys, k);
      Dict(d.keys + [k], d.values[k := v])
  }

  /** `xs` without the element `k`. */
  function Without(xs: seq<string>, k: string): (r: seq<string>)
    ensures forall x :: x in r <==> x in xs && x != k
    ensures |r| <= |xs|
    decreases |xs|
  {
    if xs == [] then []
    else if xs[0] == k then Without(xs[1..], k)
    else [xs[0]] + Without(xs[1..], k)
  }

  /** Removing an element keeps the others listed once. */
  lemma {:induction false} WithoutDistinct(xs: seq<string>, k: string)
    requires NoDuplicates(xs)
    ensures NoDuplicates(Without(xs, k))
    decreases |xs|
  {
    if xs != [] {
      WithoutDistinct(xs[1..], k);
    }
  }

  /** `del d[k]` */
  function Remove<V>(d: Dict<V>, k: string): (r: Dict<V>)
    requires Valid(d)
    ensures Valid(r)
    ensures r.values == d.values - {k}
  {
    WithoutDistinct(d.keys, k);
    Dict(Without(d.keys, k), d.values - {k})
  }

  /** `del d[k]` leaves every other entry, and the order of the others, untouched. */
  lemma RemoveKeepsOthers<V>(d: Dict<V>, k: string, other: string)
    requires Valid(d) && other != k
    ensures other in Remove(d, k).values <==> other in d.values
    ensures other in d.values ==> Remove(d, k).values[other] == d.values[other]
    ensures Remove(d, k).keys == Without(d.keys, k)
  {
  }

  /** Storing under a key that is already present changes neither the keys
      nor their order; storing the same value again changes nothing. */
  lemma PutExisting<V>(d: Dict<V>, k: string, v: V)
    requires Valid(d) && k in d.values
    ensures Put(d, k, v).keys == d.keys
    ensures Put(d, k, v).values.Keys == d.values.Keys
    ensures v == d.values[k] ==> Put(d, k, v) == d
  {
  }

  /** A dialog window showing an internal app; windows are told apart by a number. */
  type Window = nat

  /** An entry of `running_internal_apps`. */
  datatype InternalTask = InternalTask(window: Window, manifest: map<string, Json.Value>, started: int)

  /** An entry of `running_android_apps`. */
  datatype AndroidTask = AndroidTask(name: string, icon: string, started: string)

  /** `pkg.split('.')[-1].capitalize()`: the last dotted part of a package, capitalised. */
  function NiceName(pkg: string): (r: string)
    ensures |r| == |LastSegment(pkg, '.')|
  {
    Capitalize(LastSegment(pkg, '.'))
  }

  /** The name shown for `com.vendor.app` is `App`, however many parts come first. */
  lemma NiceNameOfPackage(prefix: string, last: string)
    requires '.' !in last
    ensures NiceName(prefix + "." + last) == Capitalize(last)
  {
    assert prefix + "." + last == prefix + ['.'] + last;
    LastSegmentAfter(prefix, '.', last);
  }

  /** A package without dots is shown whole, capitalised. */
  lemma NiceNameUndotted(pkg: string)
    requires '.' !in pkg
    ensures NiceName(pkg) == Capitalize(pkg)
  {
  }

  const InternalKind: string := "internal"
  const AndroidKind: string := "android"

  /** The reference the switcher uses for a task: `<kind>:<id>`. */
  function TaskRef(kind: string, id: string): string
  {
    kind + ":" + id
  }

  /** `task_type, real_id = ref.split(':', 1)`; `None` where the unpacking raises. */
  function ParseTaskRef(ref: string): (r: Option<(string, string)>)
    ensures r.None? <==> ':' !in ref
    ensures r.Some? ==> TaskRef(r.value.0, r.value.1) == ref
  {
    var parts := SplitOnce(ref, ':');
    if parts.Some? then
      assert parts.value.0 + ":" + parts.value.1 == parts.value.0 + [':'] + parts.value.1;
      parts
    else None
  }

  /** Reading a reference gives back the kind and the id it was made of; the
      id may itself contain ':'. */
  lemma TaskRefRoundTrip(kind: string, id: string)
    requires ':' !in kind
    ensures ParseTaskRef(TaskRef(kind, id)) == Some((kind, id))
  {
    assert kind + ":" + id == kind + [':'] + id;
    SplitOnceJoin(kind, ':', id);
  }
}
