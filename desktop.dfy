/**
 * The desktop of the shell: the tags typed in a file's properties, the
 * search filter over the current folder, and the creation of new items with
 * a name that is not yet taken. The folder listing, which paths exist and
 * each file's stored attributes are inputs.
 */
module Desktop {
  import opened Strings
  import Json
  import Paths
  import StringOrder
  import Icons

  // -------------------------------------------------------------------
  // Tags

  /** The pieces of a split text, stripped, with the empty ones dropped. */
  function CleanTags(parts: seq<string>): (r: seq<string>)
    ensures |r| <= |parts|
    decreases |parts|
  {
    if parts == [] then []
    else (if Strip(parts[0]) != [] then [Strip(parts[0])] else []) + CleanTags(parts[1..])
  }

  /** `[t.strip() for t in raw.split(',') if t.strip()]` */
  function ParseTags(raw: string): seq<string>
  {
    CleanTags(Split(raw, ','))
  }

  /** A tag as stored: not empty, no surrounding whitespace, no comma. */
  predicate IsTag(t: string)
  {
    t != [] && !IsSpace(t[0]) && !IsSpace(t[|t| - 1]) && ',' !in t
  }

  /** Stripping yields a text without whitespace at either end. */
  lemma StripIsTrimmed(s: string)
    ensures var t := Strip(s); t == [] || (!IsSpace(t[0]) && !IsSpace(t[|t| - 1]))
  {
    var l := LStrip(s);
    var t := RStrip(l);
    if t != [] {
      assert l[0] == t[0];
    }
  }

  /** Whatever is typed, every parsed entry is a tag. */
  lemma {:induction false} CleanTagsAreTags(parts: seq<string>)
    requires forall k :: 0 <= k < |parts| ==> ',' !in parts[k]
    ensures forall k :: 0 <= k < |CleanTags(parts)| ==> IsTag(CleanTags(parts)[k])
    decreases |parts|
  {
    if parts != [] {
      CleanTagsAreTags(parts[1..]);
      var t := Strip(parts[0]);
      StripIsTrimmed(parts[0]);
      StripKeepsAbsent(parts[0], ',');
    }
  }

  /** Stripping cannot bring in a character the text lacks. */
  lemma StripKeepsAbsent(p: string, c: char)
    requires c !in p
    ensures c !in Strip(p)
  {
    var l := LStrip(p);
    var t := RStrip(l);
    forall i | 0 <= i < |t|
      ensures t[i] != c
    {
      assert t[i] == l[i] == p[|p| - |l| + i];
    }
  }

  lemma ParseTagsAreTags(raw: string)
    ensures forall k :: 0 <= k < |ParseTags(raw)| ==> IsTag(ParseTags(raw)[k])
  {
    CleanTagsAreTags(Split(raw, ','));
  }

  /** `", ".join(tags)`, the text the properties dialog shows. */
  function ShowTags(tags: seq<string>): string
    decreases |tags|
  {
    if tags == [] then []
    else if |tags| == 1 then tags[0]
    else tags[0] + ", " + ShowTags(tags[1..])
  }

  /** Every tag after the first, with the blank that `", "` puts before it. */
  function Spaced(tags: seq<string>): (r: seq<string>)
    requires tags != []
    ensures |r| == |tags| && r[0] == tags[0]
    ensures forall k :: 0 < k < |tags| ==> r[k] == " " + tags[k]
  {
    [tags[0]] + seq(|tags| - 1, i requires 0 <= i < |tags| - 1 => " " + tags[i + 1])
  }

  lemma {:induction false} ShowTagsIsJoin(tags: seq<string>)
    requires tags != []
    ensures ShowTags(tags) == Join(Spaced(tags), ',')
    decreases |tags|
  {
    if |tags| > 1 {
      var rest := tags[1..];
      ShowTagsIsJoin(rest);
      var sp := Spaced(tags);
      var spRest := Spaced(rest);
      assert sp[1..][0] == " " + spRest[0];
      assert sp[1..] == [" " + spRest[0]] + spRest[1..];
      JoinSpacedHead(spRest, " ");
      assert Join(sp, ',') == sp[0] + [','] + Join(sp[1..], ',');
    }
  }

  /** Putting `pre` before the first piece puts it before the joined text. */
  lemma JoinSpacedHead(parts: seq<string>, pre: string)
    requires parts != []
    ensures Join([pre + parts[0]] + parts[1..], ',') == pre + Join(parts, ',')
  {
    JoinHead(parts[0], parts[1..], pre, ',');
    assert [parts[0]] + parts[1..] == parts;
  }

  lemma JoinHead(head: string, tail: seq<string>, pre: string, c: char)
    ensures Join([pre + head] + tail, c) == pre + Join([head] + tail, c)
  {
    var ps := [pre + head] + tail;
    var qs := [head] + tail;
    assert ps[1..] == tail && qs[1..] == tail;
    if tail != [] {
      var j := Join(tail, c);
      assert Join(ps, c) == (pre + head) + [c] + j;
      assert Join(qs, c) == head + [c] + j;
      assert (pre + head) + [c] + j == pre + (head + [c] + j);
    }
  }

  /** Cleaning a blank-prefixed tag gives the tag. */
  lemma StripSpacedTag(t: string)
    requires IsTag(t)
    ensures Strip(" " + t) == t
  {
    assert (" " + t)[1..] == t;
    assert LStrip(" " + t) == LStrip(t);
    StripTrimmed(t);
  }

  lemma {:induction false} CleanSpaced(tags: seq<string>, parts: seq<string>)
    requires |parts| == |tags|
    requires forall k :: 0 <= k < |tags| ==> IsTag(tags[k]) && (parts[k] == tags[k] || parts[k] == " " + tags[k])
    ensures CleanTags(parts) == tags
    decreases |tags|
  {
    if tags != [] {
      CleanSpaced(tags[1..], parts[1..]);
      if parts[0] == tags[0] {
        StripTrimmed(tags[0]);
      } else {
        StripSpacedTag(tags[0]);
      }
      assert [tags[0]] + tags[1..] == tags;
    }
  }

  /** The text the dialog shows for stored tags parses back to those tags. */
  lemma TagsRoundTrip(tags: seq<string>)
    requires forall k :: 0 <= k < |tags| ==> IsTag(tags[k])
    ensures ParseTags(ShowTags(tags)) == tags
  {
    if tags == [] {
      assert Split([], ',') == [[]];
    } else {
      var sp := Spaced(tags);
      ShowTagsIsJoin(tags);
      forall k | 0 <= k < |sp|
        ensures ',' !in sp[k]
      {
        if k > 0 {
          assert sp[k] == " " + tags[k];
        }
      }
      SplitJoin(sp, ',');
      CleanSpaced(tags, sp);
    }
  }

  /** Saving the properties dialog twice without editing stores the same tags. */
  lemma ParseTagsIdempotent(raw: string)
    ensures ParseTags(ShowTags(ParseTags(raw))) == ParseTags(raw)
  {
    ParseTagsAreTags(raw);
    TagsRoundTrip(ParseTags(raw));
  }

  // -------------------------------------------------------------------
  // The search filter

  /** The attributes stored for a file, with an absent entry read as empty. */
  datatype Attrs = Attrs(tags: seq<string>, status: string, state: string)

  /** An item of the current folder matches the normalised query `needle`. */
  predicate Matches(dir: string, item: string, needle: string, attrsOf: string -> Attrs)
  {
    && !IsPrefix(".", item)
    && (|| needle == []
        || Contains(Lower(item), needle)
        || AttributeMatches(attrsOf(Paths.Join(dir, item)), needle))
  }

  /** Some tag, the status or the state contains the query, ignoring case. */
  predicate AttributeMatches(a: Attrs, needle: string)
  {
    || (exists k :: 0 <= k < |a.tags| && Contains(Lower(a.tags[k]), needle))
    || (a.status != [] && Contains(Lower(a.status), needle))
    || (a.state != [] && Contains(Lower(a.state), needle))
  }

  /** The items of `items`, in order, that match. */
  function Shown(dir: string, items: seq<string>, needle: string, attrsOf: string -> Attrs): (r: seq<string>)
    ensures |r| <= |items|
    decreases |items|
  {
    if items == [] then []
    else
      var last := items[|items| - 1];
      Shown(dir, items[..|items| - 1], needle, attrsOf) + (if Matches(dir, last, needle, attrsOf) then [last] else [])
  }

  lemma {:induction false} ShownMembers(dir: string, items: seq<string>, needle: string, attrsOf: string -> Attrs, x: string)
    ensures x in Shown(dir, items, needle, attrsOf) <==> x in items && Matches(dir, x, needle, attrsOf)
    decreases |items|
  {
    if items != [] {
      var init := items[..|items| - 1];
      ShownMembers(dir, init, needle, attrsOf, x);
      assert items == init + [items[|items| - 1]];
    }
  }

  /** Filtering an ascending listing keeps it ascending. */
  lemma {:induction false} ShownAscending(dir: string, items: seq<string>, needle: string, attrsOf: string -> Attrs)
    requires StringOrder.Ascending(items)
    ensures StringOrder.Ascending(Shown(dir, items, needle, attrsOf))
    decreases |items|
  {
    if items != [] {
      var n := |items| - 1;
      var init := items[..n];
      assert StringOrder.Ascending(init) by {
        forall i | 0 < i < |init|
          ensures StringOrder.AtMost(init[i - 1], init[i])
        {
          assert init[i - 1] == items[i - 1] && init[i] == items[i];
        }
      }
      ShownAscending(dir, init, needle, attrsOf);
      var before := Shown(dir, init, needle, attrsOf);
      if Matches(dir, items[n], needle, attrsOf) && before != [] {
        var b := before[|before| - 1];
        ShownMembers(dir, init, needle, attrsOf, b);
        var j :| 0 <= j < |init| && init[j] == b;
        StringOrder.AscendingPairs(items, j, n);
        var r := before + [items[n]];
        forall i | 0 < i < |r|
          ensures StringOrder.AtMost(r[i - 1], r[i])
        {
          if i < |before| {
            assert r[i - 1] == before[i - 1] && r[i] == before[i];
          }
        }
      }
    }
  }

  /**
   * `filter_desktop_items`: lower-case and strip the query, list the folder
   * in sorted order and keep the visible items that match by name, tag,
   * status or state. `None` is the early return when the folder does not
   * exist or cannot be listed (`listing` is `None`).
   */
  method FilterDesktopItems(text: string, dir: string, dirExists: bool, listing: Wrappers.Option<seq<string>>,
                            attrsOf: string -> Attrs)
    returns (shown: Wrappers.Option<seq<string>>)
    ensures !dirExists || listing.None? ==> shown.None?
    ensures dirExists && listing.Some? ==>
              shown == Wrappers.Some(Shown(dir, StringOrder.Sort(listing.value), Strip(Lower(text)), attrsOf))
  {
    var needle := Strip(Lower(text));
    if !dirExists || listing.None? {
      return Wrappers.None;
    }
    var items := StringOrder.Sort(listing.value);
    var kept: seq<string> := [];
    for i := 0 to |items|
      invariant kept == Shown(dir, items[..i], needle, attrsOf)
    {
      assert items[..i + 1][..i] == items[..i];
      var item := items[i];
      if IsPrefix(".", item) {
        continue;
      }
      if needle == [] {
        kept := kept + [item];
        continue;
      }
      if Contains(Lower(item), needle) {
        kept := kept + [item];
        continue;
      }
      var attrs := attrsOf(Paths.Join(dir, item));
      var matchTag := TagMatch(attrs.tags, needle);
      var matchStatus := if attrs.status != [] then Contains(Lower(attrs.status), needle) else false;
      var matchState := if attrs.state != [] then Contains(Lower(attrs.state), needle) else false;
      if matchTag || matchStatus || matchState {
        kept := kept + [item];
      }
    }
    assert items[..|items|] == items;
    return Wrappers.Some(kept);
  }

  /** `any(text in tag.lower() for tag in tags)` */
  method TagMatch(tags: seq<string>, needle: string) returns (found: bool)
    ensures found <==> exists k :: 0 <= k < |tags| && Contains(Lower(tags[k]), needle)
  {
    for i := 0 to |tags|
      invariant forall k :: 0 <= k < i ==> !Contains(Lower(tags[k]), needle)
    {
      if Contains(Lower(tags[i]), needle) {
        return true;
      }
    }
    return false;
  }

  /** The filter shows exactly the visible items that match, in sorted order. */
  lemma FilterShowsMatches(dir: string, listing: seq<string>, needle: string, attrsOf: string -> Attrs, x: string)
    ensures StringOrder.Ascending(Shown(dir, StringOrder.Sort(listing), needle, attrsOf))
    ensures x in Shown(dir, StringOrder.Sort(listing), needle, attrsOf)
        <==> x in listing && Matches(dir, x, needle, attrsOf)
  {
    var items := StringOrder.Sort(listing);
    ShownAscending(dir, items, needle, attrsOf);
    ShownMembers(dir, items, needle, attrsOf, x);
    assert x in items <==> x in multiset(items);
    assert x in listing <==> x in multiset(listing);
  }

  /** An empty query shows every item whose name does not start with '.'. */
  lemma EmptyQueryShowsVisible(dir: string, item: string, attrsOf: string -> Attrs)
    ensures Matches(dir, item, [], attrsOf) <==> !IsPrefix(".", item)
  {
  }

  // -------------------------------------------------------------------
  // New items

  /** What a new item holds: text, or a manifest serialised as JSON. */
  datatype Body = Text(text: string) | Manifest(fields: map<string, Json.Value>)

  datatype Template = Template(baseName: string, body: Body)

  /** The manifest a new universal app starts with. */
  function StarterManifest(): map<string, Json.Value>
  {
    map["id_semantico" := Json.JStr("novo_app"),
        "nome_exibicao" := Json.JStr("Meu App Universal"),
        "android_package" := Json.JStr(""),
        "web_url" := Json.JStr(""),
        "motor_exec" := Json.JStr("motor-bin"),
        "ui_exec" := Json.JStr("interface.py")]
  }

  /** The base name and content `ask_name` picks for a menu choice. */
  function TemplateFor(itemType: string): Template
  {
    if itemType == "app_universal" then Template("NovoApp.appicon", Manifest(StarterManifest()))
    else if itemType == "app_web" then Template("NovoSite.webicon", Text("URL=https://google.com"))
    else if itemType == "folder" then Template("Nova Pasta", Text(""))
    else Template("Novo Arquivo.txt", Text(""))
  }

  /** The name of the `k`-th candidate: the base name, then `<stem> <k><ext>`. */
  function CandidateName(base: string, k: nat): string
  {
    if k == 0 then base
    else
      var (stem, ext) := Paths.SplitExt(base);
      stem + " " + NatToString(k) + ext
  }

  /** The `k`-th path `ask_name` tries in folder `dir`. */
  function Candidate(dir: string, base: string, k: nat): string
  {
    Paths.Join(dir, CandidateName(base, k))
  }

  /** Joining to one folder tells relative names apart. */
  lemma JoinInjective(dir: string, a: string, b: string)
    requires a != [] && b != [] && a[0] != '/' && b[0] != '/'
    ensures Paths.Join(dir, a) == Paths.Join(dir, b) ==> a == b
  {
    var pre := if dir == [] || dir[|dir| - 1] == '/' then dir else dir + "/";
    assert Paths.Join(dir, a) == pre + a && Paths.Join(dir, b) == pre + b;
    assert (pre + a)[|pre|..] == a && (pre + b)[|pre|..] == b;
  }

  /** A candidate name is relative whenever the base name is. */
  lemma CandidateNameShape(base: string, k: nat)
    requires base != [] && base[0] != '/'
    ensures CandidateName(base, k) != [] && CandidateName(base, k)[0] != '/'
  {
    if k > 0 {
      var (stem, ext) := Paths.SplitExt(base);
      var n := stem + " " + NatToString(k) + ext;
      if stem != [] {
        assert n[0] == stem[0] == base[0];
      } else {
        assert n[0] == ' ';
      }
    }
  }

  /** Distinct counters give distinct names. */
  lemma CandidateNamesDistinct(base: string, i: nat, j: nat)
    requires i < j
    ensures CandidateName(base, i) != CandidateName(base, j)
  {
    var (stem, ext) := Paths.SplitExt(base);
    var dj := NatToString(j);
    var nj := stem + " " + dj + ext;
    if i == 0 {
      assert |nj| > |stem| + |ext| == |base|;
    } else {
      var di := NatToString(i);
      var ni := stem + " " + di + ext;
      if |di| == |dj| {
        assert ni[|stem| + 1..|ni| - |ext|] == di;
        assert nj[|stem| + 1..|nj| - |ext|] == dj;
        assert di != dj by {
          NatToStringRoundTrip(i);
          NatToStringRoundTrip(j);
        }
      }
    }
  }

  /** Distinct counters give distinct paths, so every round of the search
      tries a path not tried before. */
  lemma CandidatesDistinct(dir: string, base: string, i: nat, j: nat)
    requires base != [] && base[0] != '/' && i < j
    ensures Candidate(dir, base, i) != Candidate(dir, base, j)
  {
    CandidateNameShape(base, i);
    CandidateNameShape(base, j);
    CandidateNamesDistinct(base, i, j);
    JoinInjective(dir, CandidateName(base, i), CandidateName(base, j));
  }

  /** The paths tried before the `n`-th. */
  function CandidatesBefore(dir: string, base: string, n: nat): set<string>
  {
    if n == 0 then {} else CandidatesBefore(dir, base, n - 1) + {Candidate(dir, base, n - 1)}
  }

  /** The `m`-th path is none of those before the `n`-th, for `n <= m`. */
  lemma {:induction false} CandidateIsNew(dir: string, base: string, m: nat, n: nat)
    requires base != [] && base[0] != '/' && n <= m
    ensures Candidate(dir, base, m) !in CandidatesBefore(dir, base, n)
    decreases n
  {
    if n > 0 {
      CandidateIsNew(dir, base, m, n - 1);
      CandidatesDistinct(dir, base, n - 1, m);
    }
  }

  /** The paths before the `n`-th are the candidates with a smaller counter. */
  lemma {:induction false} CandidatesBeforeHas(dir: string, base: string, n: nat, j: nat)
    requires j < n
    ensures Candidate(dir, base, j) in CandidatesBefore(dir, base, n)
    decreases n
  {
    var earlier := CandidatesBefore(dir, base, n - 1);
    var last := Candidate(dir, base, n - 1);
    assert CandidatesBefore(dir, base, n) == earlier + {last};
    if j < n - 1 {
      CandidatesBeforeHas(dir, base, n - 1, j);
      assert Candidate(dir, base, j) in earlier;
    } else {
      assert j == n - 1;
      assert last in earlier + {last};
    }
  }

  /** One more round of the search: when the `n`-th path exists too, the
      paths tried so far stay among the existing ones and fewer existing
      paths remain untried. */
  lemma SearchStep(dir: string, base: string, existing: set<string>, n: nat)
    requires base != [] && base[0] != '/'
    requires CandidatesBefore(dir, base, n) <= existing && Candidate(dir, base, n) in existing
    ensures CandidatesBefore(dir, base, n + 1) <= existing
    ensures |existing - CandidatesBefore(dir, base, n + 1)| < |existing - CandidatesBefore(dir, base, n)|
  {
    CandidateIsNew(dir, base, n, n);
    assert CandidatesBefore(dir, base, n + 1) == CandidatesBefore(dir, base, n) + {Candidate(dir, base, n)};
    FewerLeft(existing, CandidatesBefore(dir, base, n), Candidate(dir, base, n));
  }

  lemma FewerLeft(s: set<string>, t: set<string>, x: string)
    requires x in s && x !in t
    ensures |s - (t + {x})| < |s - t|
  {
    var left := s - (t + {x});
    assert s - t == left + {x};
    assert x !in left;
  }

  lemma TemplateNamesRelative(itemType: string)
    ensures TemplateFor(itemType).baseName != [] && TemplateFor(itemType).baseName[0] != '/'
  {
  }

  /** What `ask_name` makes on disk at the chosen path. */
  datatype Creation =
    | MakeFolder(path: string)
    | MakeBundle(path: string, manifestPath: string, body: Body)
    | WriteFile(path: string, body: Body)

  /** The creation step as written: folders and item types ending in
      `appicon` become directories, and the latter get a manifest. */
  function CreateAsWritten(itemType: string, target: string, body: Body): (r: Creation)
    ensures r.path == target
    ensures r.MakeBundle? <==> IsSuffix("appicon", itemType)
    ensures r.MakeFolder? <==> itemType == "folder"
  {
    if itemType == "folder" || IsSuffix("appicon", itemType) then
      if IsSuffix("appicon", itemType) then MakeBundle(target, Paths.Join(target, "app.manifest"), body)
      else MakeFolder(target)
    else WriteFile(target, body)
  }

  /** The creation step for the item types the menu offers: a universal app
      becomes a directory holding its manifest. */
  function Create(itemType: string, target: string, body: Body): (r: Creation)
    ensures r.path == target
    ensures r.MakeBundle? <==> itemType == "app_universal"
    ensures r.MakeFolder? <==> itemType == "folder"
  {
    if itemType == "app_universal" then MakeBundle(target, Paths.Join(target, "app.manifest"), body)
    else if itemType == "folder" then MakeFolder(target)
    else WriteFile(target, body)
  }

  /**
   * `ask_name`: choose the template for the menu choice, try the base name
   * and then `<stem> 1<ext>`, `<stem> 2<ext>`, ... in `currentPath` until
   * one does not exist, and create the item there. `counter` is the
   * source's counter when the loop stops.
   */
  method AskName(currentPath: string, itemType: string, existing: set<string>)
    returns (target: string, counter: nat, creation: Creation)
    ensures counter >= 1
    ensures target == Candidate(currentPath, TemplateFor(itemType).baseName, counter - 1)
    ensures target !in existing
    ensures forall j :: 0 <= j < counter - 1 ==> Candidate(currentPath, TemplateFor(itemType).baseName, j) in existing
    ensures creation == CreateAsWritten(itemType, target, TemplateFor(itemType).body)
  {
    var template := TemplateFor(itemType);
    TemplateNamesRelative(itemType);
    target, counter := FreeCandidate(currentPath, template.baseName, existing);
    creation := CreateAsWritten(itemType, target, template.body);
  }

  /** The naming loop of `ask_name`: the first candidate path in `dir` that
      is not in `existing`, and the counter after it. */
  method FreeCandidate(dir: string, base: string, existing: set<string>)
    returns (target: string, counter: nat)
    requires base != [] && base[0] != '/'
    ensures counter >= 1 && target == Candidate(dir, base, counter - 1)
    ensures target !in existing
    ensures forall j :: 0 <= j < counter - 1 ==> Candidate(dir, base, j) in existing
  {
    target := Paths.Join(dir, base);
    var tried: nat := 0;
    while target in existing
      invariant target == Candidate(dir, base, tried)
      invariant CandidatesBefore(dir, base, tried) <= existing
      decreases |existing - CandidatesBefore(dir, base, tried)|
    {
      SearchStep(dir, base, existing, tried);
      tried := tried + 1;
      target := Candidate(dir, base, tried);
    }
    counter := tried + 1;
    forall j | 0 <= j < tried
      ensures Candidate(dir, base, j) in existing
    {
      CandidatesBeforeHas(dir, base, tried, j);
    }
  }

  /** As written, a new universal app is a plain file named `*.appicon`
      holding the manifest, and such a file is not an icon. */
  lemma AsWrittenUniversalIsPlainFile(prefix: string, body: Body, manifest: map<string, Json.Value>)
    requires !IsPrefix("android:", prefix + ".appicon")
    ensures CreateAsWritten("app_universal", prefix + ".appicon", body) == WriteFile(prefix + ".appicon", body)
    ensures Icons.Factory(prefix + ".appicon", false, manifest) == Icons.NoIcon
  {
    assert "app_universal"[13 - 7..] != "appicon";
    Icons.AppiconFileIsNoIcon(prefix, manifest);
  }

  /** Made as intended, a new universal app is a bundle directory whose
      manifest names it "Meu App Universal". */
  lemma UniversalIsBundle(prefix: string)
    ensures Create("app_universal", prefix + ".appicon", Manifest(StarterManifest()))
         == MakeBundle(prefix + ".appicon", Paths.Join(prefix + ".appicon", "app.manifest"), Manifest(StarterManifest()))
    ensures Icons.Factory(prefix + ".appicon", true, StarterManifest())
         == Icons.UniversalDotApp(prefix + ".appicon", StarterManifest())
    ensures Icons.DisplayName(Icons.Factory(prefix + ".appicon", true, StarterManifest()))
         == Wrappers.Some(Json.JStr("Meu App Universal"))
  {
    var p := prefix + ".appicon";
    assert p[|p| - 8..] == ".appicon";
    Icons.FactoryUniversal(p, StarterManifest());
    Icons.OwnNameWins(p, StarterManifest());
  }
}
