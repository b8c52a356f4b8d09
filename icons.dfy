/**
 * Desktop icons: how `AppIcon.factory` classifies a path, the name each kind
 * of icon shows, and how a web icon's file yields its URL. Whether the path
 * is a directory, the manifest read from `app.manifest` and the lines of a
 * `.webicon` file are inputs.
 */
module Icons {
  import opened Wrappers
  import opened Strings
  import Seqs
  import Json
  import Paths

  datatype Icon =
    | UniversalDotApp(path: string, manifest: map<string, Json.Value>)
    | WebApp(path: string)
    | AndroidHost(path: string, package: string)
    | NoIcon

  /** `AppIcon.factory`: the first rule that fits, in the order the source tests them. */
  function Factory(path: string, isDir: bool, manifest: map<string, Json.Value>): Icon
  {
    if isDir && IsSuffix(".appicon", path) then UniversalDotApp(path, manifest)
    else if IsSuffix(".webicon", path) then WebApp(path)
    else if IsPrefix("android:", path) then
      var parts := SplitOnce(path, ':');
      AndroidHost(path, if parts.Some? then parts.value.1 else [])
    else NoIcon
  }

  /** A directory named `*.appicon` is a universal app, whatever else its name holds. */
  lemma FactoryUniversal(path: string, manifest: map<string, Json.Value>)
    requires IsSuffix(".appicon", path)
    ensures Factory(path, true, manifest) == UniversalDotApp(path, manifest)
  {
  }

  /** A plain file `<stem>.appicon` is no icon at all unless it also looks
      like a host package. */
  lemma AppiconFileIsNoIcon(stem: string, manifest: map<string, Json.Value>)
    requires !IsPrefix("android:", stem + ".appicon")
    ensures Factory(stem + ".appicon", false, manifest) == NoIcon
  {
    var p := stem + ".appicon";
    assert p[|p| - 8..] == ".appicon";
  }

  /** `android:<pkg>` denotes host package `pkg`, which keeps every further ':'. */
  lemma FactoryAndroid(pkg: string, isDir: bool, manifest: map<string, Json.Value>)
    requires !IsSuffix(".webicon", "android:" + pkg) && !IsSuffix(".appicon", "android:" + pkg)
    ensures Factory("android:" + pkg, isDir, manifest) == AndroidHost("android:" + pkg, pkg)
  {
    var p := "android:" + pkg;
    assert p[..8] == "android:";
    HostPrefix(p);
  }

  /** Every host icon the factory builds names the package after the prefix. */
  lemma AndroidPackageIsTail(path: string, isDir: bool, manifest: map<string, Json.Value>)
    requires Factory(path, isDir, manifest).AndroidHost?
    ensures path == "android:" + Factory(path, isDir, manifest).package
  {
    HostPrefix(path);
    assert path == path[..8] + path[8..];
  }

  lemma HostPrefix(path: string)
    requires IsPrefix("android:", path)
    ensures SplitOnce(path, ':') == Some(("android", path[8..]))
  {
    assert "android" + [':'] == "android:";
    assert ':' !in "android";
    SplitOnceAfterPrefix("android", ':', path);
  }

  /** `manifest.get("mobile", {})`: the nested section, or `None` where the
      following `.get` would raise because the value is not an object. */
  function MobileSection(manifest: map<string, Json.Value>): (r: Option<map<string, Json.Value>>)
    ensures "mobile" !in manifest ==> r == Some(map[])
    ensures "mobile" in manifest ==> (r.Some? <==> manifest["mobile"].JObj?)
  {
    if "mobile" !in manifest then Some(map[])
    else if manifest["mobile"].JObj? then Some(manifest["mobile"].fields)
    else None
  }

  /**
   * `get_display_name` of each kind of icon. A universal app shows the
   * first truthy of its `nome_exibicao`, the one in its `mobile` section,
   * and its folder name without `.appicon`; `None` stands for the error
   * raised when a `mobile` entry that is not an object must be consulted.
   */
  function DisplayName(icon: Icon): Option<Json.Value>
    requires !icon.NoIcon?
  {
    match icon
    case UniversalDotApp(path, manifest) =>
      var own := Json.Get(manifest, "nome_exibicao");
      if Json.Truthy(own) then Some(own)
      else
        var mobile := MobileSection(manifest);
        if mobile.None? then None
        else
          var nested := Json.Get(mobile.value, "nome_exibicao");
          if Json.Truthy(nested) then Some(nested)
          else Some(Json.JStr(ReplaceAll(Paths.Basename(path), ".appicon", "")))
    case WebApp(path) => Some(Json.JStr(ReplaceAll(Paths.Basename(path), ".webicon", "")))
    case AndroidHost(_, package) => Some(Json.JStr(package))
  }

  /** The manifest's own name wins over everything else. */
  lemma OwnNameWins(path: string, manifest: map<string, Json.Value>)
    requires "nome_exibicao" in manifest && Json.Truthy(manifest["nome_exibicao"])
    ensures DisplayName(UniversalDotApp(path, manifest)) == Some(manifest["nome_exibicao"])
  {
  }

  /** Without a usable own name the `mobile` section's name is shown. */
  lemma MobileNameNext(path: string, manifest: map<string, Json.Value>, mobile: map<string, Json.Value>)
    requires !Json.Truthy(Json.Get(manifest, "nome_exibicao"))
    requires "mobile" in manifest && manifest["mobile"] == Json.JObj(mobile)
    requires "nome_exibicao" in mobile && Json.Truthy(mobile["nome_exibicao"])
    ensures DisplayName(UniversalDotApp(path, manifest)) == Some(mobile["nome_exibicao"])
  {
  }

  /** Removing a non-overlapping `suffix` from the name of `<dir>/<stem><suffix>`
      leaves `stem` when `stem` does not contain it. */
  lemma StemName(dir: string, stem: string, suffix: string)
    requires Paths.IsDirname(dir) && '/' !in stem && '/' !in suffix
    requires suffix != [] && suffix[0] !in suffix[1..] && !Contains(stem, suffix)
    ensures ReplaceAll(Paths.Basename(Paths.Join(dir, stem + suffix)), suffix, "") == stem
  {
    var name := stem + suffix;
    assert '/' !in name;
    assert name[|stem|] in name;
    Paths.JoinName(dir, name);
    ReplaceTrailing(stem, suffix, "");
    assert stem + "" == stem;
  }

  /** A universal app with an empty manifest in folder `<dir>/<stem>.appicon`
      shows `stem`. */
  lemma UniversalShowsStem(dir: string, stem: string)
    requires Paths.IsDirname(dir) && '/' !in stem && !Contains(stem, ".appicon")
    ensures DisplayName(UniversalDotApp(Paths.Join(dir, stem + ".appicon"), map[])) == Some(Json.JStr(stem))
  {
    assert '/' !in ".appicon" && '.' !in ".appicon"[1..];
    StemName(dir, stem, ".appicon");
  }

  /** A web icon `<dir>/<stem>.webicon` shows `stem`. */
  lemma WebShowsStem(dir: string, stem: string)
    requires Paths.IsDirname(dir) && '/' !in stem && !Contains(stem, ".webicon")
    ensures DisplayName(WebApp(Paths.Join(dir, stem + ".webicon"))) == Some(Json.JStr(stem))
  {
    assert '/' !in ".webicon" && '.' !in ".webicon"[1..];
    StemName(dir, stem, ".webicon");
  }

  /** A host icon shows its package name. */
  lemma AndroidShowsPackage(pkg: string, isDir: bool, manifest: map<string, Json.Value>)
    requires !IsSuffix(".webicon", "android:" + pkg) && !IsSuffix(".appicon", "android:" + pkg)
    ensures DisplayName(Factory("android:" + pkg, isDir, manifest)) == Some(Json.JStr(pkg))
  {
    FactoryAndroid(pkg, isDir, manifest);
  }

  predicate IsUrlLine(line: string)
  {
    IsPrefix("URL=", line)
  }

  /** The URL a web icon's file declares: the text after the first `=` of
      its first `URL=` line, stripped. */
  function UrlOf(lines: seq<string>): Option<string>
  {
    var i := Seqs.FirstIndex(lines, IsUrlLine, 0);
    if i.None? then None
    else
      var parts := SplitOnce(lines[i.value], '=');
      if parts.Some? then Some(Strip(parts.value.1)) else None
  }

  /**
   * `WebAppIcon._read_url`: scans the lines of the file and returns the URL
   * of the first `URL=` line; `readable` is false when opening or reading
   * the file fails, which yields `None`.
   */
  method ReadUrl(readable: bool, lines: seq<string>) returns (url: Option<string>)
    ensures !readable ==> url == None
    ensures readable ==> url == UrlOf(lines)
  {
    if !readable {
      return None;
    }
    var i := 0;
    while i < |lines|
      invariant 0 <= i <= |lines|
      invariant forall j :: 0 <= j < i ==> !IsUrlLine(lines[j])
    {
      if IsPrefix("URL=", lines[i]) {
        var parts := SplitOnce(lines[i], '=');
        assert Seqs.FirstIndex(lines, IsUrlLine, 0) == Some(i);
        if parts.Some? {
          return Some(Strip(parts.value.1));
        }
        return None;
      }
      i := i + 1;
    }
    assert Seqs.FirstIndex(lines, IsUrlLine, 0) == None;
    return None;
  }

  /** The URL is the stripped rest of the first `URL=` line, and there is
      one exactly when some line starts with `URL=`. */
  lemma UrlOfFirstLine(lines: seq<string>, i: nat)
    requires i < |lines| && IsUrlLine(lines[i])
    requires forall j :: 0 <= j < i ==> !IsUrlLine(lines[j])
    ensures UrlOf(lines) == Some(Strip(lines[i][4..]))
  {
    var line := lines[i];
    assert Seqs.FirstIndex(lines, IsUrlLine, 0) == Some(i);
    assert line == "URL" + ['='] + line[4..];
    SplitOnceJoin("URL", '=', line[4..]);
  }

  lemma NoUrlLine(lines: seq<string>)
    requires forall j :: 0 <= j < |lines| ==> !IsUrlLine(lines[j])
    ensures UrlOf(lines) == None
  {
    assert Seqs.FirstIndex(lines, IsUrlLine, 0) == None;
  }

  /** A file holding the one line `URL=<u>`, as the shell writes new web
      icons, reads back as `u` when `u` has no surrounding whitespace. */
  lemma UrlRoundTrip(u: string)
    requires u == [] || (!IsSpace(u[0]) && !IsSpace(u[|u| - 1]))
    ensures UrlOf(["URL=" + u]) == Some(u)
  {
    var line := "URL=" + u;
    assert IsUrlLine(line);
    UrlOfFirstLine([line], 0);
    assert line[4..] == u;
    StripTrimmed(u);
  }
}
