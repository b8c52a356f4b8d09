/**
 * The path rules of the shell's metadata manager. Attributes of a file live
 * in a hidden JSON sidecar next to it, and backups live in a `.versions`
 * directory next to it, named by a timestamp, an underscore and the file's
 * name. Reading and copying files is outside the model; the directory
 * listing is an input.
 */
module Metadata {
  import Strings
  import opened Paths
  import StringOrder

  /** The sidecar holding the attributes of `filePath`: `.<name>.json` in the same directory. */
  function SidecarPath(filePath: string): string
  {
    Join(Dirname(filePath), "." + Basename(filePath) + ".json")
  }

  /** The sidecar sits in the file's own directory and is the file's name
      made hidden and given a `.json` suffix. */
  lemma SidecarBesideFile(filePath: string)
    ensures Dirname(SidecarPath(filePath)) == Dirname(filePath)
    ensures Basename(SidecarPath(filePath)) == "." + Basename(filePath) + ".json"
  {
    var name := "." + Basename(filePath) + ".json";
    assert name[0] == '.';
    assert '/' !in name by {
      assert name == ['.'] + Basename(filePath) + ".json";
    }
    DirnameShape(filePath);
    JoinName(Dirname(filePath), name);
  }

  /** Two files of one directory never share a sidecar. */
  lemma SidecarsDistinct(p: string, q: string)
    requires Basename(p) != Basename(q)
    ensures SidecarPath(p) != SidecarPath(q)
  {
    SidecarBesideFile(p);
    SidecarBesideFile(q);
    var a := "." + Basename(p) + ".json";
    var b := "." + Basename(q) + ".json";
    assert a[1..|a| - 5] == Basename(p) && b[1..|b| - 5] == Basename(q);
  }

  /** The directory holding the backups of `filePath`. */
  function VersionsDir(filePath: string): string
  {
    Join(Dirname(filePath), ".versions")
  }

  /** The versions directory is `.versions` in the file's own directory. */
  lemma VersionsBesideFile(filePath: string)
    ensures Dirname(VersionsDir(filePath)) == Dirname(filePath)
    ensures Basename(VersionsDir(filePath)) == ".versions"
  {
    DirnameShape(filePath);
    JoinName(Dirname(filePath), ".versions");
  }

  /** Length of a `%Y-%m-%d_%H-%M-%S` timestamp. */
  const TimestampLength: nat := 19

  /** The name `save_version` gives a backup: `<timestamp>_<filename>`. */
  function BackupName(timestamp: string, filename: string): string
  {
    timestamp + "_" + filename
  }

  /** The listing filter of `get_versions` as written: any entry that ends
      with the file's name and is not the name itself. */
  predicate SelectedAsWritten(entry: string, filename: string)
  {
    Strings.IsSuffix(filename, entry) && entry != filename
  }

  /** A backup of `filename` made by `save_version`: a timestamp, `_`, then
      exactly `filename`. */
  predicate IsBackupOf(entry: string, filename: string)
  {
    |entry| == TimestampLength + 1 + |filename|
    && entry[TimestampLength] == '_'
    && entry[TimestampLength + 1..] == filename
  }

  /** A backup is listed for exactly the file it was made from. */
  lemma BackupSelected(timestamp: string, filename: string, other: string)
    requires |timestamp| == TimestampLength
    ensures IsBackupOf(BackupName(timestamp, filename), other) <==> filename == other
  {
    var e := BackupName(timestamp, filename);
    assert e[TimestampLength] == '_' && e[TimestampLength + 1..] == filename;
  }

  /** Every entry the corrected filter takes, the filter as written takes too. */
  lemma BackupSelectedAsWritten(entry: string, filename: string)
    requires IsBackupOf(entry, filename)
    ensures SelectedAsWritten(entry, filename)
  {
  }

  /** As written, the backups of a file whose name ends with another file's
      name (`ba.txt` and `a.txt`) are listed as versions of that other file. */
  lemma AsWrittenListsForeignBackup(timestamp: string, c: char, filename: string)
    requires |timestamp| == TimestampLength
    ensures SelectedAsWritten(BackupName(timestamp, [c] + filename), filename)
    ensures !IsBackupOf(BackupName(timestamp, [c] + filename), filename)
  {
    var e := BackupName(timestamp, [c] + filename);
    assert e == (timestamp + "_" + [c]) + filename;
    assert e[|e| - |filename|..] == filename;
  }

  /** The full paths of the entries of `listing`, in listing order, that the
      filter of `get_versions` takes for `filename`. */
  function Backups(dir: string, listing: seq<string>, filename: string): (r: seq<string>)
    ensures |r| <= |listing|
    decreases |listing|
  {
    if listing == [] then []
    else
      var last := listing[|listing| - 1];
      Backups(dir, listing[..|listing| - 1], filename)
        + (if SelectedAsWritten(last, filename) then [Join(dir, last)] else [])
  }

  /** A path is listed exactly when some selected entry of the listing joins to it. */
  lemma {:induction false} BackupsMembers(dir: string, listing: seq<string>, filename: string, x: string)
    ensures x in Backups(dir, listing, filename)
        <==> exists i :: 0 <= i < |listing| && SelectedAsWritten(listing[i], filename) && x == Join(dir, listing[i])
    decreases |listing|
  {
    if listing != [] {
      var init := listing[..|listing| - 1];
      BackupsMembers(dir, init, filename, x);
      if x in Backups(dir, init, filename) {
        var i :| 0 <= i < |init| && SelectedAsWritten(init[i], filename) && x == Join(dir, init[i]);
        assert listing[i] == init[i];
      }
      if exists i :: 0 <= i < |listing| && SelectedAsWritten(listing[i], filename) && x == Join(dir, listing[i]) {
        var i :| 0 <= i < |listing| && SelectedAsWritten(listing[i], filename) && x == Join(dir, listing[i]);
        if i < |init| {
          assert init[i] == listing[i];
        }
      }
    }
  }

  /**
   * `get_versions`: the backups of `filePath` found in its versions
   * directory, newest first. `dirExists` says whether that directory exists
   * and `listing` is what `os.listdir` returns for it.
   */
  method GetVersions(filePath: string, dirExists: bool, listing: seq<string>) returns (versions: seq<string>)
    ensures !dirExists ==> versions == []
    ensures dirExists ==> versions == StringOrder.SortDescending(Backups(VersionsDir(filePath), listing, Basename(filePath)))
  {
    var dir := VersionsDir(filePath);
    if !dirExists {
      return [];
    }
    var filename := Basename(filePath);
    var found: seq<string> := [];
    for i := 0 to |listing|
      invariant found == Backups(dir, listing[..i], filename)
    {
      assert listing[..i + 1][..i] == listing[..i];
      if SelectedAsWritten(listing[i], filename) {
        found := found + [Join(dir, listing[i])];
      }
    }
    assert listing[..|listing|] == listing;
    versions := StringOrder.SortDescending(found);
  }

  /** What `get_versions` returns is newest first and holds exactly the
      entries its filter selects, each once per listing entry. */
  lemma VersionsAreBackups(dir: string, listing: seq<string>, filename: string, x: string)
    ensures StringOrder.Descending(StringOrder.SortDescending(Backups(dir, listing, filename)))
    ensures x in StringOrder.SortDescending(Backups(dir, listing, filename))
        <==> exists i :: 0 <= i < |listing| && SelectedAsWritten(listing[i], filename) && x == Join(dir, listing[i])
  {
    var b := Backups(dir, listing, filename);
    StringOrder.SortDescendingSpec(b);
    BackupsMembers(dir, listing, filename, x);
    assert x in b <==> x in multiset(b);
    assert x in StringOrder.SortDescending(b) <==> x in multiset(StringOrder.SortDescending(b));
  }

  /** No backup of the file is missed: every entry `save_version` made for
      it is among the versions `get_versions` returns. */
  lemma EveryBackupListed(dir: string, listing: seq<string>, filename: string, i: nat)
    requires i < |listing| && IsBackupOf(listing[i], filename)
    ensures Join(dir, listing[i]) in StringOrder.SortDescending(Backups(dir, listing, filename))
  {
    BackupSelectedAsWritten(listing[i], filename);
    VersionsAreBackups(dir, listing, filename, Join(dir, listing[i]));
  }
}
