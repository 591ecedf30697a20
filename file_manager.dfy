// The simulated markdown file system: one JavaScript `Map` from storage path
// (`docs/<version>/<tab>/<file>.md`) to markdown text, changed in place by
// single-file operations and by whole-version bulk operations.
module FileManager {
  import opened JsRuntime

  /** `docs/<version>/`, the key prefix of every file of a version. */
  function VersionPrefix(version: string): string {
    "docs/" + version + "/"
  }

  /**
   * The value of the store: the entries and the order in which a JavaScript
   * `Map` enumerates its keys (insertion order; re-setting a key keeps its
   * place, deleting it drops it).
   */
  datatype Table = Table(files: map<string, string>, order: seq<string>)

  /** The order lists each key of the map exactly once. */
  ghost predicate TableValid(t: Table) {
    NoDuplicates(t.order) && (forall k :: k in t.files <==> k in t.order)
  }

  /** `Map.prototype.set` */
  function Put(t: Table, key: string, content: string): (r: Table)
    ensures TableValid(t) ==> TableValid(r)
  {
    Table(t.files[key := content], if key in t.files then t.order else t.order + [key])
  }

  /** `Map.prototype.delete` */
  function Remove(t: Table, key: string): (r: Table)
    ensures TableValid(t) ==> TableValid(r)
    ensures key !in r.files
  {
    Table(t.files - {key}, Without(t.order, key))
  }

  /** `mdFiles.get(path) || null`: a missing file and an empty one both read as null. */
  function Read(t: Table, path: string): Option<string> {
    if path in t.files && t.files[path] != "" then Some(t.files[path]) else None
  }

  /** `keys.filter(path => path.startsWith(prefix))` */
  function KeysWithPrefix(keys: seq<string>, prefix: string): (r: seq<string>)
    ensures forall k :: k in r <==> k in keys && StartsWith(k, prefix)
    ensures NoDuplicates(keys) ==> NoDuplicates(r)
  {
    if keys == [] then []
    else
      var rest := KeysWithPrefix(keys[1..], prefix);
      assert NoDuplicates(keys) ==> keys[0] !in keys[1..];
      if StartsWith(keys[0], prefix) then [keys[0]] + rest else rest
  }

  /** The paths of a version's files, in map order (`getVersionFiles`). */
  function VersionKeys(t: Table, version: string): seq<string> {
    KeysWithPrefix(t.order, VersionPrefix(version))
  }

  /** Some key lies under the version's prefix (`versionExists`). */
  predicate HasVersion(t: Table, version: string) {
    exists i :: 0 <= i < |t.order| && StartsWith(t.order[i], VersionPrefix(version))
  }

  /** A version name that `replace` inserts literally. */
  predicate PlainVersion(v: string) {
    '$' !in v
  }

  /**
   * `path.replace("docs/<from>/", "docs/<to>/")` for a path under the first
   * prefix: the first occurrence of the prefix is the one at the start, and
   * the replacement's `$` patterns are expanded against that match. A target
   * version without `$` is inserted literally, so the path lands under it.
   */
  function Rebase(path: string, from: string, to: string): (r: string)
    requires StartsWith(path, VersionPrefix(from))
    ensures PlainVersion(to) ==> r == VersionPrefix(to) + path[|VersionPrefix(from)|..] && StartsWith(r, VersionPrefix(to))
  {
    var matched := VersionPrefix(from);
    var rest := path[|matched|..];
    assert PlainVersion(to) ==> '$' !in VersionPrefix(to);
    ReplacementTextLiteral(VersionPrefix(to), "", matched, rest);
    StartsWithAppend(VersionPrefix(to), rest);
    ReplacementText(VersionPrefix(to), "", matched, rest) + rest
  }

  /** Neither version prefix extends the other, so no path lies under both. */
  predicate Disjoint(from: string, to: string) {
    !StartsWith(VersionPrefix(to), VersionPrefix(from)) && !StartsWith(VersionPrefix(from), VersionPrefix(to))
  }

  predicate AllUnder(paths: seq<string>, version: string) {
    forall p :: p in paths ==> StartsWith(p, VersionPrefix(version))
  }

  /** One pass of `copyVersionFiles`' loop: copy the file when its content is truthy. */
  function CopyStep(t: Table, path: string, from: string, to: string): Table
    requires StartsWith(path, VersionPrefix(from))
  {
    if path in t.files && t.files[path] != "" then Put(t, Rebase(path, from, to), t.files[path]) else t
  }

  /** The loop of `copyVersionFiles` over the snapshot `paths`, first path first. */
  function CopyAll(t: Table, paths: seq<string>, from: string, to: string): (r: Table)
    requires AllUnder(paths, from)
    ensures TableValid(t) ==> TableValid(r)
    decreases |paths|
  {
    if paths == [] then t
    else CopyStep(CopyAll(t, paths[..|paths| - 1], from, to), paths[|paths| - 1], from, to)
  }

  /** One pass of `renameVersionFiles`' loop: set the new key, then delete the old one. */
  function RenameStep(t: Table, path: string, from: string, to: string): Table
    requires StartsWith(path, VersionPrefix(from))
  {
    if path in t.files && t.files[path] != "" then
      Remove(Put(t, Rebase(path, from, to), t.files[path]), path)
    else t
  }

  function RenameAll(t: Table, paths: seq<string>, from: string, to: string): (r: Table)
    requires AllUnder(paths, from)
    ensures TableValid(t) ==> TableValid(r)
    decreases |paths|
  {
    if paths == [] then t
    else RenameStep(RenameAll(t, paths[..|paths| - 1], from, to), paths[|paths| - 1], from, to)
  }

  /** The loop of `deleteVersionFiles`. */
  function RemoveAll(t: Table, paths: seq<string>): (r: Table)
    ensures TableValid(t) ==> TableValid(r)
    decreases |paths|
  {
    if paths == [] then t else Remove(RemoveAll(t, paths[..|paths| - 1]), paths[|paths| - 1])
  }

  /** One more pass of each bulk loop extends its fold by the next path. */
  lemma CopyAllStep(t: Table, paths: seq<string>, i: nat, from: string, to: string)
    requires i < |paths| && AllUnder(paths, from)
    ensures AllUnder(paths[..i], from) && AllUnder(paths[..i + 1], from)
    ensures CopyAll(t, paths[..i + 1], from, to) == CopyStep(CopyAll(t, paths[..i], from, to), paths[i], from, to)
  {
    assert paths[i] in paths;
    assert paths[..i + 1][..i] == paths[..i];
  }

  lemma RenameAllStep(t: Table, paths: seq<string>, i: nat, from: string, to: string)
    requires i < |paths| && AllUnder(paths, from)
    ensures AllUnder(paths[..i], from) && AllUnder(paths[..i + 1], from)
    ensures RenameAll(t, paths[..i + 1], from, to) == RenameStep(RenameAll(t, paths[..i], from, to), paths[i], from, to)
  {
    assert paths[i] in paths;
    assert paths[..i + 1][..i] == paths[..i];
  }

  lemma RemoveAllStep(t: Table, paths: seq<string>, i: nat)
    requires i < |paths|
    ensures RemoveAll(t, paths[..i + 1]) == Remove(RemoveAll(t, paths[..i]), paths[i])
  {
    assert paths[..i + 1][..i] == paths[..i];
  }

  /** The five files `initializeDefaultFiles` writes, relative to `docs/<version>/`. */
  const DefaultFileNames: seq<string> := [
    "program/introduction.md",
    "program/quick-start.md",
    "program/iterator.md",
    "api/api-intro.md",
    "app/app-intro.md"
  ]

  /**
   * Stand-ins for the bundled default documents. Only two facts about them
   * matter here: none is empty, and the API introduction mentions the
   * version in its base URL.
   */
  function DefaultContent(name: string, version: string): (r: string)
    ensures r != ""
  {
    if name == "api/api-intro.md" then "# API\nhttps://api.khodkarino.com/" + version
    else "# " + name
  }

  function PutDefault(t: Table, version: string, name: string): Table {
    Put(t, VersionPrefix(version) + name, DefaultContent(name, version))
  }

  /** `initializeDefaultFiles(version)`: nothing when the version has files, else five writes in order. */
  function InitDefaults(t: Table, version: string): Table {
    if HasVersion(t, version) then t
    else
      PutDefault(PutDefault(PutDefault(PutDefault(PutDefault(t,
        version, DefaultFileNames[0]), version, DefaultFileNames[1]), version, DefaultFileNames[2]),
        version, DefaultFileNames[3]), version, DefaultFileNames[4])
  }

  /** The store itself: the module-level `mdFiles` map of the source. */
  class MdFileStore {
    var files: map<string, string>
    var order: seq<string>

    function Snapshot(): Table
      reads this
    {
      Table(files, order)
    }

    ghost predicate Valid()
      reads this
    {
      TableValid(Snapshot())
    }

    constructor ()
      ensures Valid() && files == map[] && order == []
    {
      files := map[];
      order := [];
    }

    /** `mdFiles.set(key, content)` */
    method Set(key: string, content: string)
      requires Valid()
      modifies this
      ensures Valid() && Snapshot() == Put(old(Snapshot()), key, content)
    {
      if key !in files {
        order := order + [key];
      }
      files := files[key := content];
    }

    /** `mdFiles.delete(key)` */
    method Delete(key: string)
      requires Valid()
      modifies this
      ensures Valid() && Snapshot() == Remove(old(Snapshot()), key)
    {
      files := files - {key};
      order := Without(order, key);
    }

    method CreateMdFile(filePath: string, content: string)
      requires Valid()
      modifies this
      ensures Valid() && Snapshot() == Put(old(Snapshot()), filePath, content)
    {
      Set(filePath, content);
    }

    /** `mdFiles.get(filePath) || null` */
    function ReadMdFile(filePath: string): (r: Option<string>)
      reads this
      ensures r.Some? <==> filePath in files && files[filePath] != ""
      ensures r.Some? ==> r.value == files[filePath]
    {
      Read(Snapshot(), filePath)
    }

    method UpdateMdFile(filePath: string, content: string)
      requires Valid()
      modifies this
      ensures Valid() && Snapshot() == Put(old(Snapshot()), filePath, content)
    {
      Set(filePath, content);
    }

    method DeleteMdFile(filePath: string)
      requires Valid()
      modifies this
      ensures Valid() && Snapshot() == Remove(old(Snapshot()), filePath)
    {
      Delete(filePath);
    }

    /** `Array.from(mdFiles.keys())`: every stored path once, in insertion order. */
    function ListMdFiles(): (r: seq<string>)
      reads this
      requires Valid()
      ensures NoDuplicates(r) && forall k :: k in r <==> k in files
    {
      order
    }

    function GetVersionFiles(version: string): (r: seq<string>)
      reads this
      ensures forall k :: k in r <==> k in order && StartsWith(k, VersionPrefix(version))
    {
      VersionKeys(Snapshot(), version)
    }

    /** `keys.some(...)` holds exactly when `getVersionFiles` would find a file. */
    predicate VersionExists(version: string)
      reads this
      ensures VersionExists(version) <==> GetVersionFiles(version) != []
    {
      var found := GetVersionFiles(version);
      assert found != [] ==> found[0] in order;
      HasVersion(Snapshot(), version)
    }

    /** One pass of `copyVersionFiles`' loop. */
    method CopyFile(filePath: string, fromVersion: string, toVersion: string)
      requires Valid() && StartsWith(filePath, VersionPrefix(fromVersion))
      modifies this
      ensures Valid() && Snapshot() == CopyStep(old(Snapshot()), filePath, fromVersion, toVersion)
    {
      if filePath in files && files[filePath] != "" {
        var content := files[filePath];
        var newPath := Rebase(filePath, fromVersion, toVersion);
        Set(newPath, content);
      }
    }

    /** One pass of `renameVersionFiles`' loop. */
    method RenameFile(filePath: string, oldVersion: string, newVersion: string)
      requires Valid() && StartsWith(filePath, VersionPrefix(oldVersion))
      modifies this
      ensures Valid() && Snapshot() == RenameStep(old(Snapshot()), filePath, oldVersion, newVersion)
    {
      if filePath in files && files[filePath] != "" {
        var content := files[filePath];
        var newPath := Rebase(filePath, oldVersion, newVersion);
        Set(newPath, content);
        Delete(filePath);
      }
    }

    /** Pass `i` of `renameVersionFiles`' loop over the snapshot `paths` taken from `t0`. */
    method RenameNext(ghost t0: Table, paths: seq<string>, i: nat, oldVersion: string, newVersion: string)
      requires Valid() && i < |paths| && AllUnder(paths, oldVersion)
      requires AllUnder(paths[..i], oldVersion) && Snapshot() == RenameAll(t0, paths[..i], oldVersion, newVersion)
      modifies this
      ensures AllUnder(paths[..i + 1], oldVersion)
      ensures Valid() && Snapshot() == RenameAll(t0, paths[..i + 1], oldVersion, newVersion)
    {
      RenameAllStep(t0, paths, i, oldVersion, newVersion);
      RenameFile(paths[i], oldVersion, newVersion);
    }

    method CopyVersionFiles(fromVersion: string, toVersion: string)
      requires Valid()
      modifies this
      ensures Valid()
      ensures Snapshot() == CopyAll(old(Snapshot()), VersionKeys(old(Snapshot()), fromVersion), fromVersion, toVersion)
    {
      var filesToCopy := KeysWithPrefix(order, VersionPrefix(fromVersion));
      ghost var t0 := Snapshot();
      var i := 0;
      while i < |filesToCopy|
        invariant 0 <= i <= |filesToCopy|
        invariant Valid()
        invariant Snapshot() == CopyAll(t0, filesToCopy[..i], fromVersion, toVersion)
      {
        CopyAllStep(t0, filesToCopy, i, fromVersion, toVersion);
        CopyFile(filesToCopy[i], fromVersion, toVersion);
        i := i + 1;
      }
      assert filesToCopy[..i] == filesToCopy;
    }

    method DeleteVersionFiles(version: string)
      requires Valid()
      modifies this
      ensures Valid()
      ensures Snapshot() == RemoveAll(old(Snapshot()), VersionKeys(old(Snapshot()), version))
    {
      var filesToDelete := KeysWithPrefix(order, VersionPrefix(version));
      ghost var t0 := Snapshot();
      var i := 0;
      while i < |filesToDelete|
        invariant 0 <= i <= |filesToDelete|
        invariant Valid()
        invariant Snapshot() == RemoveAll(t0, filesToDelete[..i])
      {
        RemoveAllStep(t0, filesToDelete, i);
        Delete(filesToDelete[i]);
        i := i + 1;
      }
      assert filesToDelete[..i] == filesToDelete;
    }

    method RenameVersionFiles(oldVersion: string, newVersion: string)
      requires Valid()
      modifies this
      ensures Valid()
      ensures Snapshot() == RenameAll(old(Snapshot()), VersionKeys(old(Snapshot()), oldVersion), oldVersion, newVersion)
    {
      var filesToRename := KeysWithPrefix(order, VersionPrefix(oldVersion));
      ghost var t0 := Snapshot();
      var i := 0;
      while i < |filesToRename|
        invariant 0 <= i <= |filesToRename|
        invariant Valid()
        invariant Snapshot() == RenameAll(t0, filesToRename[..i], oldVersion, newVersion)
      {
        RenameNext(t0, filesToRename, i, oldVersion, newVersion);
        i := i + 1;
      }
      assert filesToRename[..i] == filesToRename;
    }

    method InitializeDefaultFiles(version: string)
      requires Valid()
      modifies this
      ensures Valid() && Snapshot() == InitDefaults(old(Snapshot()), version)
    {
      if VersionExists(version) {
        return;
      }
      CreateMdFile(VersionPrefix(version) + DefaultFileNames[0], DefaultContent(DefaultFileNames[0], version));
      CreateMdFile(VersionPrefix(version) + DefaultFileNames[1], DefaultContent(DefaultFileNames[1], version));
      CreateMdFile(VersionPrefix(version) + DefaultFileNames[2], DefaultContent(DefaultFileNames[2], version));
      CreateMdFile(VersionPrefix(version) + DefaultFileNames[3], DefaultContent(DefaultFileNames[3], version));
      CreateMdFile(VersionPrefix(version) + DefaultFileNames[4], DefaultContent(DefaultFileNames[4], version));
    }
  }
}
