// What the file-store operations guarantee: single-file round trips, and for
// each whole-version operation a pointwise description of the resulting map.
module FileManagerLemmas {
  import opened JsRuntime
  import opened FileManager

  /** After `createMdFile(p, c)`, `readMdFile(p)` gives `c`, or null when `c` is empty. */
  lemma ReadAfterCreate(t: Table, path: string, content: string)
    ensures Read(Put(t, path, content), path) == (if content == "" then None else Some(content))
  {
  }

  /** Creating or updating one path leaves every other path and its content alone. */
  lemma PutLeavesOtherPaths(t: Table, path: string, content: string, other: string)
    requires other != path
    ensures other in Put(t, path, content).files <==> other in t.files
    ensures other in t.files ==> Put(t, path, content).files[other] == t.files[other]
  {
  }

  /** After `deleteMdFile(p)` the path is gone; deleting an absent path changes nothing. */
  lemma DeleteMakesAbsent(t: Table, path: string)
    requires TableValid(t)
    ensures path !in Remove(t, path).files && Read(Remove(t, path), path) == None
    ensures path !in t.files ==> Remove(t, path) == t
  {
    if path !in t.files {
      WithoutAbsent(t.order, path);
      assert t.files - {path} == t.files;
    }
  }

  /** `versionExists(v)` holds exactly when `getVersionFiles(v)` is non-empty. */
  lemma VersionExistsIffFiles(t: Table, version: string)
    ensures HasVersion(t, version) <==> VersionKeys(t, version) != []
  {
    if HasVersion(t, version) {
      var i :| 0 <= i < |t.order| && StartsWith(t.order[i], VersionPrefix(version));
      assert t.order[i] in VersionKeys(t, version);
    }
    if VersionKeys(t, version) != [] {
      var k := VersionKeys(t, version)[0];
      assert k in t.order;
      var i :| 0 <= i < |t.order| && t.order[i] == k;
      assert StartsWith(t.order[i], VersionPrefix(version));
    }
  }

  /** Between version names without `$`, rebasing there and back gives the path back. */
  lemma RebaseRoundTrip(path: string, from: string, to: string)
    requires StartsWith(path, VersionPrefix(from)) && PlainVersion(from) && PlainVersion(to)
    ensures Rebase(Rebase(path, from, to), to, from) == path
  {
    var pf, pt := VersionPrefix(from), VersionPrefix(to);
    var back := pt + path[|pf|..];
    assert back[|pt|..] == path[|pf|..];
    assert path == pf + path[|pf|..];
  }

  lemma RebaseSameVersion(path: string, version: string)
    requires StartsWith(path, VersionPrefix(version)) && PlainVersion(version)
    ensures Rebase(path, version, version) == path
  {
    var p := VersionPrefix(version);
    assert path == p + path[|p|..];
  }

  /** `$$` in the new version name reaches the path as a single `$`. */
  lemma RebaseCollapsesDollarPair(path: string, from: string, a: string, b: string)
    requires StartsWith(path, VersionPrefix(from)) && PlainVersion(a) && PlainVersion(b)
    ensures Rebase(path, from, a + "$$" + b) == VersionPrefix(a + "$" + b) + path[|VersionPrefix(from)|..]
  {
    var rest := path[|VersionPrefix(from)|..];
    var lit, tail := "docs/" + a, "$$" + (b + "/");
    assert '$' !in lit by {
      assert forall c :: c in lit ==> c in "docs/" || c in a;
    }
    assert VersionPrefix(a + "$$" + b) == lit + tail;
    ReplacementTextPrefix(lit, tail, "", VersionPrefix(from), rest);
    assert tail[2..] == b + "/";
    assert '$' !in b + "/" by {
      assert forall c :: c in b + "/" ==> c in b || c == '/';
    }
    ReplacementTextLiteral(b + "/", "", VersionPrefix(from), rest);
    assert ReplacementText(tail, "", VersionPrefix(from), rest) == "$" + (b + "/");
    assert lit + ("$" + (b + "/")) == VersionPrefix(a + "$" + b);
  }

  /**
   * `$&` in the new version name inserts the matched old prefix, so the
   * rebased path does not lie under the new version's prefix.
   */
  lemma RebaseInsertsMatch(path: string, from: string, a: string, b: string)
    requires StartsWith(path, VersionPrefix(from)) && PlainVersion(a) && PlainVersion(b)
    ensures Rebase(path, from, a + "$&" + b)
         == "docs/" + a + VersionPrefix(from) + b + "/" + path[|VersionPrefix(from)|..]
    ensures !StartsWith(Rebase(path, from, a + "$&" + b), VersionPrefix(a + "$&" + b))
  {
    var pf := VersionPrefix(from);
    var rest := path[|pf|..];
    var lit, tail := "docs/" + a, "$&" + (b + "/");
    assert '$' !in lit by {
      assert forall c :: c in lit ==> c in "docs/" || c in a;
    }
    assert VersionPrefix(a + "$&" + b) == lit + tail;
    ReplacementTextPrefix(lit, tail, "", pf, rest);
    assert tail[2..] == b + "/";
    assert '$' !in b + "/" by {
      assert forall c :: c in b + "/" ==> c in b || c == '/';
    }
    ReplacementTextLiteral(b + "/", "", pf, rest);
    assert ReplacementText(tail, "", pf, rest) == pf + (b + "/");
    var r := Rebase(path, from, a + "$&" + b);
    assert r == lit + (pf + (b + "/")) + rest;
    assert r == "docs/" + a + pf + b + "/" + rest;
    assert r[|lit|] == pf[0] == 'd';
    assert (lit + tail)[|lit|] == '$';
  }

  /** A literal head of the replacement is copied before the rest is expanded. */
  lemma {:induction false} ReplacementTextPrefix(lit: string, rep: string, before: string, matched: string, after: string)
    requires '$' !in lit
    ensures ReplacementText(lit + rep, before, matched, after) == lit + ReplacementText(rep, before, matched, after)
    decreases |lit|
  {
    if lit != [] {
      assert (lit + rep)[0] == lit[0] && (lit + rep)[1..] == lit[1..] + rep;
      assert lit[0] in lit;
      assert ReplacementText(lit + rep, before, matched, after)
          == [lit[0]] + ReplacementText(lit[1..] + rep, before, matched, after);
      assert '$' !in lit[1..] by {
        assert forall c :: c in lit[1..] ==> c in lit;
      }
      ReplacementTextPrefix(lit[1..], rep, before, matched, after);
      assert lit == [lit[0]] + lit[1..];
      assert [lit[0]] + (lit[1..] + ReplacementText(rep, before, matched, after))
          == lit + ReplacementText(rep, before, matched, after);
    } else {
      assert lit + rep == rep;
    }
  }

  /** With disjoint prefixes no path lies under both versions. */
  lemma UnderOnlyOne(path: string, from: string, to: string)
    requires Disjoint(from, to) && StartsWith(path, VersionPrefix(from))
    ensures !StartsWith(path, VersionPrefix(to))
  {
    var pf, pt := VersionPrefix(from), VersionPrefix(to);
    if StartsWith(path, pt) {
      if |pf| <= |pt| {
        StartsWithBoth(path, pf, pt);
      } else {
        StartsWithBoth(path, pt, pf);
      }
    }
  }

  /** The target path `k` receives the content of the source file it was copied from. */
  ghost predicate CopiedFrom(files: map<string, string>, k: string, from: string, to: string, paths: seq<string>) {
    && StartsWith(k, VersionPrefix(to))
    && var src := Rebase(k, to, from);
    src in paths && src in files && files[src] != ""
  }

  lemma {:induction false} CopyAllAt(t: Table, paths: seq<string>, from: string, to: string, k: string)
    requires Disjoint(from, to) && PlainVersion(from) && PlainVersion(to) && AllUnder(paths, from)
    ensures var r := CopyAll(t, paths, from, to).files;
      if CopiedFrom(t.files, k, from, to, paths) then k in r && r[k] == t.files[Rebase(k, to, from)]
      else (k in r <==> k in t.files) && (k in r ==> r[k] == t.files[k])
    decreases |paths|
  {
    if paths != [] {
      var init, j := paths[..|paths| - 1], paths[|paths| - 1];
      assert paths == init + [j];
      CopyAllAt(t, init, from, to, k);
      CopyAllAt(t, init, from, to, j);
      UnderOnlyOne(j, from, to);
      RebaseRoundTrip(j, from, to);
      if StartsWith(k, VersionPrefix(to)) {
        RebaseRoundTrip(k, to, from);
      }
    }
  }

  /**
   * `copyVersionFiles(from, to)` for disjoint version prefixes: a path under
   * `docs/<to>/` whose counterpart under `docs/<from>/` has non-empty
   * content now holds that content; every other path, including all of
   * `docs/<from>/`, keeps its presence and its content.
   */
  lemma CopyVersionFilesSpec(t: Table, from: string, to: string, k: string)
    requires TableValid(t) && Disjoint(from, to) && PlainVersion(from) && PlainVersion(to)
    ensures var r := CopyAll(t, VersionKeys(t, from), from, to).files;
      if StartsWith(k, VersionPrefix(to)) && Rebase(k, to, from) in t.files && t.files[Rebase(k, to, from)] != ""
      then k in r && r[k] == t.files[Rebase(k, to, from)]
      else (k in r <==> k in t.files) && (k in r ==> r[k] == t.files[k])
  {
    CopyAllAt(t, VersionKeys(t, from), from, to, k);
  }

  /** Every non-empty `docs/<from>/X` also exists as `docs/<to>/X` with the same content. */
  lemma CopyDuplicatesEachFile(t: Table, from: string, to: string, path: string)
    requires TableValid(t) && Disjoint(from, to) && PlainVersion(from) && PlainVersion(to)
    requires StartsWith(path, VersionPrefix(from)) && path in t.files && t.files[path] != ""
    ensures var r := CopyAll(t, VersionKeys(t, from), from, to).files;
      Rebase(path, from, to) in r && r[Rebase(path, from, to)] == t.files[path]
      && path in r && r[path] == t.files[path]
  {
    RebaseRoundTrip(path, from, to);
    CopyVersionFilesSpec(t, from, to, Rebase(path, from, to));
    UnderOnlyOne(path, from, to);
    CopyVersionFilesSpec(t, from, to, path);
  }

  lemma {:induction false} CopyToSelfAt(t: Table, paths: seq<string>, version: string)
    requires TableValid(t) && AllUnder(paths, version) && PlainVersion(version)
    ensures CopyAll(t, paths, version, version) == t
    decreases |paths|
  {
    if paths != [] {
      var init, j := paths[..|paths| - 1], paths[|paths| - 1];
      CopyToSelfAt(t, init, version);
      RebaseSameVersion(j, version);
      if j in t.files && t.files[j] != "" {
        assert t.files[j := t.files[j]] == t.files;
      }
    }
  }

  /** Copying a version onto itself rewrites each file with its own content: nothing changes. */
  lemma CopyToSelfIsIdentity(t: Table, version: string)
    requires TableValid(t) && PlainVersion(version)
    ensures CopyAll(t, VersionKeys(t, version), version, version) == t
  {
    CopyToSelfAt(t, VersionKeys(t, version), version);
  }

  lemma {:induction false} RenameAllAt(t: Table, paths: seq<string>, from: string, to: string, k: string)
    requires Disjoint(from, to) && PlainVersion(from) && PlainVersion(to)
    requires AllUnder(paths, from) && NoDuplicates(paths)
    ensures var r := RenameAll(t, paths, from, to).files;
      if CopiedFrom(t.files, k, from, to, paths) then k in r && r[k] == t.files[Rebase(k, to, from)]
      else if k in paths && k in t.files && t.files[k] != "" then k !in r
      else (k in r <==> k in t.files) && (k in r ==> r[k] == t.files[k])
    decreases |paths|
  {
    if paths != [] {
      var init, j := paths[..|paths| - 1], paths[|paths| - 1];
      assert paths == init + [j];
      assert j !in init;
      RenameAllAt(t, init, from, to, k);
      RenameAllAt(t, init, from, to, j);
      UnderOnlyOne(j, from, to);
      RebaseRoundTrip(j, from, to);
      if StartsWith(k, VersionPrefix(to)) {
        RebaseRoundTrip(k, to, from);
      }
      if StartsWith(k, VersionPrefix(from)) {
        UnderOnlyOne(k, from, to);
      }
    }
  }

  /**
   * `renameVersionFiles(old, new)` for disjoint version prefixes: each
   * non-empty `docs/<old>/X` is gone and its content sits at `docs/<new>/X`;
   * empty files under the old prefix stay where they were; every other path
   * is untouched.
   */
  lemma RenameVersionFilesSpec(t: Table, from: string, to: string, k: string)
    requires TableValid(t) && Disjoint(from, to) && PlainVersion(from) && PlainVersion(to)
    ensures var r := RenameAll(t, VersionKeys(t, from), from, to).files;
      if StartsWith(k, VersionPrefix(to)) && Rebase(k, to, from) in t.files && t.files[Rebase(k, to, from)] != ""
      then k in r && r[k] == t.files[Rebase(k, to, from)]
      else if StartsWith(k, VersionPrefix(from)) && k in t.files && t.files[k] != "" then k !in r
      else (k in r <==> k in t.files) && (k in r ==> r[k] == t.files[k])
  {
    RenameAllAt(t, VersionKeys(t, from), from, to, k);
  }

  /** A non-empty file under the old prefix moves; an empty one stays put. */
  lemma RenameMovesNonEmptyFiles(t: Table, from: string, to: string, path: string)
    requires TableValid(t) && Disjoint(from, to) && PlainVersion(from) && PlainVersion(to)
    requires StartsWith(path, VersionPrefix(from)) && path in t.files
    ensures var r := RenameAll(t, VersionKeys(t, from), from, to).files;
      if t.files[path] != "" then
        path !in r && Rebase(path, from, to) in r && r[Rebase(path, from, to)] == t.files[path]
      else path in r && r[path] == ""
  {
    RebaseRoundTrip(path, from, to);
    UnderOnlyOne(path, from, to);
    RenameVersionFilesSpec(t, from, to, path);
    RenameVersionFilesSpec(t, from, to, Rebase(path, from, to));
  }

  lemma {:induction false} RenameSelfAt(t: Table, paths: seq<string>, version: string, k: string)
    requires AllUnder(paths, version) && NoDuplicates(paths) && PlainVersion(version)
    ensures var r := RenameAll(t, paths, version, version).files;
      if k in paths && k in t.files && t.files[k] != "" then k !in r
      else (k in r <==> k in t.files) && (k in r ==> r[k] == t.files[k])
    decreases |paths|
  {
    if paths != [] {
      var init, j := paths[..|paths| - 1], paths[|paths| - 1];
      assert paths == init + [j];
      assert j !in init;
      RenameSelfAt(t, init, version, k);
      RenameSelfAt(t, init, version, j);
      RebaseSameVersion(j, version);
    }
  }

  /**
   * Renaming a version to its own name sets each non-empty file to its own
   * content and then deletes that same key: the version loses every
   * non-empty file, and nothing else changes.
   */
  lemma RenameToSelfDeletesFiles(t: Table, version: string, k: string)
    requires TableValid(t) && PlainVersion(version)
    ensures var r := RenameAll(t, VersionKeys(t, version), version, version).files;
      (k in r <==> k in t.files && !(StartsWith(k, VersionPrefix(version)) && t.files[k] != ""))
      && (k in r ==> r[k] == t.files[k])
  {
    RenameSelfAt(t, VersionKeys(t, version), version, k);
  }

  lemma {:induction false} RemoveAllAt(t: Table, paths: seq<string>, k: string)
    ensures var r := RemoveAll(t, paths).files;
      (k in r <==> k in t.files && k !in paths) && (k in r ==> r[k] == t.files[k])
    decreases |paths|
  {
    if paths != [] {
      var init := paths[..|paths| - 1];
      assert paths == init + [paths[|paths| - 1]];
      RemoveAllAt(t, init, k);
    }
  }

  /**
   * `deleteVersionFiles(v)` removes exactly the paths under `docs/<v>/`,
   * keeps every other path with its content, and leaves the version empty.
   */
  lemma DeleteVersionFilesSpec(t: Table, version: string, k: string)
    requires TableValid(t)
    ensures var r := RemoveAll(t, VersionKeys(t, version));
      (k in r.files <==> k in t.files && !StartsWith(k, VersionPrefix(version)))
      && (k in r.files ==> r.files[k] == t.files[k])
      && VersionKeys(r, version) == []
  {
    var r := RemoveAll(t, VersionKeys(t, version));
    RemoveAllAt(t, VersionKeys(t, version), k);
    if VersionKeys(r, version) != [] {
      var x := VersionKeys(r, version)[0];
      RemoveAllAt(t, VersionKeys(t, version), x);
      assert false;
    }
  }

  /** The trailing `/` of the prefix: deleting `v1` never touches `v10`. */
  lemma DeleteV1SparesV10(t: Table, path: string)
    requires TableValid(t) && StartsWith(path, VersionPrefix("v10")) && path in t.files
    ensures var r := RemoveAll(t, VersionKeys(t, "v1")).files;
      path in r && r[path] == t.files[path]
  {
    DeleteVersionFilesSpec(t, "v1", path);
    assert path[..|VersionPrefix("v1")|][7] == '0';
  }

  /** `initializeDefaultFiles` does nothing to a version that already has files. */
  lemma InitSkipsExistingVersion(t: Table, version: string)
    requires HasVersion(t, version)
    ensures InitDefaults(t, version) == t
  {
  }

  lemma PrefixedDistinct(p: string, a: string, b: string)
    requires a != b
    ensures p + a != p + b
  {
    assert (p + a)[|p|..] == a && (p + b)[|p|..] == b;
  }

  /** One default write: it sets its own file and leaves every other file of the version alone. */
  lemma ReadThroughPutDefault(t: Table, version: string, name: string, other: string)
    ensures Read(PutDefault(t, version, name), VersionPrefix(version) + other)
      == if other == name then Some(DefaultContent(name, version))
         else Read(t, VersionPrefix(version) + other)
  {
    if other != name {
      PrefixedDistinct(VersionPrefix(version), name, other);
    }
  }

  lemma DefaultNamesDistinct()
    ensures NoDuplicates(DefaultFileNames)
  {
  }

  /** On a version without files, the five default documents exist afterwards, none empty. */
  lemma InitCreatesDefaults(t: Table, version: string, i: nat)
    requires !HasVersion(t, version) && i < |DefaultFileNames|
    ensures Read(InitDefaults(t, version), VersionPrefix(version) + DefaultFileNames[i])
      == Some(DefaultContent(DefaultFileNames[i], version))
  {
    var n := DefaultFileNames;
    var m := n[i];
    DefaultNamesDistinct();
    var t1 := PutDefault(t, version, n[0]);
    var t2 := PutDefault(t1, version, n[1]);
    var t3 := PutDefault(t2, version, n[2]);
    var t4 := PutDefault(t3, version, n[3]);
    var t5 := PutDefault(t4, version, n[4]);
    assert InitDefaults(t, version) == t5;
    ReadThroughPutDefault(t, version, n[0], m);
    ReadThroughPutDefault(t1, version, n[1], m);
    ReadThroughPutDefault(t2, version, n[2], m);
    ReadThroughPutDefault(t3, version, n[3], m);
    ReadThroughPutDefault(t4, version, n[4], m);
  }

  /** Calling `initializeDefaultFiles` twice has the effect of calling it once. */
  lemma InitIdempotent(t: Table, version: string)
    requires TableValid(t)
    ensures InitDefaults(InitDefaults(t, version), version) == InitDefaults(t, version)
  {
    if !HasVersion(t, version) {
      var r := InitDefaults(t, version);
      var key := VersionPrefix(version) + DefaultFileNames[4];
      StartsWithAppend(VersionPrefix(version), DefaultFileNames[4]);
      assert key in r.files;
      assert key in r.order;
      var i :| 0 <= i < |r.order| && r.order[i] == key;
      assert HasVersion(r, version);
    }
  }
}
