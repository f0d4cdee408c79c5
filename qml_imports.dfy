/**
  The handling of the records `qmlimportscanner` prints: each module found is copied under the
  output QML directory, the native plugin it names is remembered as `lib<plugin>.so`, and the
  files of the copied tree with such a name become work items of the resolver.
*/
module QmlImports {
  import opened Wrappers
  import opened Text
  import opened PosixPath
  import opened CopyLog

  /** `find_relative_path` with its `raise` as None: the first root the path starts with is removed. */
  function FindRelativePath(roots: seq<string>, path: string): Option<string> {
    if roots == [] then None
    else if StartsWith(path, roots[0]) then Some(DropLeadingSlash(RemoveAll(path, roots[0])))
    else FindRelativePath(roots[1..], path)
  }

  /** The loop of `find_relative_path`: return at the first root that is a prefix of the path. */
  method FindRelative(roots: seq<string>, path: string) returns (r: Option<string>)
    ensures r == FindRelativePath(roots, path)
  {
    var k := 0;
    while k < |roots|
      invariant 0 <= k <= |roots|
      invariant FindRelativePath(roots[k..], path) == FindRelativePath(roots, path)
    {
      var root := roots[k];
      assert roots[k..][1..] == roots[k + 1..];
      if StartsWith(path, root) {
        var p := RemoveAll(path, root);
        if StartsWith(p, "/") {
          p := p[1..];
        }
        return Some(p);
      }
      k := k + 1;
    }
    return None;
  }

  /** `if p.startswith('/'): p = p[1:]`. */
  function DropLeadingSlash(p: string): string {
    if StartsWith(p, "/") then p[1..] else p
  }

  /** The root chosen for `path`: the first, in order, that is a prefix of it. */
  ghost predicate FirstRoot(roots: seq<string>, path: string, i: int) {
    0 <= i < |roots| && StartsWith(path, roots[i])
    && forall j :: 0 <= j < i ==> !StartsWith(path, roots[j])
  }

  /** Once the first prefixing root is known, the lookup answers with that root removed. */
  lemma {:induction false} FindRelativePathFirst(roots: seq<string>, path: string, i: int)
    requires FirstRoot(roots, path, i)
    ensures FindRelativePath(roots, path) == Some(DropLeadingSlash(RemoveAll(path, roots[i])))
    decreases |roots|
  {
    if i > 0 {
      assert !StartsWith(path, roots[0]);
      assert FirstRoot(roots[1..], path, i - 1) by {
        forall j | 0 <= j < i - 1 ensures !StartsWith(path, roots[1..][j]) {
          assert roots[1..][j] == roots[j + 1];
        }
      }
      FindRelativePathFirst(roots[1..], path, i - 1);
    }
  }

  /** With no prefixing root, the lookup fails (the script raises). */
  lemma {:induction false} FindRelativePathNone(roots: seq<string>, path: string)
    requires forall i :: 0 <= i < |roots| ==> !StartsWith(path, roots[i])
    ensures FindRelativePath(roots, path) == None
    decreases |roots|
  {
    if roots != [] {
      assert !StartsWith(path, roots[0]);
      assert forall i :: 0 <= i < |roots[1..]| ==> roots[1..][i] == roots[i + 1];
      FindRelativePathNone(roots[1..], path);
    }
  }

  /**
    The lookup fails exactly when no root is a prefix of the path; otherwise the result is the
    path with every occurrence of the first such root removed and at most one leading `/` dropped.
  */
  lemma FindRelativePathSpec(roots: seq<string>, path: string)
    ensures FindRelativePath(roots, path).None? <==> forall i :: 0 <= i < |roots| ==> !StartsWith(path, roots[i])
    ensures FindRelativePath(roots, path).Some? ==>
              exists i :: FirstRoot(roots, path, i)
                          && FindRelativePath(roots, path).value == DropLeadingSlash(RemoveAll(path, roots[i]))
  {
    if forall i :: 0 <= i < |roots| ==> !StartsWith(path, roots[i]) {
      FindRelativePathNone(roots, path);
    } else {
      FirstPrefixExists(roots, path, 0);
      var i :| FirstRoot(roots, path, i);
      FindRelativePathFirst(roots, path, i);
    }
  }

  /** When some root from index `k` on is a prefix of the path, a first one exists. */
  lemma {:induction false} FirstPrefixExists(roots: seq<string>, path: string, k: nat)
    requires k <= |roots|
    requires forall j :: 0 <= j < k ==> !StartsWith(path, roots[j])
    requires exists i :: k <= i < |roots| && StartsWith(path, roots[i])
    ensures exists i :: FirstRoot(roots, path, i)
    decreases |roots| - k
  {
    if StartsWith(path, roots[k]) {
      assert FirstRoot(roots, path, k);
    } else {
      FirstPrefixExists(roots, path, k + 1);
    }
  }

  /**
    A file `root/rel` below the chosen root maps back to `rel`, as long as neither an earlier
    root is a prefix of it nor `root` occurs again after the prefix.
  */
  lemma FindRelativePathBelowRoot(roots: seq<string>, i: nat, rel: string)
    requires i < |roots| && roots[i] != []
    requires forall j :: 0 <= j < i ==> !StartsWith(roots[i] + "/" + rel, roots[j])
    requires !Occurs("/" + rel, roots[i])
    ensures FindRelativePath(roots, roots[i] + "/" + rel) == Some(rel)
  {
    var root := roots[i];
    var path := root + "/" + rel;
    assert path[..|root|] == root;
    assert FirstRoot(roots, path, i);
    FindRelativePathFirst(roots, path, i);
    assert path[|root|..] == "/" + rel;
    RemoveAllAbsent("/" + rel, root);
    assert RemoveAll(path, root) == "/" + rel;
    assert ("/" + rel)[..1] == "/";
    assert ("/" + rel)[1..] == rel;
  }

  /** `str.replace` removes every occurrence: under root `/x`, `/x/y/x/z` becomes `y/z`, not `y/x/z`. */
  lemma FindRelativePathRemovesRepeats()
    ensures FindRelativePath(["/x"], "/x/y/x/z") == Some("y/z")
  {
    var s := "/x/y/x/z";
    assert StartsWith(s, "/x") by { assert s[..2] == "/x"; }
    RemoveRepeats();
    assert "/y/z"[1..] == "y/z";
  }

  /** `"/x/y/x/z".replace("/x", "")` is `"/y/z"`: both occurrences go. */
  lemma RemoveRepeats()
    ensures RemoveAll("/x/y/x/z", "/x") == "/y/z"
  {
    var t := "/x";
    RemoveAllDrop("/x/y/x/z", t, "/y/x/z");
    RemoveAllKeep("/y/x/z", t, "y/x/z");
    RemoveAllKeep("y/x/z", t, "/x/z");
    RemoveAllDrop("/x/z", t, "/z");
    RemoveAllKeep("/z", t, "z");
    assert RemoveAll("z", t) == "z";
    assert "/" + ("y" + "/z") == "/y/z";
  }

  lemma RemoveAllDrop(s: string, t: string, rest: string)
    requires t != [] && |s| >= |t| && s[..|t|] == t && rest == s[|t|..]
    ensures RemoveAll(s, t) == RemoveAll(rest, t)
  {
  }

  lemma RemoveAllKeep(s: string, t: string, rest: string)
    requires t != [] && |s| >= |t| && s[..|t|] != t && rest == s[1..]
    ensures RemoveAll(s, t) == [s[0]] + RemoveAll(rest, t)
  {
  }



  /** `'lib{}.so'.format(plugin)`: the file name of a QML module's native plugin. */
  function PluginFileName(plugin: string): string {
    "lib" + plugin + ".so"
  }

  /** The file name ends in `.so`, and it determines the plugin name. */
  lemma PluginFileNameSpec(p: string, q: string)
    ensures StartsWith(PluginFileName(p), "lib") && EndsWith(PluginFileName(p), ".so")
    ensures PluginFileName(p) == PluginFileName(q) ==> p == q
  {
    var f := PluginFileName(p);
    assert f[..3] == "lib";
    assert f[|f| - 3..] == ".so";
    assert f[3..|f| - 3] == p;
    if f == PluginFileName(q) {
      assert PluginFileName(q)[3..|PluginFileName(q)| - 3] == q;
    }
  }

  /** One record of `qmlimportscanner`'s JSON output; None for an absent key. */
  datatype Import = Import(
    name: Option<string>,
    path: Option<string>,
    relativePath: Option<string>,
    plugin: Option<string>)

  /**
    What the file system says about the scanner's paths: which exist (`os.path.exists`) and
    which of them are directories (`os.path.isdir`).
  */
  datatype QmlFiles = QmlFiles(existing: set<string>, dirs: set<string>)

  datatype ImportOutcome =
      /** A record without `path` and without `name`: `imp['name']` raises KeyError. */
    | Crash
      /** `continue`: no path, a path that does not exist, or no relative path. */
    | Skipped
      /** The module was copied, and maybe names a native plugin file. */
    | Deployed(copy: Copy, pluginFile: Option<string>)

  /** The relative path a record is copied to: its `relativePath`, else `find_relative_path(path)`. */
  function RelativePathOf(roots: seq<string>, imp: Import): Option<string>
    requires imp.path.Some?
  {
    if imp.relativePath.Some? then imp.relativePath else FindRelativePath(roots, imp.path.value)
  }

  /** The body of the loop over the scanner's records. */
  function HandleImport(roots: seq<string>, outQmlDir: string, fs: QmlFiles, imp: Import): ImportOutcome {
    if imp.path.None? then
      if imp.name.None? then Crash else Skipped
    else if imp.path.value !in fs.existing then
      Skipped
    else
      var path := imp.path.value;
      var rel := RelativePathOf(roots, imp);
      match rel
      case None => Skipped
      case Some(r) =>
        var out := Join(outQmlDir, r);
        var copy := if path in fs.dirs then QmlTree(path, out) else QmlFile(path, out);
        Deployed(copy, if imp.plugin.Some? then Some(PluginFileName(imp.plugin.value)) else None)
  }

  /** The copies made and the plugin file names collected over a prefix of the records. */
  datatype ImportsState = ImportsState(copies: seq<Copy>, pluginFiles: seq<string>, crashed: bool)

  /** The loop over the records; a crash ends it. */
  function HandleImports(roots: seq<string>, outQmlDir: string, fs: QmlFiles, imports: seq<Import>): ImportsState {
    if imports == [] then ImportsState([], [], false)
    else
      var prev := HandleImports(roots, outQmlDir, fs, imports[..|imports| - 1]);
      if prev.crashed then prev
      else
        match HandleImport(roots, outQmlDir, fs, imports[|imports| - 1])
        case Crash => prev.(crashed := true)
        case Skipped => prev
        case Deployed(c, pf) =>
          ImportsState(prev.copies + [c],
                       prev.pluginFiles + (if pf.Some? then [pf.value] else []),
                       false)
  }

  /** The loop crashes exactly when some record lacks both `path` and `name`. */
  lemma {:induction false} HandleImportsCrash(roots: seq<string>, outQmlDir: string, fs: QmlFiles, imports: seq<Import>)
    ensures HandleImports(roots, outQmlDir, fs, imports).crashed <==>
              exists i :: 0 <= i < |imports| && imports[i].path.None? && imports[i].name.None?
    decreases |imports|
  {
    if imports != [] {
      var init := imports[..|imports| - 1];
      HandleImportsCrash(roots, outQmlDir, fs, init);
      assert forall i :: 0 <= i < |init| ==> imports[i] == init[i];
    }
  }

  /** Once a record has crashed the loop, the records after it change nothing. */
  lemma {:induction false} HandleImportsAfterCrash(roots: seq<string>, outQmlDir: string, fs: QmlFiles, imports: seq<Import>, k: nat)
    requires k <= |imports| && HandleImports(roots, outQmlDir, fs, imports[..k]).crashed
    ensures HandleImports(roots, outQmlDir, fs, imports) == HandleImports(roots, outQmlDir, fs, imports[..k])
    decreases |imports| - k
  {
    if k < |imports| {
      var init := imports[..|imports| - 1];
      assert init[..k] == imports[..k];
      HandleImportsAfterCrash(roots, outQmlDir, fs, init, k);
    } else {
      assert imports[..k] == imports;
    }
  }

  /**
    Without a crash, every copy is a QML module tree or file that exists, placed under the
    output QML directory, and there is at most one copy per record.
  */
  lemma {:induction false} HandleImportsCopies(roots: seq<string>, outQmlDir: string, fs: QmlFiles, imports: seq<Import>)
    ensures var r := HandleImports(roots, outQmlDir, fs, imports);
            !r.crashed ==>
              && |r.copies| <= |imports|
              && forall c :: c in r.copies ==>
                   (c.QmlTree? || c.QmlFile?) && c.from in fs.existing && exists rel :: c.to == Join(outQmlDir, rel)
    decreases |imports|
  {
    if imports != [] {
      HandleImportsCopies(roots, outQmlDir, fs, imports[..|imports| - 1]);
    }
  }

  /**
    One record, case by case: it raises exactly when it has neither `path` nor `name`; it is
    copied exactly when its path exists and a relative path is known, then from that path to
    `<out_qml_dir>/<rel>`, as a tree exactly when the path is a directory, collecting
    `lib<plugin>.so` exactly when it names a plugin.
  */
  lemma HandleImportSpec(roots: seq<string>, outQmlDir: string, fs: QmlFiles, imp: Import)
    ensures HandleImport(roots, outQmlDir, fs, imp).Crash? <==> imp.path.None? && imp.name.None?
    ensures HandleImport(roots, outQmlDir, fs, imp).Deployed? <==>
              imp.path.Some? && imp.path.value in fs.existing && RelativePathOf(roots, imp).Some?
    ensures HandleImport(roots, outQmlDir, fs, imp).Deployed? ==>
              var o := HandleImport(roots, outQmlDir, fs, imp);
              && (o.copy.QmlTree? || o.copy.QmlFile?)
              && o.copy.from == imp.path.value
              && o.copy.to == Join(outQmlDir, RelativePathOf(roots, imp).value)
              && (o.copy.QmlTree? <==> imp.path.value in fs.dirs)
              && (o.pluginFile.Some? <==> imp.plugin.Some?)
              && (o.pluginFile.Some? ==> o.pluginFile.value == PluginFileName(imp.plugin.value))
  {
  }

  /** Without a crash, a copy is made exactly when some record deploys it. */
  lemma {:induction false} HandleImportsCopiesMembers(roots: seq<string>, outQmlDir: string, fs: QmlFiles,
                                                      imports: seq<Import>, c: Copy)
    ensures var r := HandleImports(roots, outQmlDir, fs, imports);
            !r.crashed ==>
              (c in r.copies <==>
                 exists imp :: imp in imports && HandleImport(roots, outQmlDir, fs, imp).Deployed?
                               && HandleImport(roots, outQmlDir, fs, imp).copy == c)
    decreases |imports|
  {
    if imports != [] {
      var init := imports[..|imports| - 1];
      var last := imports[|imports| - 1];
      HandleImportsCopiesMembers(roots, outQmlDir, fs, init, c);
      assert imports == init + [last];
      var r := HandleImports(roots, outQmlDir, fs, imports);
      var prev := HandleImports(roots, outQmlDir, fs, init);
      if !r.crashed {
        assert !prev.crashed;
        if exists imp :: imp in imports && HandleImport(roots, outQmlDir, fs, imp).Deployed?
                         && HandleImport(roots, outQmlDir, fs, imp).copy == c {
          var imp :| imp in imports && HandleImport(roots, outQmlDir, fs, imp).Deployed?
                     && HandleImport(roots, outQmlDir, fs, imp).copy == c;
          if imp != last {
            assert imp in init;
          }
        }
        if c in prev.copies {
          var imp :| imp in init && HandleImport(roots, outQmlDir, fs, imp).Deployed?
                     && HandleImport(roots, outQmlDir, fs, imp).copy == c;
          assert imp in imports;
        }
        if c in r.copies && c !in prev.copies {
          assert last in imports;
        }
      }
    }
  }

  /** Without a crash, a file name is collected exactly when a deployed record names that plugin. */
  lemma {:induction false} HandleImportsPluginFiles(roots: seq<string>, outQmlDir: string, fs: QmlFiles, imports: seq<Import>, f: string)
    ensures var r := HandleImports(roots, outQmlDir, fs, imports);
            !r.crashed ==>
              (f in r.pluginFiles <==>
                 exists imp :: imp in imports && imp.plugin.Some? && f == PluginFileName(imp.plugin.value)
                               && HandleImport(roots, outQmlDir, fs, imp).Deployed?)
    decreases |imports|
  {
    if imports != [] {
      var init := imports[..|imports| - 1];
      var last := imports[|imports| - 1];
      HandleImportsPluginFiles(roots, outQmlDir, fs, init, f);
      assert imports == init + [last];
      var r := HandleImports(roots, outQmlDir, fs, imports);
      var prev := HandleImports(roots, outQmlDir, fs, init);
      if !r.crashed {
        assert !prev.crashed;
        if exists imp :: imp in imports && imp.plugin.Some? && f == PluginFileName(imp.plugin.value)
                         && HandleImport(roots, outQmlDir, fs, imp).Deployed? {
          var imp :| imp in imports && imp.plugin.Some? && f == PluginFileName(imp.plugin.value)
                     && HandleImport(roots, outQmlDir, fs, imp).Deployed?;
          if imp != last {
            assert imp in init;
          }
        }
        if f in prev.pluginFiles {
          var imp :| imp in init && imp.plugin.Some? && f == PluginFileName(imp.plugin.value)
                     && HandleImport(roots, outQmlDir, fs, imp).Deployed?;
          assert imp in imports;
        }
        if f in r.pluginFiles && f !in prev.pluginFiles {
          assert last in imports;
        }
      }
    }
  }

  /** The files of the copied QML tree whose name is a collected plugin file name, in walk order. */
  function SeedPaths(outQmlDir: string, tree: seq<WalkEntry>, pluginFiles: seq<string>): seq<string> {
    if tree == [] then []
    else
      var e := tree[|tree| - 1];
      SeedPaths(outQmlDir, tree[..|tree| - 1], pluginFiles)
      + (if e.file in pluginFiles then [WalkPath(outQmlDir, e)] else [])
  }

  /** A walked file becomes a work item exactly when its name was collected. */
  lemma {:induction false} SeedPathsSpec(outQmlDir: string, tree: seq<WalkEntry>, pluginFiles: seq<string>)
    ensures forall p :: p in SeedPaths(outQmlDir, tree, pluginFiles) <==>
              exists e :: e in tree && e.file in pluginFiles && p == WalkPath(outQmlDir, e)
    ensures |SeedPaths(outQmlDir, tree, pluginFiles)| <= |tree|
    decreases |tree|
  {
    if tree != [] {
      var init := tree[..|tree| - 1];
      SeedPathsSpec(outQmlDir, init, pluginFiles);
      assert tree == init + [tree[|tree| - 1]];
      forall p | (exists e :: e in tree && e.file in pluginFiles && p == WalkPath(outQmlDir, e))
        ensures p in SeedPaths(outQmlDir, tree, pluginFiles)
      {
        var e :| e in tree && e.file in pluginFiles && p == WalkPath(outQmlDir, e);
        if e != tree[|tree| - 1] {
          assert e in init;
        }
      }
    }
  }
}
