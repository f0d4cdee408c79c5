/**
  What the resolver achieves and where it falls short of an at-most-once closure: every
  libs-dir dependency of every inspected file ends up parsed and copied, bundles are appended
  whatever was copied before, a dependency copied by an earlier sibling's recursion is copied a
  second time, and a system library is copied without being looked into.
*/
module ResolverLemmas {
  import opened Wrappers
  import opened Text
  import opened Readelf
  import opened LibraryNames
  import opened PosixPath
  import opened PluginTable
  import opened CopyLog
  import opened Resolver

  // ---- copy_plugins ----

  /** The bundle copies `copy_plugins(names)` makes: one per listed name that exists, in order. */
  function BundleCopies(env: Env, names: seq<string>): seq<Copy> {
    if names == [] then []
    else
      var n := names[0];
      (if n in env.bundles then [Bundle(n, Join(env.pluginsDir, n), Join(env.outPluginsDir, n))] else [])
      + BundleCopies(env, names[1..])
  }

  /** The worklist entries `copy_plugins(names)` appends: the `.so` files of each copied bundle. */
  function BundleFiles(env: Env, names: seq<string>): seq<string> {
    if names == [] then []
    else
      var n := names[0];
      (if n in env.bundles then SoFiles(Join(env.outPluginsDir, n), env.bundles[n]) else [])
      + BundleFiles(env, names[1..])
  }

  /**
    `copy_plugins` appends the same copies and files whatever the state: nothing is
    deduplicated against earlier copies, and `parsed_dependencies` is left alone.
  */
  lemma {:induction false} CopyPluginsAppends(env: Env, st: St, names: seq<string>)
    ensures CopyPluginsF(env, st, names)
            == St(st.parsed, st.executables + BundleFiles(env, names), st.log + BundleCopies(env, names))
    decreases |names|
  {
    if names != [] {
      var n := names[0];
      var st' := CopyBundle(env, st, n);
      CopyPluginsAppends(env, st', names[1..]);
      CopyPluginsUnfold(env, st, names);
      if n in env.bundles {
        var to := Join(env.outPluginsDir, n);
        var files := SoFiles(to, env.bundles[n]);
        var copy := Bundle(n, Join(env.pluginsDir, n), to);
        assert BundleFiles(env, names) == files + BundleFiles(env, names[1..]);
        assert BundleCopies(env, names) == [copy] + BundleCopies(env, names[1..]);
        assert st'.executables == st.executables + files && st'.log == st.log + [copy];
        assert (st.executables + files) + BundleFiles(env, names[1..])
               == st.executables + (files + BundleFiles(env, names[1..]));
        assert (st.log + [copy]) + BundleCopies(env, names[1..])
               == st.log + ([copy] + BundleCopies(env, names[1..]));
      } else {
        assert st' == st;
        assert BundleFiles(env, names) == BundleFiles(env, names[1..]);
        assert BundleCopies(env, names) == BundleCopies(env, names[1..]);
      }
    }
  }

  /** Triggering the same bundles twice copies them twice and lists their files twice. */
  lemma CopyPluginsTwice(env: Env, st: St, names: seq<string>)
    ensures var r := CopyPluginsF(env, CopyPluginsF(env, st, names), names);
            r.log == st.log + BundleCopies(env, names) + BundleCopies(env, names)
            && r.executables == st.executables + BundleFiles(env, names) + BundleFiles(env, names)
  {
    CopyPluginsAppends(env, st, names);
    CopyPluginsAppends(env, CopyPluginsF(env, st, names), names);
  }

  /** A bundle is copied exactly when it is listed and exists in the plugins dir. */
  lemma {:induction false} BundleCopiesMembers(env: Env, names: seq<string>, c: Copy)
    ensures c in BundleCopies(env, names) <==>
              exists n :: n in names && n in env.bundles
                          && c == Bundle(n, Join(env.pluginsDir, n), Join(env.outPluginsDir, n))
    ensures |BundleCopies(env, names)| <= |names|
    decreases |names|
  {
    if names != [] {
      BundleCopiesMembers(env, names[1..], c);
      assert forall n :: n in names ==> n == names[0] || n in names[1..];
    }
  }

  /** A worklist entry is added exactly when it is a `.so` file of a listed bundle that exists. */
  lemma {:induction false} BundleFilesMembers(env: Env, names: seq<string>, p: string)
    ensures p in BundleFiles(env, names) <==>
              exists n, e :: n in names && n in env.bundles && e in env.bundles[n]
                             && EndsWith(e.file, ".so") && p == WalkPath(Join(env.outPluginsDir, n), e)
    decreases |names|
  {
    if names != [] {
      var n0 := names[0];
      BundleFilesMembers(env, names[1..], p);
      if n0 in env.bundles {
        SoFilesMembers(Join(env.outPluginsDir, n0), env.bundles[n0], p);
      }
      assert forall n :: n in names ==> n == n0 || n in names[1..];
      if exists n, e :: n in names && n in env.bundles && e in env.bundles[n]
                        && EndsWith(e.file, ".so") && p == WalkPath(Join(env.outPluginsDir, n), e) {
        var n, e :| n in names && n in env.bundles && e in env.bundles[n]
                    && EndsWith(e.file, ".so") && p == WalkPath(Join(env.outPluginsDir, n), e);
        if n == n0 {
          SoFilesMembers(Join(env.outPluginsDir, n0), env.bundles[n0], p);
        }
      }
    }
  }

  // ---- copy_library ----

  /**
    After inspecting its source file, `copy_library(lib)` copies exactly the bundles the plugin
    table lists for the logical key of `lib`, and none on a miss.
  */
  lemma CopyLibPlugins(env: Env, st: St, lib: string)
    requires lib in env.libs
    ensures var m := InspectF(env, Marked(env, st, lib), LibPath(env, lib));
            var listed := if LogicalKey(lib) in env.plugins then env.plugins[LogicalKey(lib)] else [];
            CopyLibF(env, st, lib) == St(m.parsed, m.executables + BundleFiles(env, listed), m.log + BundleCopies(env, listed))
  {
    var m := InspectF(env, Marked(env, st, lib), LibPath(env, lib));
    if LogicalKey(lib) in env.plugins {
      CopyPluginsAppends(env, m, env.plugins[LogicalKey(lib)]);
    } else {
      assert m.executables + [] == m.executables && m.log + [] == m.log;
    }
  }

  // ---- The closure ----

  /** Every libs-dir name `file` needs is in `P`. */
  ghost predicate NeedsMet(env: Env, file: string, P: seq<string>) {
    var ds := NeededOf(env, file);
    forall j :: 0 <= j < |ds| && ds[j] in env.libs ==> ds[j] in P
  }

  /** Every library parsed from index `from` on has its libs-dir needs in `P`. */
  ghost predicate LibsClosed(env: Env, parsed: seq<string>, from: nat, P: seq<string>) {
    forall k :: from <= k < |parsed| ==> NeedsMet(env, LibPath(env, parsed[k]), P)
  }

  lemma NeedsMetGrows(env: Env, file: string, P: seq<string>, Q: seq<string>)
    requires NeedsMet(env, file, P) && P <= Q
    ensures NeedsMet(env, file, Q)
  {
    PrefixNotIn(P, Q);
  }

  lemma LibsClosedGrows(env: Env, parsed: seq<string>, from: nat, P: seq<string>, Q: seq<string>)
    requires LibsClosed(env, parsed, from, P) && P <= Q
    ensures LibsClosed(env, parsed, from, Q)
  {
    PrefixNotIn(P, Q);
  }

  /** Closed up to the end of a prefix and closed after it: closed throughout. */
  lemma LibsClosedSplice(env: Env, a: seq<string>, b: seq<string>, from: nat, P: seq<string>)
    requires from <= |a| && a <= b
    requires LibsClosed(env, a, from, P) && LibsClosed(env, b, |a|, P)
    ensures LibsClosed(env, b, from, P)
  {
    forall k | from <= k < |b| ensures NeedsMet(env, LibPath(env, b[k]), P) {
      if k < |a| {
        assert b[k] == a[k];
      }
    }
  }

  /**
    After `inspect_file_recursive(file)` every libs-dir name the file needs is parsed, and so is
    every libs-dir name needed by a library parsed during the call.
  */
  lemma {:induction false} InspectCloses(env: Env, st: St, file: string)
    ensures var r := InspectF(env, st, file);
            NeedsMet(env, file, r.parsed) && LibsClosed(env, r.parsed, |st.parsed|, r.parsed)
    decreases Unparsed(env, st.parsed), 1, 0
  {
    var r := InspectF(env, st, file);
    match env.readelf(file)
    case None =>
    case Some(lines) =>
      var deps := Fresh(NeededNames(lines), st.parsed);
      DepsCloses(env, st, st.parsed, deps);
      PrefixNotIn(st.parsed, r.parsed);
  }

  /** After the dependency loop every libs-dir name of `deps` is parsed, and the new libraries are closed. */
  lemma {:induction false} DepsCloses(env: Env, st: St, P0: seq<string>, deps: seq<string>)
    requires P0 <= st.parsed
    requires forall d :: d in deps ==> d !in P0
    ensures var r := DepsF(env, st, P0, deps);
            (forall d :: d in deps && d in env.libs ==> d in r.parsed)
            && LibsClosed(env, r.parsed, |st.parsed|, r.parsed)
    decreases Unparsed(env, P0), 0, |deps|
  {
    if deps != [] {
      var d := deps[0];
      var r := DepsF(env, st, P0, deps);
      if d in env.libs {
        Shrinks(env, P0, st.parsed, d);
        var st' := CopyLibF(env, st, d);
        PrefixTrans(P0, st.parsed, st'.parsed);
        CopyLibCloses(env, st, d);
        DepsCloses(env, st', P0, deps[1..]);
        assert r == DepsF(env, st', P0, deps[1..]);
        LibsClosedGrows(env, st'.parsed, |st.parsed|, st'.parsed, r.parsed);
        PrefixNotIn(st'.parsed, r.parsed);
        assert d in st'.parsed;
        LibsClosedSplice(env, st'.parsed, r.parsed, |st.parsed|, r.parsed);
      } else {
        var st' := SystemCopy(env, st, d);
        SystemCopyExtends(env, st, d);
        DepsCloses(env, st', P0, deps[1..]);
      }
      assert forall x :: x in deps ==> x == d || x in deps[1..];
    }
  }

  /** After `copy_library(lib)`, `lib` and every library parsed during the call are closed. */
  lemma {:induction false} CopyLibCloses(env: Env, st: St, lib: string)
    requires lib in env.libs
    ensures var r := CopyLibF(env, st, lib);
            LibsClosed(env, r.parsed, |st.parsed|, r.parsed)
    decreases Unparsed(env, st.parsed + [lib]), 2, 0
  {
    var st1 := Marked(env, st, lib);
    var m := InspectF(env, st1, LibPath(env, lib));
    InspectCloses(env, st1, LibPath(env, lib));
    var r := CopyLibF(env, st, lib);
    CopyLibUnfold(env, st, lib);
    assert r.parsed == m.parsed;
    PrefixAt(st1.parsed, m.parsed, |st.parsed|);
    LibsClosedCons(env, m.parsed, |st.parsed|, m.parsed);
  }

  lemma NeedsMetFrom(env: Env, files: seq<string>, i: nat, P: seq<string>)
    requires i < |files| && NeedsMet(env, files[i], P)
    requires forall k :: i + 1 <= k < |files| ==> NeedsMet(env, files[k], P)
    ensures forall k :: i <= k < |files| ==> NeedsMet(env, files[k], P)
  {
  }

  lemma LibsClosedCons(env: Env, parsed: seq<string>, from: nat, P: seq<string>)
    requires from < |parsed| && NeedsMet(env, LibPath(env, parsed[from]), P)
    requires LibsClosed(env, parsed, from + 1, P)
    ensures LibsClosed(env, parsed, from, P)
  {
  }

  /**
    After the worklist drain from position `i`, every entry from `i` on (including the ones
    appended meanwhile) has its libs-dir needs parsed, and so has every library parsed meanwhile.
  */
  lemma {:induction false} DrainCloses(env: Env, st: St, i: nat)
    ensures var r := DrainF(env, st, i);
            (forall k :: i <= k < |r.executables| ==> NeedsMet(env, r.executables[k], r.parsed))
            && LibsClosed(env, r.parsed, |st.parsed|, r.parsed)
    decreases Unparsed(env, st.parsed), |st.executables| - i
  {
    if i < |st.executables| {
      var file := st.executables[i];
      var m := InspectF(env, st, file);
      ExtendsUnparsed(env, st, m);
      InspectCloses(env, st, file);
      DrainCloses(env, m, i + 1);
      var r := DrainF(env, m, i + 1);
      DrainUnfold(env, st, i);
      NeedsMetGrows(env, file, m.parsed, r.parsed);
      LibsClosedGrows(env, m.parsed, |st.parsed|, m.parsed, r.parsed);
      LibsClosedSplice(env, m.parsed, r.parsed, |st.parsed|, r.parsed);
      PrefixAt(st.executables, r.executables, i);
      NeedsMetFrom(env, r.executables, i, r.parsed);
    } else {
      ExtendsRefl(env, st);
    }
  }

  // ---- Where the resolver differs from an at-most-once closure ----

  /** An inspection whose `readelf` succeeds resolves the fresh names among those it found. */
  lemma InspectUnfold(env: Env, st: St, file: string)
    requires env.readelf(file).Some?
    ensures InspectF(env, st, file) == DepsF(env, st, st.parsed, Fresh(NeededOf(env, file), st.parsed))
  {
  }

  /** One step of the dependency loop on a libs-dir name. */
  lemma DepsUnfoldLib(env: Env, st: St, P0: seq<string>, deps: seq<string>)
    requires P0 <= st.parsed
    requires forall d :: d in deps ==> d !in P0
    requires deps != [] && deps[0] in env.libs
    ensures P0 <= CopyLibF(env, st, deps[0]).parsed
    ensures DepsF(env, st, P0, deps) == DepsF(env, CopyLibF(env, st, deps[0]), P0, deps[1..])
  {
    PrefixTrans(P0, st.parsed, CopyLibF(env, st, deps[0]).parsed);
  }

  lemma DepsUnfoldSystem(env: Env, st: St, P0: seq<string>, deps: seq<string>)
    requires P0 <= st.parsed
    requires forall d :: d in deps ==> d !in P0
    requires deps != [] && deps[0] !in env.libs
    ensures SystemCopy(env, st, deps[0]).parsed == st.parsed
    ensures DepsF(env, st, P0, deps) == DepsF(env, SystemCopy(env, st, deps[0]), P0, deps[1..])
  {
    SystemCopyExtends(env, st, deps[0]);
  }

  lemma PrefixAt<T>(a: seq<T>, b: seq<T>, i: nat)
    requires a <= b && i < |a|
    ensures b[i] == a[i]
  {
  }

  /** An entry of `b` that is missing from its prefix `a` lies past `a`. */
  lemma PrefixPastAbsent<T>(a: seq<T>, b: seq<T>, i: nat)
    requires a <= b && i < |b| && b[i] !in a
    ensures i >= |a|
  {
  }

  /** A need that is met is in `P`. */
  lemma NeedsMetHas(env: Env, file: string, P: seq<string>, d: string)
    requires NeedsMet(env, file, P) && d in NeededOf(env, file) && d in env.libs
    ensures d in P
  {
    var ds := NeededOf(env, file);
    var j :| 0 <= j < |ds| && ds[j] == d;
  }

  /** An inspection that finds `[a, b]`, both unparsed, copies `a` and then `b`. */
  lemma InspectTwo(env: Env, st: St, file: string, a: string, b: string)
    requires NeededOf(env, file) == [a, b] && a in env.libs && b in env.libs
    requires a !in st.parsed && b !in st.parsed
    ensures InspectF(env, st, file) == CopyLibF(env, CopyLibF(env, st, a), b)
  {
    var P0 := st.parsed;
    assert Fresh([a, b], P0) == [a, b];
    InspectUnfold(env, st, file);
    DepsUnfoldLib(env, st, P0, [a, b]);
    var st' := CopyLibF(env, st, a);
    assert [a, b][1..] == [b];
    DepsUnfoldLib(env, st', P0, [b]);
    assert [b][1..] == [];
  }

  /**
    The filter is computed once per inspection. When a file needs `a` and then `b`, and `a`
    itself needs `b`, the recursion into `a` copies `b`, and the loop then copies `b` again:
    `b` is parsed (and copied from the libs dir) twice.
  */
  lemma StaleFilterRecopies(env: Env, st: St, file: string, a: string, b: string)
    requires NeededOf(env, file) == [a, b]
    requires a != b && a in env.libs && b in env.libs && a !in st.parsed && b !in st.parsed
    requires b in NeededOf(env, LibPath(env, a))
    ensures var r := InspectF(env, st, file);
            exists i, j :: |st.parsed| <= i < j < |r.parsed| && r.parsed[i] == b && r.parsed[j] == b
  {
    InspectTwo(env, st, file, a, b);
    var st' := CopyLibF(env, st, a);
    var r := CopyLibF(env, st', b);
    // the recursion into `a` already parsed `b`, after the entries `st` had
    CopyLibCloses(env, st, a);
    assert st'.parsed[|st.parsed|] == a;
    assert NeedsMet(env, LibPath(env, st'.parsed[|st.parsed|]), st'.parsed);
    NeedsMetHas(env, LibPath(env, a), st'.parsed, b);
    var i :| 0 <= i < |st'.parsed| && st'.parsed[i] == b;
    PrefixPastAbsent(st.parsed, st'.parsed, i);
    // and the loop parses it again
    var j := |st'.parsed|;
    PrefixAt(st'.parsed, r.parsed, i);
    assert r.parsed[j] == b;
  }

  /**
    A dependency outside the libs dir is neither parsed nor inspected: only one copy is made,
    from the first system path that holds it, and none if no path holds it.
  */
  lemma SystemDependencyCopied(env: Env, st: St, file: string, s: string)
    requires NeededOf(env, file) == [s] && s !in env.libs && s !in st.parsed
    ensures var r := InspectF(env, st, file);
            && r.parsed == st.parsed && r.executables == st.executables
            && ((forall j :: 0 <= j < |env.systemPaths| ==> s !in env.systemPaths[j].names) ==> r.log == st.log)
            && forall i :: 0 <= i < |env.systemPaths| && s in env.systemPaths[i].names
                           && (forall j :: 0 <= j < i ==> s !in env.systemPaths[j].names)
                           ==> r.log == st.log + [SystemLibrary(s, Join(env.systemPaths[i].dir, s))]
  {
    var r := InspectF(env, st, file);
    assert Fresh([s], st.parsed) == [s];
    InspectUnfold(env, st, file);
    assert r == DepsF(env, st, st.parsed, [s]);
    assert [s][1..] == [];
    var sys := SystemCopy(env, st, s);
    assert r == DepsF(env, sys, st.parsed, []);
    assert r == sys;
    var f := FirstSystemDir(env.systemPaths, s, 0);
    forall i | 0 <= i < |env.systemPaths| && s in env.systemPaths[i].names
               && (forall j :: 0 <= j < i ==> s !in env.systemPaths[j].names)
      ensures r.log == st.log + [SystemLibrary(s, Join(env.systemPaths[i].dir, s))]
    {
      assert f.Some?;
      assert f.value == i;
    }
  }

  // ---- The extra-libs loop ----

  /** With every extra name in the libs dir, the extra-libs loop does not raise and only extends the state. */
  lemma {:induction false} ExtraLibsExtends(env: Env, st: St, extra: seq<string>)
    requires forall x :: x in extra ==> x in env.libs
    ensures var r := ExtraLibsF(env, st, extra);
            !r.crashed && Extends(env, st, r.st)
    decreases |extra|
  {
    if extra == [] {
      ExtendsRefl(env, st);
    } else {
      var m := CopyLibF(env, st, extra[0]);
      assert forall x :: x in extra[1..] ==> x in extra;
      ExtraLibsExtends(env, m, extra[1..]);
      ExtendsTrans(env, st, m, ExtraLibsF(env, m, extra[1..]).st);
    }
  }

  /**
    With every extra name in the libs dir, each of them is parsed afterwards, and every library
    the loop parsed has its libs-dir needs parsed too.
  */
  lemma {:induction false} ExtraLibsCopies(env: Env, st: St, extra: seq<string>)
    requires forall x :: x in extra ==> x in env.libs
    ensures var r := ExtraLibsF(env, st, extra);
            && LibsClosed(env, r.st.parsed, |st.parsed|, r.st.parsed)
            && forall x :: x in extra ==> x in r.st.parsed
    decreases |extra|
  {
    if extra != [] {
      var r := ExtraLibsF(env, st, extra);
      var m := CopyLibF(env, st, extra[0]);
      assert forall x :: x in extra[1..] ==> x in extra;
      CopyLibCloses(env, st, extra[0]);
      ExtraLibsCopies(env, m, extra[1..]);
      ExtraLibsExtends(env, m, extra[1..]);
      assert r == ExtraLibsF(env, m, extra[1..]);
      LibsClosedGrows(env, m.parsed, |st.parsed|, m.parsed, r.st.parsed);
      LibsClosedSplice(env, m.parsed, r.st.parsed, |st.parsed|, r.st.parsed);
      PrefixAt(m.parsed, r.st.parsed, |st.parsed|);
      assert forall x :: x in extra ==> x == extra[0] || x in extra[1..];
    }
  }

  /** `copy_library` of a library whose inspection finds nothing: the copy, then its bundles. */
  lemma CopyLibUninspected(env: Env, st: St, x: string)
    requires x in env.libs && env.readelf(LibPath(env, x)).None?
    ensures var listed := if LogicalKey(x) in env.plugins then env.plugins[LogicalKey(x)] else [];
            CopyLibF(env, st, x)
            == St(st.parsed + [x], st.executables + BundleFiles(env, listed),
                  st.log + [Library(x, LibPath(env, x))] + BundleCopies(env, listed))
  {
    var m := Marked(env, st, x);
    var listed := if LogicalKey(x) in env.plugins then env.plugins[LogicalKey(x)] else [];
    CopyLibUnfold(env, st, x);
    InspectUnchanged(env, m, LibPath(env, x));
    if LogicalKey(x) in env.plugins {
      CopyPluginsAppends(env, m, listed);
    } else {
      assert BundleFiles(env, listed) == [] && BundleCopies(env, listed) == [];
      assert st.executables + [] == st.executables && m.log + [] == m.log;
    }
  }

  /** What follows a prefix `a` in `a + [y] + b`. */
  lemma SliceAfter<T>(a: seq<T>, y: T, b: seq<T>)
    ensures (a + [y] + b)[|a|..] == [y] + b
  {
  }

  /** An inspection whose `readelf` fails changes nothing. */
  lemma InspectUnchanged(env: Env, st: St, file: string)
    requires env.readelf(file).None?
    ensures InspectF(env, st, file) == st
  {
  }

  /**
    The plugin files an extra library pulls in are appended but never inspected: when `x`'s
    logical key lists bundle `b`, a `.so` file of `b` that needs an unparsed libs-dir name `d`
    joins the worklist, and `d` stays unparsed and uncopied (say `x` itself needs nothing, as
    when `readelf` fails on it).
  */
  lemma ExtraLibPluginsUninspected(env: Env, st: St, x: string, b: string, e: WalkEntry, d: string)
    requires x in env.libs && env.readelf(LibPath(env, x)).None?
    requires LogicalKey(x) in env.plugins && env.plugins[LogicalKey(x)] == [b]
    requires b in env.bundles && e in env.bundles[b] && EndsWith(e.file, ".so")
    requires d in env.libs && d != x && d !in st.parsed
    requires d in NeededOf(env, WalkPath(Join(env.outPluginsDir, b), e))
    ensures var r := ExtraLibsF(env, st, [x]);
            var p := WalkPath(Join(env.outPluginsDir, b), e);
            && !r.crashed && r.st.parsed == st.parsed + [x]
            && p in r.st.executables[|st.executables|..]
            && d !in r.st.parsed && Library(d, LibPath(env, d)) !in r.st.log[|st.log|..]
            && !NeedsMet(env, p, r.st.parsed)
  {
    var p := WalkPath(Join(env.outPluginsDir, b), e);
    ExtraLibsUnfold(env, st, [x]);
    assert [x][1..] == [];
    var c := CopyLibF(env, st, x);
    CopyLibUninspected(env, st, x);
    assert c.executables[|st.executables|..] == BundleFiles(env, [b]);
    BundleFilesMembers(env, [b], p);
    SliceAfter(st.log, Library(x, LibPath(env, x)), BundleCopies(env, [b]));
    BundleCopiesMembers(env, [b], Library(d, LibPath(env, d)));
    var ds := NeededOf(env, p);
    var j :| 0 <= j < |ds| && ds[j] == d;
  }
}
