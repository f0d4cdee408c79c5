/**
  The dependency-closure resolver as functions on an explicit state: `copy_plugins`,
  `copy_library` and `inspect_file_recursive` (with the loop over the dependencies it found
  split out as `DepsF`), the drain of the `executables` worklist and the extra-libs loop.

  The environment is plain data: the libraries of the Qt libs directory as a set of names, the
  system library paths as an ordered sequence of name sets, the plugin bundles as a map from a
  bundle name to the files a walk of its copy reports, and `readelf -d` as a function from a
  path to its output lines (None when the process fails).
*/
module Resolver {
  import opened Wrappers
  import opened Text
  import opened Readelf
  import opened LibraryNames
  import opened PosixPath
  import opened PluginTable
  import opened CopyLog

  /** One `--system_libs_path` directory and the names of the files in it. */
  datatype SystemDir = SystemDir(dir: string, names: set<string>)

  datatype Env = Env(
    /** `libs_dir`, the `QT_INSTALL_LIBS` value of `qmake -query`. */
    libsDir: string,
    /** `plugins_dir`, the `QT_INSTALL_PLUGINS` value. */
    pluginsDir: string,
    /** `out_plugins_dir`, `<output>/<plugins>`. */
    outPluginsDir: string,
    /** The names `d` for which `os.path.isfile(os.path.join(libs_dir, d))` holds. */
    libs: set<string>,
    /** The `--system_libs_path` directories, in order. */
    systemPaths: seq<SystemDir>,
    /**
      The bundles `p` for which `os.path.exists(os.path.join(plugins_dir, p))` holds, each with
      the files of its copied tree in walk order.
    */
    bundles: map<string, seq<WalkEntry>>,
    /** The output lines of `readelf -d <path>`, or None when the call raises. */
    readelf: string -> Option<seq<string>>,
    /** The `plugins` dictionary: the bundles each logical key pulls in. */
    plugins: map<string, seq<string>>)

  /** The state the resolver shares: `parsed_dependencies`, `executables` and the copies made. */
  datatype St = St(parsed: seq<string>, executables: seq<string>, log: seq<Copy>)

  /** `os.path.join(libs_dir, name)`: the copy source and the inspected file of a library. */
  function LibPath(env: Env, name: string): string {
    Join(env.libsDir, name)
  }

  /** The names an inspection of `file` finds; none when `readelf` fails. */
  function NeededOf(env: Env, file: string): seq<string> {
    match env.readelf(file)
    case None => []
    case Some(lines) => NeededNames(lines)
  }

  /** How many libs-directory names are not yet parsed: the measure that bounds the recursion. */
  function Unparsed(env: Env, parsed: seq<string>): nat {
    |env.libs - set x | x in parsed|
  }

  /** `[x for x in deps if x not in parsed]`. */
  function Fresh(deps: seq<string>, parsed: seq<string>): (r: seq<string>)
    ensures forall x :: x in r <==> x in deps && x !in parsed
    ensures |r| <= |deps|
  {
    if deps == [] then []
    else (if deps[0] in parsed then [] else [deps[0]]) + Fresh(deps[1..], parsed)
  }

  /** The filter keeps order and repeats: filtering a concatenation filters each part in turn. */
  lemma {:induction false} FreshAppend(a: seq<string>, b: seq<string>, parsed: seq<string>)
    ensures Fresh(a + b, parsed) == Fresh(a, parsed) + Fresh(b, parsed)
    decreases |a|
  {
    if a == [] {
      assert a + b == b;
    } else {
      assert (a + b)[0] == a[0] && (a + b)[1..] == a[1..] + b;
      FreshAppend(a[1..], b, parsed);
    }
  }

  /** A single name is kept exactly when it is not parsed. */
  lemma FreshOne(x: string, parsed: seq<string>)
    ensures Fresh([x], parsed) == if x in parsed then [] else [x]
  {
    assert [x][1..] == [];
  }

  /** The first system path, from index `from` on, that holds `name`: where the `break` happens. */
  function FirstSystemDir(dirs: seq<SystemDir>, name: string, from: nat): (r: Option<nat>)
    requires from <= |dirs|
    ensures r.Some? ==> from <= r.value < |dirs| && name in dirs[r.value].names
                        && forall j :: from <= j < r.value ==> name !in dirs[j].names
    ensures r.None? ==> forall j :: from <= j < |dirs| ==> name !in dirs[j].names
    decreases |dirs| - from
  {
    if from == |dirs| then None
    else if name in dirs[from].names then Some(from)
    else FirstSystemDir(dirs, name, from + 1)
  }

  /** The system branch of the dependency loop: at most one copy, from the first path holding it. */
  function SystemCopy(env: Env, st: St, name: string): St {
    match FirstSystemDir(env.systemPaths, name, 0)
    case None => st
    case Some(i) => st.(log := st.log + [SystemLibrary(name, Join(env.systemPaths[i].dir, name))])
  }

  /** The walked files of a copied bundle whose name ends in `.so`, as `os.path.join(root, file)`. */
  function SoFiles(top: string, walk: seq<WalkEntry>): seq<string> {
    if walk == [] then []
    else
      var e := walk[|walk| - 1];
      SoFiles(top, walk[..|walk| - 1]) + (if EndsWith(e.file, ".so") then [WalkPath(top, e)] else [])
  }

  /** One iteration of `copy_plugins`: copy the bundle if it exists, then append its `.so` files. */
  function CopyBundle(env: Env, st: St, name: string): St {
    if name in env.bundles then
      var to := Join(env.outPluginsDir, name);
      St(st.parsed,
         st.executables + SoFiles(to, env.bundles[name]),
         st.log + [Bundle(name, Join(env.pluginsDir, name), to)])
    else st
  }

  /** A copy the resolver may make: from the libs dir, from the first system path, or a bundle. */
  ghost predicate ResolverCopy(env: Env, c: Copy) {
    match c
    case Library(n, from) => n in env.libs && from == LibPath(env, n)
    case SystemLibrary(n, from) =>
      n !in env.libs
      && var i := FirstSystemDir(env.systemPaths, n, 0);
         i.Some? && from == Join(env.systemPaths[i.value].dir, n)
    case Bundle(n, from, to) => n in env.bundles && from == Join(env.pluginsDir, n) && to == Join(env.outPluginsDir, n)
    case QmlTree(_, _) => false
    case QmlFile(_, _) => false
  }

  /** A worklist entry the resolver may add: a `.so` file of a copied bundle. */
  ghost predicate PluginFile(env: Env, p: string) {
    exists n, e :: n in env.bundles && e in env.bundles[n] && EndsWith(e.file, ".so")
                   && p == WalkPath(Join(env.outPluginsDir, n), e)
  }

  /**
    `r` is `st` after some resolver work: the three lists only grow; every newly parsed name is
    a libs-dir name; every new copy is a resolver copy; every new worklist entry is a bundle's
    `.so` file; and the new library copies are, in order, exactly the newly parsed names.
  */
  ghost predicate Extends(env: Env, st: St, r: St) {
    && st.parsed <= r.parsed && st.executables <= r.executables && st.log <= r.log
    && (forall k :: |st.parsed| <= k < |r.parsed| ==> r.parsed[k] in env.libs)
    && (forall k :: |st.log| <= k < |r.log| ==> ResolverCopy(env, r.log[k]))
    && (forall k :: |st.executables| <= k < |r.executables| ==> PluginFile(env, r.executables[k]))
    && LibNames(r.log) == LibNames(st.log) + r.parsed[|st.parsed|..]
  }

  /** `copy_plugins(names)`: the bundles in order. */
  function CopyPluginsF(env: Env, st: St, names: seq<string>): (r: St)
    ensures r.parsed == st.parsed
    decreases |names|
  {
    if names == [] then st
    else CopyPluginsF(env, CopyBundle(env, st, names[0]), names[1..])
  }

  /** `copy_plugins` only appends bundle copies and the `.so` files of copied bundles. */
  lemma {:induction false} CopyPluginsExtends(env: Env, st: St, names: seq<string>)
    ensures Extends(env, st, CopyPluginsF(env, st, names))
    decreases |names|
  {
    if names == [] {
      ExtendsRefl(env, st);
    } else {
      var st' := CopyBundle(env, st, names[0]);
      CopyBundleExtends(env, st, names[0]);
      CopyPluginsExtends(env, st', names[1..]);
      ExtendsTrans(env, st, st', CopyPluginsF(env, st', names[1..]));
    }
  }

  /**
    `inspect_file_recursive(file)`: read the NEEDED names, filter out the parsed ones once, then
    resolve each of the rest.
  */
  function InspectF(env: Env, st: St, file: string): (r: St)
    ensures Extends(env, st, r)
    ensures forall k :: |st.parsed| <= k < |r.parsed| ==> r.parsed[k] !in st.parsed
    ensures r.executables == st.executables || Unparsed(env, r.parsed) < Unparsed(env, st.parsed)
    ensures env.readelf(file).None? ==> r == st
    decreases Unparsed(env, st.parsed), 1, 0
  {
    match env.readelf(file)
    case None =>
      ExtendsRefl(env, st);
      st
    case Some(lines) =>
      DepsF(env, st, st.parsed, Fresh(NeededNames(lines), st.parsed))
  }

  /**
    The `for dependency in dependencies` loop of an inspection whose filter was computed against
    `P0`: a libs-dir name is copied (whether or not an earlier sibling copied it meanwhile), any
    other name is looked up on the system paths.
  */
  function DepsF(env: Env, st: St, P0: seq<string>, deps: seq<string>): (r: St)
    requires P0 <= st.parsed
    requires forall d :: d in deps ==> d !in P0
    ensures Extends(env, st, r)
    ensures forall k :: |st.parsed| <= k < |r.parsed| ==> r.parsed[k] !in P0
    ensures (r.executables == st.executables && r.parsed == st.parsed)
            || Unparsed(env, r.parsed) < Unparsed(env, P0)
    decreases Unparsed(env, P0), 0, |deps|
  {
    if deps == [] then
      ExtendsRefl(env, st);
      st
    else
      var d := deps[0];
      if d in env.libs then
        Shrinks(env, P0, st.parsed, d);
        var st' := CopyLibF(env, st, d);
        PrefixTrans(P0, st.parsed, st'.parsed);
        PrefixNotIn(P0, st.parsed);
        ExtendsUnparsed(env, st', DepsF(env, st', P0, deps[1..]));
        var r := DepsF(env, st', P0, deps[1..]);
        ExtendsTrans(env, st, st', r);
        AvoidStep(P0, st.parsed, d, st'.parsed, r.parsed);
        r
      else
        var st' := SystemCopy(env, st, d);
        SystemCopyExtends(env, st, d);
        var r := DepsF(env, st', P0, deps[1..]);
        ExtendsTrans(env, st, st', r);
        r
  }

  /** The state `copy_library` inspects from: `lib` marked parsed and copied. */
  function Marked(env: Env, st: St, lib: string): St {
    St(st.parsed + [lib], st.executables, st.log + [Library(lib, LibPath(env, lib))])
  }

  /**
    `copy_library(lib)`: mark it parsed, copy it from the libs dir, inspect that source file,
    then copy the bundles the plugin table lists for its logical key.
  */
  function CopyLibF(env: Env, st: St, lib: string): (r: St)
    requires lib in env.libs
    ensures Extends(env, st, r)
    ensures |r.parsed| > |st.parsed| && r.parsed[|st.parsed|] == lib
    ensures |r.log| > |st.log| && r.log[|st.log|] == Library(lib, LibPath(env, lib))
    ensures forall k :: |st.parsed| < k < |r.parsed| ==> r.parsed[k] !in st.parsed + [lib]
    ensures Unparsed(env, r.parsed) <= Unparsed(env, st.parsed + [lib])
    decreases Unparsed(env, st.parsed + [lib]), 2, 0
  {
    var st1 := Marked(env, st, lib);
    MarkExtends(env, st, lib);
    var m := InspectF(env, st1, LibPath(env, lib));
    ExtendsTrans(env, st, st1, m);
    ExtendsUnparsed(env, st1, m);
    var key := LogicalKey(lib);
    if key in env.plugins then
      var r := CopyPluginsF(env, m, env.plugins[key]);
      CopyPluginsExtends(env, m, env.plugins[key]);
      ExtendsTrans(env, st, m, r);
      r
    else m
  }

  /**
    The `for executable in executables` loop from position `i`: Python's list iterator also
    visits what the inspections append.
  */
  function DrainF(env: Env, st: St, i: nat): (r: St)
    ensures Extends(env, st, r)
    decreases Unparsed(env, st.parsed), |st.executables| - i
  {
    if i >= |st.executables| then
      ExtendsRefl(env, st);
      st
    else
      var m := InspectF(env, st, st.executables[i]);
      ExtendsUnparsed(env, st, m);
      var r := DrainF(env, m, i + 1);
      ExtendsTrans(env, st, m, r);
      r
  }

  /** The state after a loop and whether it ended by raising. */
  datatype Ended = Ended(st: St, crashed: bool)

  /**
    `for lib in args.extra_libs: copy_library(lib)`. A name missing from the libs dir is appended
    to `parsed_dependencies` and then `shutil.copy` raises, which ends the run.
  */
  function ExtraLibsF(env: Env, st: St, extra: seq<string>): (r: Ended)
    ensures r.crashed <==> exists x :: x in extra && x !in env.libs
    ensures st.executables <= r.st.executables && st.log <= r.st.log
    decreases |extra|
  {
    if extra == [] then Ended(st, false)
    else if extra[0] !in env.libs then Ended(st.(parsed := st.parsed + [extra[0]]), true)
    else
      var m := CopyLibF(env, st, extra[0]);
      var r := ExtraLibsF(env, m, extra[1..]);
      PrefixTrans(st.executables, m.executables, r.st.executables);
      PrefixTrans(st.log, m.log, r.st.log);
      assert forall x :: x in extra ==> x == extra[0] || x in extra[1..];
      r
  }

  // ---- Helper lemmas for the contracts above ----

  lemma CopyLibUnfold(env: Env, st: St, lib: string)
    requires lib in env.libs
    ensures var m := InspectF(env, Marked(env, st, lib), LibPath(env, lib));
            CopyLibF(env, st, lib)
            == if LogicalKey(lib) in env.plugins then CopyPluginsF(env, m, env.plugins[LogicalKey(lib)]) else m
  {
  }

  lemma DrainUnfold(env: Env, st: St, i: nat)
    requires i < |st.executables|
    ensures DrainF(env, st, i) == DrainF(env, InspectF(env, st, st.executables[i]), i + 1)
  {
  }

  lemma ExtraLibsUnfold(env: Env, st: St, extra: seq<string>)
    requires extra != []
    ensures extra[0] !in env.libs ==> ExtraLibsF(env, st, extra) == Ended(st.(parsed := st.parsed + [extra[0]]), true)
    ensures extra[0] in env.libs ==> ExtraLibsF(env, st, extra) == ExtraLibsF(env, CopyLibF(env, st, extra[0]), extra[1..])
  {
  }

  lemma CopyPluginsUnfold(env: Env, st: St, names: seq<string>)
    requires names != []
    ensures CopyPluginsF(env, st, names) == CopyPluginsF(env, CopyBundle(env, st, names[0]), names[1..])
  {
  }

  lemma PrefixTrans<T>(a: seq<T>, b: seq<T>, c: seq<T>)
    requires a <= b && b <= c
    ensures a <= c
  {
    assert c[..|a|] == c[..|b|][..|a|];
  }

  /** The names parsed by one `copy_library` and by the rest of the loop all avoid `P0`. */
  lemma AvoidStep(P0: seq<string>, a: seq<string>, lib: string, b: seq<string>, c: seq<string>)
    requires P0 <= a && a <= b && b <= c && lib !in P0
    requires |b| > |a| && b[|a|] == lib
    requires forall k :: |a| < k < |b| ==> b[k] !in a + [lib]
    requires forall k :: |b| <= k < |c| ==> c[k] !in P0
    ensures forall k :: |a| <= k < |c| ==> c[k] !in P0
  {
    forall k | |a| <= k < |c| ensures c[k] !in P0 {
      if k < |b| {
        assert c[k] == b[k];
        if k > |a| {
          assert forall x :: x in P0 ==> x in a + [lib];
        }
      }
    }
  }

  lemma PrefixNotIn<T>(a: seq<T>, b: seq<T>)
    requires a <= b
    ensures forall x :: x !in b ==> x !in a
  {
    forall x | x in a ensures x in b {
      var i :| 0 <= i < |a| && a[i] == x;
      assert b[i] == x;
    }
  }

  lemma ExtendsRefl(env: Env, st: St)
    ensures Extends(env, st, st)
  {
    assert st.parsed[|st.parsed|..] == [];
  }

  lemma ExtendsTrans(env: Env, a: St, b: St, c: St)
    requires Extends(env, a, b) && Extends(env, b, c)
    ensures Extends(env, a, c)
  {
    PrefixTrans(a.parsed, b.parsed, c.parsed);
    PrefixTrans(a.executables, b.executables, c.executables);
    PrefixTrans(a.log, b.log, c.log);
    forall k | |a.parsed| <= k < |c.parsed| ensures c.parsed[k] in env.libs {
      if k < |b.parsed| { assert c.parsed[k] == b.parsed[k]; }
    }
    forall k | |a.log| <= k < |c.log| ensures ResolverCopy(env, c.log[k]) {
      if k < |b.log| { assert c.log[k] == b.log[k]; }
    }
    forall k | |a.executables| <= k < |c.executables| ensures PluginFile(env, c.executables[k]) {
      if k < |b.executables| { assert c.executables[k] == b.executables[k]; }
    }
    assert c.parsed[|a.parsed|..] == b.parsed[|a.parsed|..] + c.parsed[|b.parsed|..] by {
      assert c.parsed[..|b.parsed|] == b.parsed;
    }
  }

  /** The set of parsed names only grows, so fewer names stay unparsed. */
  lemma UnparsedMono(env: Env, p: seq<string>, q: seq<string>)
    requires forall x :: x in p ==> x in q
    ensures Unparsed(env, q) <= Unparsed(env, p)
  {
    SubsetCard(env.libs - (set x | x in q), env.libs - (set x | x in p));
  }

  lemma {:induction false} SubsetCard<T>(a: set<T>, b: set<T>)
    requires a <= b
    ensures |a| <= |b|
    decreases |a|
  {
    if a != {} {
      var x :| x in a;
      SubsetCard(a - {x}, b - {x});
    }
  }

  lemma ExtendsUnparsed(env: Env, a: St, b: St)
    requires Extends(env, a, b)
    ensures Unparsed(env, b.parsed) <= Unparsed(env, a.parsed)
  {
    PrefixNotIn(a.parsed, b.parsed);
    UnparsedMono(env, a.parsed, b.parsed);
  }

  /**
    The step that makes the recursion terminate: a libs-dir name the filter let through is
    missing from `P0`, so after marking it fewer names stay unparsed than when the filter ran.
  */
  lemma Shrinks(env: Env, P0: seq<string>, Q: seq<string>, lib: string)
    requires P0 <= Q && lib in env.libs && lib !in P0
    ensures Unparsed(env, Q + [lib]) < Unparsed(env, P0)
  {
    PrefixNotIn(P0, Q);
    var A := env.libs - set x | x in Q + [lib];
    var B := env.libs - set x | x in P0;
    assert A <= B - {lib};
    SubsetCard(A, B - {lib});
    assert |B - {lib}| == |B| - 1;
  }

  lemma MarkExtends(env: Env, st: St, lib: string)
    requires lib in env.libs
    ensures Extends(env, st, Marked(env, st, lib))
  {
    var log := st.log + [Library(lib, LibPath(env, lib))];
    assert log[..|log| - 1] == st.log;
    assert (st.parsed + [lib])[|st.parsed|..] == [lib];
  }

  lemma SystemCopyExtends(env: Env, st: St, name: string)
    requires name !in env.libs
    ensures Extends(env, st, SystemCopy(env, st, name))
    ensures SystemCopy(env, st, name).parsed == st.parsed
    ensures SystemCopy(env, st, name).executables == st.executables
  {
    var r := SystemCopy(env, st, name);
    ExtendsRefl(env, st);
    if r != st {
      assert r.log[..|r.log| - 1] == st.log;
    }
  }

  /** The `.so` files of a walk, both ways. */
  lemma {:induction false} SoFilesMembers(top: string, walk: seq<WalkEntry>, p: string)
    ensures p in SoFiles(top, walk) <==> exists e :: e in walk && EndsWith(e.file, ".so") && p == WalkPath(top, e)
    decreases |walk|
  {
    if walk != [] {
      var init := walk[..|walk| - 1];
      var e := walk[|walk| - 1];
      SoFilesMembers(top, init, p);
      assert walk == init + [e];
      if exists e' :: e' in walk && EndsWith(e'.file, ".so") && p == WalkPath(top, e') {
        var e' :| e' in walk && EndsWith(e'.file, ".so") && p == WalkPath(top, e');
        if e' != e { assert e' in init; }
      }
      if exists e' :: e' in init && EndsWith(e'.file, ".so") && p == WalkPath(top, e') {
        var e' :| e' in init && EndsWith(e'.file, ".so") && p == WalkPath(top, e');
        assert e' in walk;
      }
    }
  }

  lemma CopyBundleExtends(env: Env, st: St, name: string)
    ensures Extends(env, st, CopyBundle(env, st, name)) && CopyBundle(env, st, name).parsed == st.parsed
  {
    ExtendsRefl(env, st);
    if name in env.bundles {
      var r := CopyBundle(env, st, name);
      var to := Join(env.outPluginsDir, name);
      assert r.log[..|r.log| - 1] == st.log;
      forall k | |st.executables| <= k < |r.executables| ensures PluginFile(env, r.executables[k]) {
        var p := r.executables[k];
        assert p in SoFiles(to, env.bundles[name]);
        SoFilesMembers(to, env.bundles[name], p);
      }
    }
  }
}
