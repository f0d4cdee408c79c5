/**
  One run of the script as a function of its options and of what the host holds: seed the
  worklist with the executable and (when QML root paths are given) with the plugin files of the
  copied QML modules, copy the extra plugin bundles, drain the worklist, copy the extra
  libraries, and write `qt.conf` if nothing raised.
*/
module Deployment {
  import opened Wrappers
  import opened PosixPath
  import opened PluginTable
  import opened CopyLog
  import opened QmlImports
  import opened QtConf
  import opened Resolver
  import opened ResolverLemmas

  /** The command-line options the core reads. */
  datatype Options = Options(
    output: string,
    executable: string,
    bin: string,
    lib: string,
    plugins: string,
    qml: string,
    qmlRootPaths: seq<string>,
    extraLibs: seq<string>,
    extraPlugins: seq<string>,
    wayland: bool)

  /** What the run finds on the host: the `qmake -query` directories and the tools' answers. */
  datatype Host = Host(
    libsDir: string,
    pluginsDir: string,
    libs: set<string>,
    systemPaths: seq<SystemDir>,
    bundles: map<string, seq<WalkEntry>>,
    readelf: string -> Option<seq<string>>,
    /** The paths that exist and those that are directories, for the scanner's records. */
    qmlFiles: QmlFiles,
    /** The records `qmlimportscanner` prints, in order. */
    imports: seq<Import>,
    /** The files a walk of `out_qml_dir` reports after the QML copies. */
    qmlTree: seq<WalkEntry>)

  /** The resolver's environment: `out_plugins_dir` is `<output>/<plugins>`, and the plugin table is the script's. */
  function EnvOf(opts: Options, host: Host): Env {
    Env(host.libsDir, host.pluginsDir, Join(opts.output, opts.plugins), host.libs,
        host.systemPaths, host.bundles, host.readelf, Plugins)
  }

  /** `out_qml_dir`, `<output>/<qml>`. */
  function OutQmlDir(opts: Options): string {
    Join(opts.output, opts.qml)
  }

  /** `args.extra_plugins` after `--wayland` has appended its three bundles. */
  function PluginsRequested(opts: Options): (r: seq<string>)
    ensures opts.extraPlugins <= r
    ensures r[|opts.extraPlugins|..] == if opts.wayland then WaylandPlugins else []
  {
    opts.extraPlugins + if opts.wayland then WaylandPlugins else []
  }

  /**
    The QML step: the copies of the scanner's records are logged (those made before a crash
    too), and without a crash the walked plugin files are appended to the worklist.
  */
  function SeedQmlF(roots: seq<string>, outQmlDir: string, fs: QmlFiles, imports: seq<Import>,
                    tree: seq<WalkEntry>, st: St): (r: Ended)
    ensures r.st.parsed == st.parsed && st.executables <= r.st.executables && st.log <= r.st.log
    ensures r.crashed ==> r.st.executables == st.executables
  {
    var h := HandleImports(roots, outQmlDir, fs, imports);
    var logged := st.(log := st.log + h.copies);
    if h.crashed then Ended(logged, true)
    else Ended(logged.(executables := st.executables + SeedPaths(outQmlDir, tree, h.pluginFiles)), false)
  }

  /** A scanner record with neither `path` nor `name`: `imp['name']` raises KeyError. */
  ghost predicate QmlCrash(opts: Options, host: Host) {
    opts.qmlRootPaths != []
    && exists i :: 0 <= i < |host.imports| && host.imports[i].path.None? && host.imports[i].name.None?
  }

  /**
    The end of a run: the resolver's state, how many worklist entries the drain visited, whether
    the run raised, and the `qt.conf` text it wrote.
  */
  datatype Outcome = Outcome(st: St, drained: nat, crashed: bool, qtConf: Option<string>)

  /**
    The resolver part of a run, from the seeded state: copy the extra bundles, drain the
    worklist, copy the extra libraries; `conf` is the `qt.conf` text written when nothing raised.
  */
  function Resolve(env: Env, st: St, plugins: seq<string>, extra: seq<string>, conf: string): (r: Outcome)
    ensures r.qtConf.Some? <==> !r.crashed
    ensures r.qtConf.Some? ==> r.qtConf.value == conf
    ensures st.executables <= r.st.executables && r.drained <= |r.st.executables|
  {
    var p := CopyPluginsF(env, st, plugins);
    CopyPluginsExtends(env, st, plugins);
    var d := DrainF(env, p, 0);
    var e := ExtraLibsF(env, d, extra);
    PrefixTrans(st.executables, p.executables, d.executables);
    PrefixTrans(st.executables, d.executables, e.st.executables);
    Outcome(e.st, |d.executables|, e.crashed, if e.crashed then None else Some(conf))
  }

  /** The whole run. */
  function RunF(opts: Options, host: Host): (r: Outcome)
    ensures r.qtConf.Some? <==> !r.crashed
    ensures r.qtConf.Some? ==> r.qtConf.value == QtConfText(opts.bin, opts.lib, opts.plugins, opts.qml)
    ensures r.drained <= |r.st.executables|
  {
    var st0 := St([], [opts.executable], []);
    var q := if opts.qmlRootPaths == [] then Ended(st0, false)
             else SeedQmlF(opts.qmlRootPaths, OutQmlDir(opts), host.qmlFiles, host.imports, host.qmlTree, st0);
    if q.crashed then Outcome(q.st, 0, true, None)
    else Resolve(EnvOf(opts, host), q.st, PluginsRequested(opts), opts.extraLibs,
                 QtConfText(opts.bin, opts.lib, opts.plugins, opts.qml))
  }

  // ---- Properties of a run ----

  /** `p` is the path of a file the walk of `top` reports. */
  ghost predicate Walked(top: string, tree: seq<WalkEntry>, p: string) {
    exists e :: e in tree && p == WalkPath(top, e)
  }

  /** Without a crash the QML step leaves the library copies alone: it only copies QML modules. */
  lemma SeedQmlKeepsLibraries(roots: seq<string>, outQmlDir: string, fs: QmlFiles, imports: seq<Import>,
                              tree: seq<WalkEntry>, st: St)
    ensures var r := SeedQmlF(roots, outQmlDir, fs, imports, tree, st);
            !r.crashed ==>
              && LibNames(r.st.log) == LibNames(st.log)
              && forall k :: |st.executables| <= k < |r.st.executables| ==> Walked(outQmlDir, tree, r.st.executables[k])
  {
    var h := HandleImports(roots, outQmlDir, fs, imports);
    if !h.crashed {
      HandleImportsCopies(roots, outQmlDir, fs, imports);
      LibNamesNone(h.copies);
      LibNamesAppend(st.log, h.copies);
      var seeds := SeedPaths(outQmlDir, tree, h.pluginFiles);
      SeedPathsSpec(outQmlDir, tree, h.pluginFiles);
      var r := SeedQmlF(roots, outQmlDir, fs, imports, tree, st);
      forall k | |st.executables| <= k < |r.st.executables|
        ensures Walked(outQmlDir, tree, r.st.executables[k])
      {
        assert r.st.executables[k] == seeds[k - |st.executables|];
        assert seeds[k - |st.executables|] in seeds;
      }
    }
  }

  /** A run raises exactly when a scanner record has neither path nor name, or an extra library is missing. */
  lemma RunCrashes(opts: Options, host: Host)
    ensures RunF(opts, host).crashed <==>
              QmlCrash(opts, host) || exists x :: x in opts.extraLibs && x !in host.libs
  {
    if opts.qmlRootPaths != [] {
      HandleImportsCrash(opts.qmlRootPaths, OutQmlDir(opts), host.qmlFiles, host.imports);
    }
  }

  /**
    The guarantee of a run that does not raise: every worklist entry the drain visited, the
    executable first, has its libs-dir dependencies parsed, and so has every parsed library;
    every extra library is parsed; the library copies are exactly the parsed names, in order;
    and the entries appended after the drain are bundle `.so` files.
  */
  lemma RunCloses(opts: Options, host: Host)
    ensures var r := RunF(opts, host);
            var env := EnvOf(opts, host);
            !r.crashed ==>
              && 1 <= r.drained && r.st.executables[0] == opts.executable
              && (forall k :: 0 <= k < r.drained ==> NeedsMet(env, r.st.executables[k], r.st.parsed))
              && LibsClosed(env, r.st.parsed, 0, r.st.parsed)
              && (forall x :: x in opts.extraLibs ==> x in r.st.parsed)
              && LibNames(r.st.log) == r.st.parsed
              && (forall k :: r.drained <= k < |r.st.executables| ==> PluginFile(env, r.st.executables[k]))
  {
    var st0 := St([], [opts.executable], []);
    var q := if opts.qmlRootPaths == [] then Ended(st0, false)
             else SeedQmlF(opts.qmlRootPaths, OutQmlDir(opts), host.qmlFiles, host.imports, host.qmlTree, st0);
    if !q.crashed {
      if opts.qmlRootPaths != [] {
        SeedQmlKeepsLibraries(opts.qmlRootPaths, OutQmlDir(opts), host.qmlFiles, host.imports, host.qmlTree, st0);
      }
      PrefixAt(st0.executables, q.st.executables, 0);
      ResolveCloses(EnvOf(opts, host), q.st, PluginsRequested(opts), opts.extraLibs,
                    QtConfText(opts.bin, opts.lib, opts.plugins, opts.qml));
    }
  }

  /** The guarantee of `Resolve` from a state with nothing parsed and no library copied. */
  lemma ResolveCloses(env: Env, s: St, plugins: seq<string>, extra: seq<string>, conf: string)
    requires s.parsed == [] && LibNames(s.log) == [] && s.executables != []
    ensures var r := Resolve(env, s, plugins, extra, conf);
            !r.crashed ==>
              && 1 <= r.drained && r.st.executables[0] == s.executables[0]
              && (forall k :: 0 <= k < r.drained ==> NeedsMet(env, r.st.executables[k], r.st.parsed))
              && LibsClosed(env, r.st.parsed, 0, r.st.parsed)
              && (forall x :: x in extra ==> x in r.st.parsed)
              && LibNames(r.st.log) == r.st.parsed
              && (forall k :: r.drained <= k < |r.st.executables| ==> PluginFile(env, r.st.executables[k]))
  {
    var d := DrainF(env, CopyPluginsF(env, s, plugins), 0);
    var e := ExtraLibsF(env, d, extra);
    if !e.crashed {
      DrainStep(env, s, plugins);
      ExtraLibsStep(env, d, extra);
      ExtendsTrans(env, s, d, e.st);
      assert e.st.parsed[|s.parsed|..] == e.st.parsed;
      PrefixAt(s.executables, e.st.executables, 0);
      assert |s.executables| <= |d.executables|;
    }
  }

  /** Copying the extra bundles and draining the worklist from an empty `parsed_dependencies`. */
  lemma DrainStep(env: Env, s: St, plugins: seq<string>)
    requires s.parsed == []
    ensures var d := DrainF(env, CopyPluginsF(env, s, plugins), 0);
            && Extends(env, s, d)
            && (forall k :: 0 <= k < |d.executables| ==> NeedsMet(env, d.executables[k], d.parsed))
            && LibsClosed(env, d.parsed, 0, d.parsed)
  {
    var p := CopyPluginsF(env, s, plugins);
    CopyPluginsExtends(env, s, plugins);
    DrainCloses(env, p, 0);
    ExtendsTrans(env, s, p, DrainF(env, p, 0));
  }

  /** The extra-libs loop keeps a closed state closed, adds every name it copies, and only appends. */
  lemma ExtraLibsStep(env: Env, d: St, extra: seq<string>)
    requires forall k :: 0 <= k < |d.executables| ==> NeedsMet(env, d.executables[k], d.parsed)
    requires LibsClosed(env, d.parsed, 0, d.parsed)
    ensures var e := ExtraLibsF(env, d, extra);
            !e.crashed ==>
              && Extends(env, d, e.st)
              && (forall k :: 0 <= k < |d.executables| ==> NeedsMet(env, e.st.executables[k], e.st.parsed))
              && LibsClosed(env, e.st.parsed, 0, e.st.parsed)
              && forall x :: x in extra ==> x in e.st.parsed
  {
    var e := ExtraLibsF(env, d, extra);
    if !e.crashed {
      ExtraLibsExtends(env, d, extra);
      ExtraLibsCopies(env, d, extra);
      forall k | 0 <= k < |d.executables| ensures NeedsMet(env, e.st.executables[k], e.st.parsed) {
        PrefixAt(d.executables, e.st.executables, k);
        NeedsMetGrows(env, d.executables[k], d.parsed, e.st.parsed);
      }
      LibsClosedGrows(env, d.parsed, 0, d.parsed, e.st.parsed);
      LibsClosedSplice(env, d.parsed, e.st.parsed, 0, e.st.parsed);
    }
  }
}
