/**
  The script as it runs: the module-level lists `parsed_dependencies` and `executables` and the
  copies made so far are the fields of a `Deployer`, and `copy_plugins`, `copy_library`,
  `inspect_file_recursive`, the QML step, the worklist drain and the extra-libs loop are its
  methods, each proved to leave the state the corresponding function describes.
*/
module DeployScript {
  import opened Wrappers
  import opened Text
  import opened Readelf
  import opened LibraryNames
  import opened PosixPath
  import opened PluginTable
  import opened CopyLog
  import opened QmlImports
  import opened QtConf
  import opened Resolver
  import opened ResolverLemmas
  import opened Deployment

  class Deployer {
    /** The directories and tool answers the run reads. */
    const env: Env
    /** `parsed_dependencies`. */
    var parsed: seq<string>
    /** `executables`, the worklist. */
    var executables: seq<string>
    /** The copies made so far, in order. */
    var log: seq<Copy>

    /** The three lists as one value. */
    function State(): St
      reads this
    {
      St(parsed, executables, log)
    }

    /** `executables = [args.executable]` and `parsed_dependencies = []`. */
    constructor(env: Env, executable: string)
      ensures this.env == env && State() == St([], [executable], [])
    {
      this.env := env;
      parsed := [];
      executables := [executable];
      log := [];
    }

    /** `copy_plugins(names)`. */
    method CopyPlugins(names: seq<string>)
      modifies this
      ensures State() == CopyPluginsF(env, old(State()), names)
    {
      var k := 0;
      while k < |names|
        invariant 0 <= k <= |names|
        invariant CopyPluginsF(env, State(), names[k..]) == CopyPluginsF(env, old(State()), names)
      {
        ghost var before := State();
        CopyPluginsUnfold(env, before, names[k..]);
        CopyBundleOf(names[k]);
        assert names[k..][1..] == names[k + 1..];
        k := k + 1;
      }
    }

    /** One iteration of `copy_plugins`: copy the bundle, then append the `.so` files a walk of the copy finds. */
    method CopyBundleOf(plugin: string)
      modifies this
      ensures State() == CopyBundle(env, old(State()), plugin)
    {
      if plugin in env.bundles {
        var to := Join(env.outPluginsDir, plugin);
        log := log + [Bundle(plugin, Join(env.pluginsDir, plugin), to)];
        var walk := env.bundles[plugin];
        var j := 0;
        while j < |walk|
          invariant 0 <= j <= |walk|
          invariant parsed == old(parsed) && log == old(log) + [Bundle(plugin, Join(env.pluginsDir, plugin), to)]
          invariant executables == old(executables) + SoFiles(to, walk[..j])
        {
          assert walk[..j + 1][..j] == walk[..j];
          if EndsWith(walk[j].file, ".so") {
            executables := executables + [WalkPath(to, walk[j])];
          }
          j := j + 1;
        }
        assert walk[..j] == walk;
      }
    }

    /** `copy_library(lib)` for a library of the libs directory. */
    method CopyLibrary(lib: string)
      requires lib in env.libs
      modifies this
      ensures State() == CopyLibF(env, old(State()), lib)
      decreases Unparsed(env, parsed + [lib]), 2, 0
    {
      parsed := parsed + [lib];
      var dep := Stem(BaseName(lib));
      while HasSuffixes(dep)
        invariant StripSuffixes(dep) == StripSuffixes(Stem(BaseName(lib)))
        decreases |dep|
      {
        dep := Stem(dep);
      }
      dep := if |dep| < 3 then [] else dep[3..];
      assert dep == LogicalKey(lib);
      var path := LibPath(env, lib);
      log := log + [Library(lib, path)];
      CopyLibUnfold(env, old(State()), lib);
      assert State() == Marked(env, old(State()), lib);
      InspectFile(path);
      if dep in env.plugins {
        CopyPlugins(env.plugins[dep]);
      }
    }

    /** `inspect_file_recursive(file)`. */
    method InspectFile(file: string)
      modifies this
      ensures State() == InspectF(env, old(State()), file)
      decreases Unparsed(env, parsed), 1, 0
    {
      var output := env.readelf(file);
      if output.None? {
        return;
      }
      var found := ReadNeeded(output.value);
      var dependencies := Fresh(found, parsed);
      ResolveDependencies(parsed, dependencies);
    }

    /** The `for dependency in dependencies` loop, with the filter computed against `P0`. */
    method ResolveDependencies(P0: seq<string>, dependencies: seq<string>)
      requires P0 <= parsed
      requires forall d :: d in dependencies ==> d !in P0
      modifies this
      ensures State() == DepsF(env, old(State()), P0, dependencies)
      decreases Unparsed(env, P0), 0
    {
      var i := 0;
      while i < |dependencies|
        invariant 0 <= i <= |dependencies|
        invariant P0 <= parsed
        invariant DepsF(env, State(), P0, dependencies[i..]) == DepsF(env, old(State()), P0, dependencies)
      {
        var dependency := dependencies[i];
        assert dependencies[i..][1..] == dependencies[i + 1..];
        if dependency in env.libs {
          Shrinks(env, P0, parsed, dependency);
          DepsUnfoldLib(env, State(), P0, dependencies[i..]);
          CopyLibrary(dependency);
        } else {
          DepsUnfoldSystem(env, State(), P0, dependencies[i..]);
          SystemLookup(dependency);
        }
        i := i + 1;
      }
    }

    /** The `for path in args.system_libs_path` loop: copy from the first path holding the name. */
    method SystemLookup(dependency: string)
      modifies this
      ensures State() == SystemCopy(env, old(State()), dependency)
    {
      var j := 0;
      while j < |env.systemPaths|
        invariant 0 <= j <= |env.systemPaths|
        invariant State() == old(State())
        invariant FirstSystemDir(env.systemPaths, dependency, j) == FirstSystemDir(env.systemPaths, dependency, 0)
      {
        var path := env.systemPaths[j];
        if dependency in path.names {
          log := log + [SystemLibrary(dependency, Join(path.dir, dependency))];
          return;
        }
        j := j + 1;
      }
    }

    /** `for executable in executables: inspect_file_recursive(executable)`, over a growing list. */
    method Drain()
      modifies this
      ensures State() == DrainF(env, old(State()), 0)
    {
      var i := 0;
      while i < |executables|
        invariant DrainF(env, State(), i) == DrainF(env, old(State()), 0)
        decreases Unparsed(env, parsed), |executables| - i
      {
        ghost var before := State();
        InspectFile(executables[i]);
        ExtendsUnparsed(env, before, State());
        i := i + 1;
      }
    }

    /** `for lib in args.extra_libs: copy_library(lib)`; true when a copy raised. */
    method ExtraLibs(extra: seq<string>) returns (crashed: bool)
      modifies this
      ensures Ended(State(), crashed) == ExtraLibsF(env, old(State()), extra)
    {
      var k := 0;
      while k < |extra|
        invariant 0 <= k <= |extra|
        invariant ExtraLibsF(env, State(), extra[k..]) == ExtraLibsF(env, old(State()), extra)
      {
        var lib := extra[k];
        assert extra[k..][1..] == extra[k + 1..];
        ExtraLibsUnfold(env, State(), extra[k..]);
        if lib !in env.libs {
          parsed := parsed + [lib];
          return true;
        }
        CopyLibrary(lib);
        k := k + 1;
      }
      return false;
    }

    /**
      Everything after the QML step: `copy_plugins(args.extra_plugins)`, the drain, the extra
      libraries, and `conf` as the `qt.conf` text when nothing raised.
    */
    method ResolveAll(plugins: seq<string>, extra: seq<string>, conf: string) returns (r: Outcome)
      modifies this
      ensures r == Resolve(env, old(State()), plugins, extra, conf)
    {
      CopyPlugins(plugins);
      Drain();
      var drained := |executables|;
      var crashed := ExtraLibs(extra);
      var written := if crashed then None else Some(conf);
      return Outcome(State(), drained, crashed, written);
    }

    /** The QML step: copy what the scanner's records name, then seed the worklist from the copied tree. */
    method SeedQml(roots: seq<string>, outQmlDir: string, fs: QmlFiles, imports: seq<Import>, tree: seq<WalkEntry>)
      returns (crashed: bool)
      modifies this
      ensures Ended(State(), crashed) == SeedQmlF(roots, outQmlDir, fs, imports, tree, old(State()))
    {
      var qmlPlugins: seq<string> := [];
      var k := 0;
      while k < |imports|
        invariant 0 <= k <= |imports|
        invariant var h := HandleImports(roots, outQmlDir, fs, imports[..k]);
                  !h.crashed && qmlPlugins == h.pluginFiles
                  && State() == old(State()).(log := old(log) + h.copies)
      {
        var imp := imports[k];
        assert imports[..k + 1][..k] == imports[..k];
        if imp.path.None? {
          if imp.name.None? {
            HandleImportsAfterCrash(roots, outQmlDir, fs, imports, k + 1);
            return true;
          }
        } else if imp.path.value in fs.existing {
          var path := imp.path.value;
          var rel := imp.relativePath;
          if rel.None? {
            rel := FindRelative(roots, path);
          }
          if rel.Some? {
            var outPath := Join(outQmlDir, rel.value);
            if path in fs.dirs {
              log := log + [QmlTree(path, outPath)];
            } else {
              log := log + [QmlFile(path, outPath)];
            }
            if imp.plugin.Some? {
              qmlPlugins := qmlPlugins + [PluginFileName(imp.plugin.value)];
            }
          }
        }
        k := k + 1;
      }
      assert imports[..k] == imports;
      ghost var seeded := executables;
      var j := 0;
      while j < |tree|
        invariant 0 <= j <= |tree|
        invariant parsed == old(parsed) && log == old(log) + HandleImports(roots, outQmlDir, fs, imports).copies
        invariant executables == seeded + SeedPaths(outQmlDir, tree[..j], qmlPlugins)
      {
        assert tree[..j + 1][..j] == tree[..j];
        if tree[j].file in qmlPlugins {
          executables := executables + [WalkPath(outQmlDir, tree[j])];
        }
        j := j + 1;
      }
      assert tree[..j] == tree;
      return false;
    }
  }

  /** The script from the parsed options on. */
  method Deploy(opts: Options, host: Host) returns (r: Outcome)
    ensures r == RunF(opts, host)
  {
    var d := new Deployer(EnvOf(opts, host), opts.executable);
    var extraPlugins := opts.extraPlugins;
    if opts.wayland {
      extraPlugins := extraPlugins + WaylandPlugins;
    }
    assert extraPlugins == PluginsRequested(opts);
    if opts.qmlRootPaths != [] {
      var crashed := d.SeedQml(opts.qmlRootPaths, OutQmlDir(opts), host.qmlFiles, host.imports, host.qmlTree);
      if crashed {
        return Outcome(d.State(), 0, true, None);
      }
    }
    r := d.ResolveAll(extraPlugins, opts.extraLibs, QtConfText(opts.bin, opts.lib, opts.plugins, opts.qml));
  }
}
