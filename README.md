# kddeployqt: the dependency-closure resolver

`kddeployqt.py` builds a self-contained deployment tree for a Qt application on Linux. It starts
from the executable. `readelf -d` gives each binary's `NEEDED` libraries. A library found in
Qt's libs directory is copied and inspected in turn. A library found on one of the system library
paths is only copied. When a copied Qt library's logical key (`libQt6Gui.so.6` → `Qt6Gui`) is in
the script's plugin table, the listed plugin bundles are copied too. Their `.so` files join the
`executables` worklist, and the worklist is drained while it grows. The QML modules the import
scanner reports are copied, and their native plugin files seed the worklist. `--extra-libs` names
are copied last. Finally `qt.conf` is written.

The model works on data:
- The host is a record: the libs directory as a set of names, the system paths as an ordered
  sequence of name sets, and the plugin bundles as a map from name to the files a walk of the copy
  reports.
- `readelf` is a function from a path to its output lines, or None when it fails.
- The scanner's output is a sequence of import records.
- Every copy the script makes goes into a log, a `seq<Copy>`. This lets "copied twice" be stated.

There are two layers:
- **The specification (`Resolver`).** `copy_plugins`, `copy_library` and `inspect_file_recursive`
  are mutually recursive functions over the state St (`parsed_dependencies`, `executables`, the
  log). The same holds for the worklist drain, the extra-libs loop and the whole run. Termination
  is proved with the number of libs-directory names not yet parsed.
- **The script as it runs (`DeployScript`).** The class `Deployer` keeps the same lists as fields.
  Each of its methods is proved to leave exactly the state its function describes. The main
  properties are lemmas about those functions (`ResolverLemmas`, `Deployment`):
  - every drained work item and every parsed library has its libs-dir needs parsed;
  - the library copies are exactly the parsed names;
  - a run raises exactly when QML root paths are given and a scanner record lacks both `path`
    and `name`, or when an extra library is missing;
  - the code departs from an at-most-once closure in the ways below.

An at-most-once closure over the libs directory would copy and inspect every needed library
once, deduplicate plugin bundles, and inspect every binary it copies. The code does less and
more than that, and the model follows the code:
- **Inspected file.** `copy_library` inspects the source file in the libs directory, not the
  copy in the output directory (kddeployqt.py:211-215). `CopyLibF` inspects `LibPath`.
- **Copied once.** The already-parsed filter is computed once per inspection, before the loop
  (kddeployqt.py:240). A later sibling that an earlier sibling's recursion already copied is
  therefore copied and inspected again (`StaleFilterRecopies`).
- **Bundle deduplication.** `copy_plugins` has no check against earlier copies. It copies a bundle
  and re-appends its `.so` files every time it is triggered (`CopyPluginsAppends`,
  `CopyPluginsTwice`).
- **System libraries.** These are copied from the first path holding them. They are never added to
  `parsed_dependencies` and never inspected (`SystemDependencyCopied`).
- **Extra libraries.** `--extra-libs` runs after the drain (kddeployqt.py:256-261). An extra
  library is itself inspected, since `copy_library` inspects it (`ExtraLibsCopies`). The bundle
  `.so` files its table entry appends join the worklist after the loop over it has ended, so they
  are never inspected, and a library only they need is never copied
  (`ExtraLibPluginsUninspected`).

## Model

| member | source | states |
|---|---|---|
| Readelf.ParseNeededSpec | kddeployqt.py:232-237 | a line yields a name exactly when `.*\(NEEDED\).*\[(.*)\]` matches some prefix of it, and the name is the greedy group (the last `]`, and the last `[` before it) |
| Readelf.ParseNeeded | kddeployqt.py:234-237 | a match needs a `(NEEDED)` tag in the line, and the group holds no `[`; `ParseNeededSpec` gives the full match |
| Readelf.ParseNeededRecord | kddeployqt.py:234-237 | a record `<pre>(NEEDED)<mid>[name]<post>` yields `name` when `name` holds no bracket and `post` no `]` |
| Readelf.ParseNeededIgnores | kddeployqt.py:233-236 | a line without `(NEEDED)` yields nothing |
| Readelf.NeededNames | kddeployqt.py:232-237 | at most one name per line; `NeededNamesAppend` and `NeededNamesMembers` give order and membership |
| Readelf.NeededNamesAppend | kddeployqt.py:232-237 | the names of `a + b` are the names of `a` followed by those of `b` (line order is kept) |
| Readelf.NeededNamesMembers | kddeployqt.py:232-237 | a name is collected exactly when some line parses to it |
| Readelf.ReadNeeded | kddeployqt.py:232-237 | the loop over the `readelf` lines collects exactly the names `NeededNames` specifies |
| LibraryNames.StemOfChain | kddeployqt.py:206-208 | one `Path.stem` step on `base.s1…sn` removes exactly the last segment |
| LibraryNames.Stem | kddeployqt.py:206-208 | `Path.stem` shortens a name that has suffixes |
| LibraryNames.StripSuffixes | kddeployqt.py:207-208 | the `while Path(dep).suffixes` loop ends with a name without suffixes, no longer than it started |
| LibraryNames.LogicalKey | kddeployqt.py:206-209 | the key `copy_library` looks up; `LogicalKeyOfQualifiedName` states its value |
| LibraryNames.StripChain | kddeployqt.py:207-208 | the `while Path(dep).suffixes` loop strips every version segment of a qualified name, leaving its base |
| LibraryNames.LogicalKeyOfQualifiedName | kddeployqt.py:204-209 | the logical key of `lib<base>.s1…sn` is `base` (e.g. `libQt6Gui.so.6` → `Qt6Gui`) |
| Text.RemoveAllAbsent | kddeployqt.py:135 | `str.replace(t, '')` leaves a text without `t` unchanged |
| QmakeQuery.SecondFieldSpec | kddeployqt.py:115 | `line.split(':')[1]` fails exactly when the line has no `:`, and otherwise is the text between the first `:` and the next `:` or the end |
| QmakeQuery.SecondFieldRoundTrip | kddeployqt.py:115 | `a:v…` reads back as `v` when neither `a` nor `v` holds a `:` |
| QmakeQuery.SecondField | kddeployqt.py:115 | `line.split(':')[1]`, None when it raises; `SecondFieldSpec` and `SecondFieldRoundTrip` state its value |
| QmakeQuery.Scan | kddeployqt.py:113-123 | the five-variable scan, None when it raises; `ScanFails` and `ScanValues` state its result |
| QmakeQuery.LastWith | kddeployqt.py:113-123 | the index found is the last line holding the key, and None means no line holds it |
| QmakeQuery.ScanFails | kddeployqt.py:113-123 | the scan raises exactly when some line holds one of the five keys and no `:` |
| QmakeQuery.ScanValues | kddeployqt.py:113-123 | without a raise, each of the five variables holds the second field of the last line holding its key (last match wins) and is unset when no line holds it |
| QmakeQuery.QueryPaths | kddeployqt.py:112-123 | the scanning loop returns what `Scan` specifies, including None when a line raises |
| QmlImports.FindRelative | kddeployqt.py:132-139 | the loop over the roots returns what `FindRelativePath` specifies |
| QmlImports.FindRelativePath | kddeployqt.py:132-139 | `find_relative_path`, None for the raise; `FindRelativePathSpec` states its result |
| QmlImports.FindRelativePathFirst | kddeployqt.py:132-138 | with the first prefixing root known, the result is the path with every occurrence of that root removed and one leading `/` dropped |
| QmlImports.FindRelativePathNone | kddeployqt.py:139 | with no prefixing root, the lookup fails |
| QmlImports.FindRelativePathSpec | kddeployqt.py:132-139 | the lookup fails exactly when no root is a prefix; otherwise the result comes from the first prefixing root with every occurrence removed and at most one leading `/` dropped |
| QmlImports.FirstPrefixExists | kddeployqt.py:133-134 | when some root is a prefix of the path, a first such root exists |
| QmlImports.FindRelativePathBelowRoot | kddeployqt.py:132-138 | `root/rel` maps back to `rel` when no earlier root is a prefix and `root` does not recur in `/rel` |
| QmlImports.FindRelativePathRemovesRepeats | kddeployqt.py:135 | under root `/x`, `/x/y/x/z` becomes `y/z`: every occurrence of the root goes, not just the prefix |
| QmlImports.PluginFileNameSpec | kddeployqt.py:177 | `lib<plugin>.so` starts with `lib`, ends with `.so`, and determines the plugin name |
| QmlImports.PluginFileName | kddeployqt.py:177 | `'lib{}.so'.format(plugin)`; `PluginFileNameSpec` states its shape |
| QmlImports.HandleImport | kddeployqt.py:153-177 | the body of the loop over the scanner's records; `HandleImportSpec` states each case |
| QmlImports.HandleImportSpec | kddeployqt.py:153-177 | a record raises exactly when it has neither `path` nor `name`; it is copied exactly when its path exists and a relative path is known (its `relativePath`, else `find_relative_path`), then from its path to `<out_qml_dir>/<rel>`, as a tree exactly when the path is a directory; it yields `lib<plugin>.so` exactly when it names a plugin |
| QmlImports.HandleImports | kddeployqt.py:153-177 | the loop over the records, ended by a raise; see the lemmas below |
| QmlImports.HandleImportsCrash | kddeployqt.py:153-156 | the import loop raises exactly when some record has neither `path` nor `name` |
| QmlImports.HandleImportsAfterCrash | kddeployqt.py:153-156 | after the record that raises, the later records change nothing |
| QmlImports.HandleImportsCopies | kddeployqt.py:157-173 | without a raise, there is at most one copy per record, and each copy is a tree or file copy of an existing path into the output QML directory |
| QmlImports.HandleImportsCopiesMembers | kddeployqt.py:153-173 | without a raise, a copy is made exactly when some record's step deploys it |
| QmlImports.HandleImportsPluginFiles | kddeployqt.py:174-177 | without a raise, `lib<p>.so` is collected exactly when a record naming plugin `p` was deployed |
| QmlImports.SeedPathsSpec | kddeployqt.py:180-185 | a walked file of the QML tree becomes a work item exactly when its name was collected; there are no more items than walked files |
| QmlImports.SeedPaths | kddeployqt.py:180-185 | the walked files of the QML tree whose name was collected; `SeedPathsSpec` states which |
| QtConf.QtConfText | kddeployqt.py:266-273 | the text the seven `f.write` calls produce; `QtConfLines` states its lines |
| QtConf.QtConfLines | kddeployqt.py:266-273 | `qt.conf` consists of exactly the lines `[Paths]`, `Prefix = ..`, `Binaries = <bin>`, `Libraries = <lib>`, `Plugins = <plugins>`, `Imports = <qml>`, `QmlImports = <qml>`, each ended by a newline |
| QtConf.SplitLines | kddeployqt.py:266-273 | newline-terminated lines without inner newlines split back into those lines |
| Resolver.Fresh | kddeployqt.py:240 | a name passes the filter exactly when it was found and is not yet parsed |
| Resolver.FreshAppend | kddeployqt.py:240 | the filter keeps order and repeats: filtering `a + b` is filtering `a`, then `b` |
| Resolver.FreshOne | kddeployqt.py:240 | a single name is kept exactly when it is not parsed |
| Resolver.FirstSystemDir | kddeployqt.py:248-254 | the path where the `break` happens: the first, in order, holding the name, or None when none does |
| Resolver.SystemCopy | kddeployqt.py:248-254 | the system branch: one copy from the path `FirstSystemDir` finds, none without one; `SystemCopyExtends` and `SystemDependencyCopied` state its effect |
| Resolver.SoFiles | kddeployqt.py:195-200 | the `.so` files of a walk; `SoFilesMembers` states which |
| Resolver.CopyBundle | kddeployqt.py:189-200 | one iteration of `copy_plugins`; `CopyBundleExtends` and `BundleCopiesMembers` state its effect |
| Resolver.CopyPluginsF | kddeployqt.py:188-200 | `copy_plugins` leaves `parsed_dependencies` alone |
| Resolver.CopyPluginsExtends | kddeployqt.py:188-200 | `copy_plugins` only appends bundle copies and `.so` files of copied bundles to the worklist |
| Resolver.InspectF | kddeployqt.py:222-254 | an inspection only extends the state: parsed grows by libs-dir names, each copied once from the libs dir in the same order; the names it parses were not parsed before it started; it adds work items only when fewer names stay unparsed; a failing `readelf` changes nothing |
| Resolver.DepsF | kddeployqt.py:243-254 | the dependency loop only extends the state, and no name it parses was parsed when the filter ran |
| Resolver.CopyLibF | kddeployqt.py:204-218 | `copy_library(lib)` appends `lib` to parsed and logs its libs-dir copy first; later names it parses avoid what was parsed before; the state only extends |
| Resolver.DrainF | kddeployqt.py:256-257 | draining the worklist only extends the state |
| Resolver.ExtraLibsF | kddeployqt.py:260-261 | the extra-libs loop raises exactly when some extra name is missing from the libs directory; the worklist and the log only grow |
| Resolver.Shrinks | kddeployqt.py:240-246 | a libs-dir name the filter let through leaves fewer names unparsed once marked; this is the measure under which the mutual recursion terminates |
| Resolver.SystemCopyExtends | kddeployqt.py:248-254 | a system lookup never changes `parsed_dependencies` or the worklist |
| Resolver.SoFilesMembers | kddeployqt.py:195-200 | a walked file of a copied bundle becomes a work item exactly when its name ends in `.so` |
| Resolver.CopyBundleExtends | kddeployqt.py:189-200 | one bundle step only appends a bundle copy and `.so` work items |
| ResolverLemmas.CopyPluginsAppends | kddeployqt.py:188-200 | `copy_plugins(names)` appends the same bundle copies and `.so` files whatever the state: nothing is deduplicated |
| ResolverLemmas.CopyPluginsTwice | kddeployqt.py:188-200 | triggering the same bundles twice copies them twice and lists their files twice |
| ResolverLemmas.BundleCopiesMembers | kddeployqt.py:189-194 | a bundle is copied exactly when it is listed and exists in the plugins directory, to `<out_plugins_dir>/<name>` |
| ResolverLemmas.BundleFilesMembers | kddeployqt.py:195-200 | a work item is added exactly when it is a `.so` file of a listed bundle that exists |
| ResolverLemmas.CopyLibPlugins | kddeployqt.py:206-218 | after inspecting its source, `copy_library(lib)` copies exactly the bundles the table lists for `lib`'s logical key, and none on a miss |
| ResolverLemmas.InspectCloses | kddeployqt.py:222-254 | after an inspection, every libs-dir name the file needs is parsed, and so is every libs-dir need of each library parsed during it |
| ResolverLemmas.DepsCloses | kddeployqt.py:243-254 | after the dependency loop, every libs-dir name of the list is parsed and the new libraries are closed |
| ResolverLemmas.CopyLibCloses | kddeployqt.py:204-218 | after `copy_library`, the library and every library parsed during the call have their libs-dir needs parsed |
| ResolverLemmas.DrainCloses | kddeployqt.py:256-257 | after the drain, every work item from the start position on, including those appended meanwhile, has its libs-dir needs parsed |
| ResolverLemmas.InspectTwo | kddeployqt.py:240-246 | an inspection that finds `[a, b]`, both unparsed, copies `a` (with its recursion) and then `b`, in order |
| ResolverLemmas.StaleFilterRecopies | kddeployqt.py:240-246 | when `a`'s recursion already parsed `b`, the loop parses and copies `b` a second time |
| ResolverLemmas.SystemDependencyCopied | kddeployqt.py:247-254 | a dependency outside the libs directory is not parsed or inspected; it is copied once from the first system path holding it, and not at all when none holds it |
| ResolverLemmas.ExtraLibsExtends | kddeployqt.py:260-261 | with every extra name in the libs directory, the loop does not raise and only extends the state |
| ResolverLemmas.ExtraLibsCopies | kddeployqt.py:260-261 | with every extra name in the libs directory, each is parsed afterwards and every library the loop parsed is closed |
| ResolverLemmas.CopyLibUninspected | kddeployqt.py:204-218 | when `readelf` fails on a library, `copy_library` copies it, then exactly the bundles its logical key lists |
| ResolverLemmas.ExtraLibPluginsUninspected | kddeployqt.py:256-261 | a `.so` file a bundle of an extra library brings joins the worklist, yet a libs-dir name it needs stays unparsed and uncopied |
| PluginTable.PluginEntries | kddeployqt.py:80-107 | every entry of the `plugins` dictionary lists at least one bundle, under a `Qt6…` logical key |
| PluginTable.WaylandBundles | kddeployqt.py:127-130 | two of the `--wayland` bundles are also listed under `Qt6WaylandClient`; `wayland-graphics-integration-client` is listed under no key |
| Deployment.PluginsRequested | kddeployqt.py:127-130 | `--wayland` appends exactly its three bundles after the requested ones |
| Deployment.EnvOf | kddeployqt.py:68-107 | the resolver's environment: `out_plugins_dir` is `<output>/<plugins>`, and the table is the `plugins` dictionary |
| Deployment.SeedQmlF | kddeployqt.py:141-185 | the QML step keeps `parsed_dependencies`, only appends to the worklist and the log, and adds no work item when it raises |
| Deployment.Resolve | kddeployqt.py:202-273 | `qt.conf` is written exactly when nothing raised, with the given text; the worklist only grows and the drain stops within it |
| Deployment.RunF | kddeployqt.py:125-273 | a run writes `qt.conf` with the options' text exactly when it does not raise |
| Deployment.SeedQmlKeepsLibraries | kddeployqt.py:153-185 | without a raise, the QML step copies no library, and every work item it adds is a walked file of the output QML tree |
| Deployment.RunCrashes | kddeployqt.py:143-261 | a run raises exactly when QML root paths are given and a scanner record has neither path nor name, or when an extra library is missing from the libs directory |
| Deployment.RunCloses | kddeployqt.py:125-261 | without a raise: the executable is the first item drained; every drained item and every parsed library has its libs-dir needs parsed; every extra library is parsed; the library copies are exactly the parsed names in order; the items after the drain are bundle `.so` files, never inspected |
| Deployment.ResolveCloses | kddeployqt.py:202-261 | the same guarantee for the resolver part, from a state with nothing parsed |
| Deployment.DrainStep | kddeployqt.py:202-257 | copying the extra bundles and draining from empty `parsed_dependencies` leaves every work item and every parsed library closed |
| Deployment.ExtraLibsStep | kddeployqt.py:256-261 | the extra-libs loop keeps a closed state closed and parses every extra name |
| DeployScript.Deployer.constructor | kddeployqt.py:108-125 | the run starts with nothing parsed, nothing copied and the executable as the only work item |
| DeployScript.Deployer.CopyPlugins | kddeployqt.py:188-200 | the nested loops leave the state `CopyPluginsF` specifies |
| DeployScript.Deployer.CopyBundleOf | kddeployqt.py:190-200 | one bundle's copy and walk leave the state `CopyBundle` specifies |
| DeployScript.Deployer.CopyLibrary | kddeployqt.py:204-218 | `copy_library` on the shared lists, including the stem-stripping loop, leaves the state `CopyLibF` specifies |
| DeployScript.Deployer.InspectFile | kddeployqt.py:222-240 | `inspect_file_recursive` leaves the state `InspectF` specifies |
| DeployScript.Deployer.ResolveDependencies | kddeployqt.py:243-254 | the dependency loop leaves the state `DepsF` specifies |
| DeployScript.Deployer.SystemLookup | kddeployqt.py:248-254 | the search with `break` copies from the first system path holding the name, as `SystemCopy` specifies |
| DeployScript.Deployer.Drain | kddeployqt.py:256-257 | iterating a list that grows under the loop leaves the state `DrainF` specifies |
| DeployScript.Deployer.ExtraLibs | kddeployqt.py:260-261 | the extra-libs loop, stopping at the first missing library, matches `ExtraLibsF` |
| DeployScript.Deployer.ResolveAll | kddeployqt.py:202-273 | extra bundles, drain, extra libraries and `qt.conf` give the outcome `Resolve` specifies |
| DeployScript.Deployer.SeedQml | kddeployqt.py:141-185 | the import loop and the walk of the QML tree leave the state and raise flag `SeedQmlF` specifies |
| DeployScript.Deploy | kddeployqt.py:125-273 | the whole script from the parsed options gives the outcome `RunF` specifies |

## Left out

- Argument parsing and tool discovery (kddeployqt.py:13-58) are configuration. The options are the `Options` record.
- `os.makedirs` of the output folders (kddeployqt.py:63-66) is left out, and so is the copy of the executable into `bin` (kddeployqt.py:72-76). Neither touches the resolver's state.
- `qmake`, `readelf` and `qmlimportscanner` are foreign processes. Their outputs are given as data: the qmake lines, a `readelf` function and a sequence of import records. The scanner's command line and its `-importPath` arguments (kddeployqt.py:144-152) are left out. So is JSON decoding.
- `QmakeQuery.Scan` is not wired into the run. The run is given the libs and plugins directories directly, as `Host.libsDir` and `Host.pluginsDir`. The `NameError` the script raises when `qmake` prints no line for a key is not modelled.
- Filesystem effects are log entries, and existence checks answer from sets. This covers `shutil.copy`, `copytree`, `copyfile`, `isfile`, `exists` and `isdir`. `copytree`'s merge into an existing directory is not modelled.
- Bundles: the walk of a copied plugin bundle (kddeployqt.py:195) is the given file list for that bundle. It does not depend on earlier copies into the same destination.
- The QML tree walk: the walk of `out_qml_dir` (kddeployqt.py:180) is the given `Host.qmlTree`. What the QML copies put there is not derived.
- `os.walk` order is a given sequence.
- `pathlib` is modelled only through `name`, `stem` and `suffixes`, following CPython 3.12 for names with leading dots. There is no path normalisation.
- Exceptions are modelled as follows:
  - A failing `readelf` is None, and the inspection returns (kddeployqt.py:225-229).
  - The exception `find_relative_path` raises (kddeployqt.py:139) is None, and the record is skipped (kddeployqt.py:164-166).
  - Two raises end the run through the `crashed` flag of `RunF`: the `KeyError` on a scanner record with neither `path` nor `name` (only when QML root paths are given, kddeployqt.py:143), and `shutil.copy` of a missing extra library.
  - The `IndexError` of `split(':')[1]` on a `qmake` line that holds a key but no `:` is the None of `QmakeQuery.Scan` (`ScanFails`). It does not reach `RunF`, because the scan is not wired into the run.
  - Other I/O errors are not modelled.
- Verbose printing and the diagnostics printed on skips are observational only.
- The libs directory is a finite set of names. Termination rests on this.
