/**
  The record of the copies a run performs, in order. The script only copies; the log stands for
  the destination tree, and a repeated entry is a file copied twice.
*/
module CopyLog {

  datatype Copy =
      /** `shutil.copy(from, out_libs_dir)` in `copy_library`: a library of the Qt libs directory. */
    | Library(name: string, from: string)
      /** `shutil.copy(from, out_libs_dir)` for a dependency found on a system library path. */
    | SystemLibrary(name: string, from: string)
      /** `shutil.copytree(from, to, dirs_exist_ok=True)` in `copy_plugins`. */
    | Bundle(name: string, from: string, to: string)
      /** `shutil.copytree(from, to, dirs_exist_ok=True)` for a QML module directory. */
    | QmlTree(from: string, to: string)
      /** `shutil.copyfile(from, to)` for a QML module that is a single file. */
    | QmlFile(from: string, to: string)

  /** The names of the `Library` copies, in order. */
  function LibNames(log: seq<Copy>): seq<string> {
    if log == [] then []
    else LibNames(log[..|log| - 1]) + (if log[|log| - 1].Library? then [log[|log| - 1].name] else [])
  }

  /** Appending copies appends their library names. */
  lemma {:induction false} LibNamesAppend(a: seq<Copy>, b: seq<Copy>)
    ensures LibNames(a + b) == LibNames(a) + LibNames(b)
    decreases |b|
  {
    if b == [] {
      assert a + b == a;
    } else {
      assert (a + b)[..|a + b| - 1] == a + b[..|b| - 1];
      LibNamesAppend(a, b[..|b| - 1]);
    }
  }

  /** Copies that are not libs-dir library copies add no library names. */
  lemma {:induction false} LibNamesNone(log: seq<Copy>)
    requires forall c :: c in log ==> !c.Library?
    ensures LibNames(log) == []
    decreases |log|
  {
    if log != [] {
      assert log[|log| - 1] in log;
      assert forall c :: c in log[..|log| - 1] ==> c in log;
      LibNamesNone(log[..|log| - 1]);
    }
  }
}
