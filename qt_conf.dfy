/** The `qt.conf` file written into the output bin folder at the end of a run. */
module QtConf {
  import opened Text

  /** The text written: seven `f.write` calls, each writing one line and its newline. */
  function QtConfText(bin: string, lib: string, plugins: string, qml: string): string {
    Lines(["[Paths]", "Prefix = ..", "Binaries = " + bin, "Libraries = " + lib,
           "Plugins = " + plugins, "Imports = " + qml, "QmlImports = " + qml])
  }

  /** Lines written one after the other, each followed by a newline. */
  function Lines(ls: seq<string>): string {
    if ls == [] then [] else ls[0] + "\n" + Lines(ls[1..])
  }

  /** Newline-terminated lines without newlines inside split back into those lines and a last empty piece. */
  lemma {:induction false} SplitLines(ls: seq<string>)
    requires forall i :: 0 <= i < |ls| ==> '\n' !in ls[i]
    ensures Split(Lines(ls), '\n') == ls + [""]
    decreases |ls|
  {
    if ls == [] {
      assert Split([], '\n') == [[]];
    } else {
      var rest := ls[1..];
      forall i | 0 <= i < |rest| ensures '\n' !in rest[i] {
        assert rest[i] == ls[i + 1];
      }
      SplitLines(rest);
      assert '\n' !in ls[0];
      SplitFirst(ls[0], '\n', Lines(rest));
      assert Lines(ls) == ls[0] + ['\n'] + Lines(rest);
      assert ls + [""] == [ls[0]] + (rest + [""]);
    }
  }

  lemma NoNewline(key: string, v: string)
    requires '\n' !in key && '\n' !in v
    ensures '\n' !in key + v
  {
  }

  /**
    Read back line by line, the file holds exactly these seven lines in this order and nothing
    after the last newline: the `Prefix` is `..`, and the QML folder is given both as `Imports`
    and as `QmlImports`.
  */
  lemma QtConfLines(bin: string, lib: string, plugins: string, qml: string)
    requires '\n' !in bin && '\n' !in lib && '\n' !in plugins && '\n' !in qml
    ensures Split(QtConfText(bin, lib, plugins, qml), '\n')
            == ["[Paths]", "Prefix = ..", "Binaries = " + bin, "Libraries = " + lib,
                "Plugins = " + plugins, "Imports = " + qml, "QmlImports = " + qml, ""]
  {
    var ls := ["[Paths]", "Prefix = ..", "Binaries = " + bin, "Libraries = " + lib,
               "Plugins = " + plugins, "Imports = " + qml, "QmlImports = " + qml];
    NoNewline("Binaries = ", bin);
    NoNewline("Libraries = ", lib);
    NoNewline("Plugins = ", plugins);
    NoNewline("Imports = ", qml);
    NoNewline("QmlImports = ", qml);
    assert forall i :: 0 <= i < |ls| ==> '\n' !in ls[i];
    SplitLines(ls);
  }
}
