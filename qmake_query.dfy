/**
  The scan of `qmake -query` output for the installation directories. Every line is tested
  against each key with `key in line`; a hit assigns `line.split(':')[1]` to that key's
  variable, so the last line holding a key wins, and a hit on a line without `:` raises
  IndexError and ends the run.
*/
module QmakeQuery {
  import opened Wrappers
  import opened Text

  const PluginsKey: string := "QT_INSTALL_PLUGINS"
  const LibsKey: string := "QT_INSTALL_LIBS"
  const QmlKey: string := "QT_INSTALL_QML"
  const HostBinsKey: string := "QT_HOST_BINS"
  const HostLibexecsKey: string := "QT_HOST_LIBEXECS"

  /** The five variables the scan assigns; None for a key no line held. */
  datatype QtPaths = QtPaths(
    plugins: Option<string>,
    libs: Option<string>,
    qml: Option<string>,
    hostBins: Option<string>,
    hostLibexecs: Option<string>)

  /** `line.split(':')[1]`: the text between the first and the second `:`; None when there is no `:`. */
  function SecondField(line: string): Option<string> {
    match IndexFrom(line, ':', 0)
    case None => None
    case Some(i) =>
      match IndexFrom(line, ':', i + 1)
      case None => Some(line[i + 1..])
      case Some(j) => Some(line[i + 1..j])
  }

  /** `line` is `a:v` followed by nothing or by a further `:`-field, with no `:` in `a` or `v`. */
  ghost predicate Delimits(line: string, a: string, v: string, b: string) {
    line == a + ":" + v + b && ':' !in a && ':' !in v && (b == [] || b[0] == ':')
  }

  /** The field is absent exactly when the line has no `:`, and is otherwise delimited by `:` on both sides (or the end). */
  lemma SecondFieldSpec(line: string)
    ensures SecondField(line).None? <==> ':' !in line
    ensures SecondField(line).Some? ==>
              exists a, b :: Delimits(line, a, SecondField(line).value, b)
  {
    match IndexFrom(line, ':', 0)
    case None =>
    case Some(i) =>
      match IndexFrom(line, ':', i + 1)
      case None =>
        DelimitsAt(line, i, |line|);
        assert line[i + 1..|line|] == line[i + 1..];
        assert Delimits(line, line[..i], line[i + 1..|line|], line[|line|..]);
      case Some(j) =>
        DelimitsAt(line, i, j);
        assert Delimits(line, line[..i], line[i + 1..j], line[j..]);
  }

  /** A line cut at its first `:` (index `i`) and at the next `:` or the end (index `j`). */
  lemma DelimitsAt(line: string, i: nat, j: nat)
    requires i < j <= |line| && line[i] == ':'
    requires forall m :: 0 <= m < i ==> line[m] != ':'
    requires forall m :: i < m < j ==> line[m] != ':'
    requires j < |line| ==> line[j] == ':'
    ensures Delimits(line, line[..i], line[i + 1..j], line[j..])
  {
    var a := line[..i];
    var v := line[i + 1..j];
    assert ':' !in a by {
      forall m | 0 <= m < |a| ensures a[m] != ':' { assert a[m] == line[m]; }
    }
    assert ':' !in v by {
      forall m | 0 <= m < |v| ensures v[m] != ':' { assert v[m] == line[i + 1 + m]; }
    }
    assert line == a + ":" + v + line[j..];
  }

  /** Reading a field back: `a:v:...` yields `v` when neither `a` nor `v` holds a `:`. */
  lemma SecondFieldRoundTrip(a: string, v: string, b: string)
    requires ':' !in a && ':' !in v && (b == [] || b[0] == ':')
    ensures SecondField(a + ":" + v + b) == Some(v)
  {
    var line := a + ":" + v + b;
    assert line[|a|] == ':';
    assert forall m :: 0 <= m < |a| ==> line[m] == a[m];
    assert IndexFrom(line, ':', 0) == Some(|a|);
    assert forall m :: |a| < m < |a| + 1 + |v| ==> line[m] == v[m - |a| - 1];
    if b == [] {
      assert IndexFrom(line, ':', |a| + 1) == None;
      assert line[|a| + 1..] == v;
    } else {
      assert line[|a| + 1 + |v|] == ':';
      assert IndexFrom(line, ':', |a| + 1) == Some(|a| + 1 + |v|);
      assert line[|a| + 1..|a| + 1 + |v|] == v;
    }
  }

  /** The index of the last line holding `key`, if any. */
  function LastWith(lines: seq<string>, key: string): (r: Option<nat>)
    ensures r.Some? ==> r.value < |lines| && Contains(lines[r.value], key)
                        && forall j :: r.value < j < |lines| ==> !Contains(lines[j], key)
    ensures r.None? ==> forall j :: 0 <= j < |lines| ==> !Contains(lines[j], key)
  {
    if lines == [] then None
    else if Contains(lines[|lines| - 1], key) then Some(|lines| - 1)
    else LastWith(lines[..|lines| - 1], key)
  }

  /** The value the last line holding `key` assigns, if any line holds it. */
  function LastValue(lines: seq<string>, key: string): Option<string> {
    match LastWith(lines, key)
    case None => None
    case Some(i) => SecondField(lines[i])
  }

  /** The line holds one of the five keys but no `:`, so `split(':')[1]` raises. */
  predicate LineFails(line: string) {
    (Contains(line, PluginsKey) || Contains(line, LibsKey) || Contains(line, QmlKey)
     || Contains(line, HostBinsKey) || Contains(line, HostLibexecsKey))
    && SecondField(line).None?
  }

  /** One `if key in line: var = line.split(':')[1]` on a line that does not fail. */
  function Assign(current: Option<string>, line: string, key: string): Option<string> {
    if Contains(line, key) then SecondField(line) else current
  }

  /** The loop body for one line: the five tests in the script's order. */
  function ScanLine(q: QtPaths, line: string): Option<QtPaths> {
    if LineFails(line) then None
    else Some(QtPaths(
      Assign(q.plugins, line, PluginsKey),
      Assign(q.libs, line, LibsKey),
      Assign(q.qml, line, QmlKey),
      Assign(q.hostBins, line, HostBinsKey),
      Assign(q.hostLibexecs, line, HostLibexecsKey)))
  }

  /** The whole scan: None when it raises. */
  function Scan(lines: seq<string>): Option<QtPaths> {
    if lines == [] then Some(QtPaths(None, None, None, None, None))
    else
      match Scan(lines[..|lines| - 1])
      case None => None
      case Some(q) => ScanLine(q, lines[|lines| - 1])
  }

  /** Peeling the last line off: it wins if it holds the key. */
  lemma LastValueStep(lines: seq<string>, key: string)
    requires lines != []
    ensures LastValue(lines, key) ==
              if Contains(lines[|lines| - 1], key) then SecondField(lines[|lines| - 1])
              else LastValue(lines[..|lines| - 1], key)
  {
  }

  /** The scan raises exactly when some line holds a key and no `:`. */
  lemma {:induction false} ScanFails(lines: seq<string>)
    ensures Scan(lines).None? <==> exists i :: 0 <= i < |lines| && LineFails(lines[i])
    decreases |lines|
  {
    if lines != [] {
      var init := lines[..|lines| - 1];
      ScanFails(init);
      if exists i :: 0 <= i < |init| && LineFails(init[i]) {
        var i :| 0 <= i < |init| && LineFails(init[i]);
        assert LineFails(lines[i]);
      }
      if exists i :: 0 <= i < |lines| && LineFails(lines[i]) {
        var i :| 0 <= i < |lines| && LineFails(lines[i]);
        if i < |init| { assert LineFails(init[i]); }
      }
    }
  }

  /** When the scan does not raise, each variable holds the second field of the last line holding its key. */
  lemma {:induction false} ScanValues(lines: seq<string>)
    requires Scan(lines).Some?
    ensures Scan(lines).value.plugins == LastValue(lines, PluginsKey)
    ensures Scan(lines).value.libs == LastValue(lines, LibsKey)
    ensures Scan(lines).value.qml == LastValue(lines, QmlKey)
    ensures Scan(lines).value.hostBins == LastValue(lines, HostBinsKey)
    ensures Scan(lines).value.hostLibexecs == LastValue(lines, HostLibexecsKey)
    decreases |lines|
  {
    if lines != [] {
      var init := lines[..|lines| - 1];
      ScanValues(init);
      LastValueStep(lines, PluginsKey);
      LastValueStep(lines, LibsKey);
      LastValueStep(lines, QmlKey);
      LastValueStep(lines, HostBinsKey);
      LastValueStep(lines, HostLibexecsKey);
    }
  }

  /** The scanning loop itself: the five variables start unset and each line updates them in turn. */
  method QueryPaths(lines: seq<string>) returns (r: Option<QtPaths>)
    ensures r == Scan(lines)
  {
    var q := QtPaths(None, None, None, None, None);
    var k := 0;
    while k < |lines|
      invariant 0 <= k <= |lines|
      invariant Scan(lines[..k]) == Some(q)
    {
      var line := lines[k];
      assert lines[..k + 1][..k] == lines[..k];
      if LineFails(line) {
        ScanFails(lines);
        return None;
      }
      q := QtPaths(
        Assign(q.plugins, line, PluginsKey),
        Assign(q.libs, line, LibsKey),
        Assign(q.qml, line, QmlKey),
        Assign(q.hostBins, line, HostBinsKey),
        Assign(q.hostLibexecs, line, HostLibexecsKey));
      k := k + 1;
    }
    assert lines[..k] == lines;
    return Some(q);
  }
}
