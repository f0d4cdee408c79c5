/**
  The Binary Inspector's parser: the lines printed by `readelf -d <file>` are scanned with
  `re.match(r'.*\(NEEDED\).*\[(.*)\]', line)`, and group 1 of every matching line is a
  required library name, kept in line order.
*/
module Readelf {
  import opened Wrappers
  import opened Text

  const NeededTag: string := "(NEEDED)"

  /** Some occurrence of `(NEEDED)` ends at or before index `limit`. */
  function TagBefore(line: string, limit: nat): (r: bool)
    requires limit <= |line|
    ensures r <==> exists i :: i + |NeededTag| <= limit && OccursAt(line, NeededTag, i)
  {
    if limit < |NeededTag| then
      false
    else if line[limit - |NeededTag|..limit] == NeededTag then
      assert OccursAt(line, NeededTag, limit - |NeededTag|);
      true
    else
      TagBefore(line, limit - 1)
  }

  /**
    One way for the pattern to match a prefix of `line`: `(NEEDED)` at `i`, then later a `[` at
    `j` and a `]` at `k`, the group being the text strictly between them.
  */
  ghost predicate MatchAt(line: string, i: int, j: int, k: int) {
    OccursAt(line, NeededTag, i) && i + |NeededTag| <= j < k < |line|
    && line[j] == '[' && line[k] == ']'
  }

  /** Some way for the pattern to match. */
  ghost predicate Matches(line: string) {
    exists i, j, k :: MatchAt(line, i, j, k)
  }

  /**
    The brackets backtracking settles on: `(.*)\]` takes the last `]` of the line, and the `.*`
    before `\[` the last `[` before it.
  */
  ghost predicate GreedyBrackets(line: string, j: int, k: int) {
    0 <= j < k < |line| && line[j] == '[' && line[k] == ']'
    && (forall m :: j < m < k ==> line[m] != '[')
    && (forall m :: k < m < |line| ==> line[m] != ']')
  }

  /** Group 1 of the match, or None when the line does not match. */
  function ParseNeeded(line: string): (r: Option<string>)
    ensures r.Some? ==> Contains(line, NeededTag) && '[' !in r.value
  {
    match LastIndexBelow(line, ']', |line|)
    case None => None
    case Some(k) =>
      match LastIndexBelow(line, '[', k)
      case None => None
      case Some(j) =>
        if TagBefore(line, j) then
          var g := line[j + 1..k];
          assert forall m :: 0 <= m < |g| ==> g[m] == line[j + 1 + m] != '[';
          Some(g)
        else None
  }

  /** The parser matches exactly when the pattern does, and returns the greedy group. */
  lemma ParseNeededSpec(line: string)
    ensures ParseNeeded(line).Some? <==> Matches(line)
    ensures ParseNeeded(line).Some? ==>
              exists j, k :: GreedyBrackets(line, j, k) && ParseNeeded(line).value == line[j + 1..k]
  {
    if Matches(line) {
      var i, j, k :| MatchAt(line, i, j, k);
      var K := LastIndexBelow(line, ']', |line|);
      assert K.Some? && K.value >= k;
      var J := LastIndexBelow(line, '[', K.value);
      assert J.Some? && J.value >= j;
      assert TagBefore(line, J.value);
    }
    var r := ParseNeeded(line);
    if r.Some? {
      var k := LastIndexBelow(line, ']', |line|).value;
      var j := LastIndexBelow(line, '[', k).value;
      assert GreedyBrackets(line, j, k);
      var i :| i + |NeededTag| <= j && OccursAt(line, NeededTag, i);
      assert MatchAt(line, i, j, k);
    }
  }

  /**
    The shape of a dynamic-section record, `<pre>(NEEDED)<mid>[<name>]<post>`, yields `name`
    as long as `name` holds no bracket and `post` no `]`.
  */
  lemma ParseNeededRecord(pre: string, mid: string, name: string, post: string)
    requires '[' !in name && ']' !in name && ']' !in post
    ensures ParseNeeded(pre + NeededTag + mid + "[" + name + "]" + post) == Some(name)
  {
    var line := pre + NeededTag + mid + "[" + name + "]" + post;
    var j := |pre| + |NeededTag| + |mid|;
    var k := j + 1 + |name|;
    assert line[j] == '[' && line[k] == ']';
    assert line[j + 1..k] == name;
    assert forall m :: k < m < |line| ==> line[m] == post[m - k - 1];
    assert forall m :: j < m < k ==> line[m] == name[m - j - 1];
    var K := LastIndexBelow(line, ']', |line|);
    assert K == Some(k);
    var J := LastIndexBelow(line, '[', k);
    assert J == Some(j);
    assert line[|pre|..|pre| + |NeededTag|] == NeededTag;
    assert OccursAt(line, NeededTag, |pre|);
  }

  /** A line without `(NEEDED)` contributes nothing. */
  lemma ParseNeededIgnores(line: string)
    requires !Contains(line, NeededTag)
    ensures ParseNeeded(line) == None
  {
    ParseNeededSpec(line);
  }

  /** The names of all matching lines, in line order (the loop that fills `dependencies`). */
  function NeededNames(lines: seq<string>): (r: seq<string>)
    ensures |r| <= |lines|
  {
    if lines == [] then []
    else
      NeededNames(lines[..|lines| - 1])
      + match ParseNeeded(lines[|lines| - 1]) { case Some(n) => [n] case None => [] }
  }

  /** The scan is a homomorphism: the names of `a + b` are those of `a` followed by those of `b`. */
  lemma {:induction false} NeededNamesAppend(a: seq<string>, b: seq<string>)
    ensures NeededNames(a + b) == NeededNames(a) + NeededNames(b)
    decreases |b|
  {
    if b == [] {
      assert a + b == a;
    } else {
      var b' := b[..|b| - 1];
      assert (a + b)[..|a + b| - 1] == a + b';
      NeededNamesAppend(a, b');
    }
  }

  /** A name is found exactly when some line parses to it. */
  lemma {:induction false} NeededNamesMembers(lines: seq<string>, x: string)
    ensures x in NeededNames(lines) <==> exists l :: l in lines && ParseNeeded(l) == Some(x)
    decreases |lines|
  {
    if lines != [] {
      var init := lines[..|lines| - 1];
      var last := lines[|lines| - 1];
      NeededNamesMembers(init, x);
      assert lines == init + [last];
      if ParseNeeded(last) == Some(x) {
        assert last in lines;
      }
      if exists l :: l in init && ParseNeeded(l) == Some(x) {
        var l :| l in init && ParseNeeded(l) == Some(x);
        assert l in lines;
      }
    }
  }

  /** The loop over the `readelf -d` lines: collect group 1 of every matching line, in order. */
  method ReadNeeded(lines: seq<string>) returns (found: seq<string>)
    ensures found == NeededNames(lines)
  {
    found := [];
    var k := 0;
    while k < |lines|
      invariant 0 <= k <= |lines|
      invariant found == NeededNames(lines[..k])
    {
      assert lines[..k + 1][..k] == lines[..k];
      var m := ParseNeeded(lines[k]);
      if m.Some? {
        found := found + [m.value];
      }
      k := k + 1;
    }
    assert lines[..k] == lines;
  }
}
