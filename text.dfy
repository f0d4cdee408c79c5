/**
  The few Python string operations the script relies on, on `string` (= `seq<char>`):
  `t in s`, `s.startswith(p)`, `s.endswith(p)`, `s.replace(t, '')`, and the index searches
  behind `s.split(c)` and `s.rfind(c)`.
*/
module Text {
  import opened Wrappers

  /** `t` occurs in `s` starting at index `i`. */
  ghost predicate OccursAt(s: string, t: string, i: int) {
    0 <= i && i + |t| <= |s| && s[i..i + |t|] == t
  }

  /** `t` occurs somewhere in `s`. */
  ghost predicate Occurs(s: string, t: string) {
    exists i :: OccursAt(s, t, i)
  }

  /** An occurrence past index 0 is an occurrence in the tail. */
  lemma OccursShift(s: string, t: string)
    requires |s| > 0 && !OccursAt(s, t, 0)
    ensures Occurs(s, t) <==> Occurs(s[1..], t)
  {
    if Occurs(s, t) {
      var i :| OccursAt(s, t, i);
      assert s[1..][i - 1..i - 1 + |t|] == s[i..i + |t|];
      assert OccursAt(s[1..], t, i - 1);
    }
    if Occurs(s[1..], t) {
      var i :| OccursAt(s[1..], t, i);
      assert s[1..][i..i + |t|] == s[i + 1..i + 1 + |t|];
      assert OccursAt(s, t, i + 1);
    }
  }

  /** Python's `t in s`. */
  function Contains(s: string, t: string): (r: bool)
    ensures r <==> Occurs(s, t)
    decreases |s|
  {
    if |t| > |s| then
      false
    else if s[..|t|] == t then
      assert OccursAt(s, t, 0);
      true
    else
      OccursShift(s, t);
      Contains(s[1..], t)
  }

  /** Python's `s.startswith(p)`. */
  predicate StartsWith(s: string, p: string) {
    |p| <= |s| && s[..|p|] == p
  }

  /** Python's `s.endswith(p)`. */
  predicate EndsWith(s: string, p: string) {
    |p| <= |s| && s[|s| - |p|..] == p
  }

  /**
    Python's `s.replace(t, '')`: scanning left to right, every occurrence of `t` that does not
    overlap an earlier deleted one is deleted. Replacing the empty string leaves `s` as it is.
  */
  function RemoveAll(s: string, t: string): (r: string)
    ensures |r| <= |s|
    decreases |s|
  {
    if t == [] || |s| < |t| then s
    else if s[..|t|] == t then RemoveAll(s[|t|..], t)
    else [s[0]] + RemoveAll(s[1..], t)
  }

  /** Deleting a text that does not occur changes nothing. */
  lemma {:induction false} RemoveAllAbsent(s: string, t: string)
    requires !Occurs(s, t)
    ensures RemoveAll(s, t) == s
    decreases |s|
  {
    if t != [] && |s| >= |t| {
      assert !OccursAt(s, t, 0);
      OccursShift(s, t);
      RemoveAllAbsent(s[1..], t);
      assert [s[0]] + s[1..] == s;
    }
  }

  /** The first index at or after `from` that holds `c`, if any (the search behind `split`). */
  function IndexFrom(s: string, c: char, from: nat): (r: Option<nat>)
    requires from <= |s|
    ensures r.Some? ==> from <= r.value < |s| && s[r.value] == c
                        && forall j :: from <= j < r.value ==> s[j] != c
    ensures r.None? ==> forall j :: from <= j < |s| ==> s[j] != c
    decreases |s| - from
  {
    if from == |s| then None
    else if s[from] == c then Some(from)
    else IndexFrom(s, c, from + 1)
  }

  /** The last index below `bound` that holds `c`, if any (the search behind `rfind`). */
  function LastIndexBelow(s: string, c: char, bound: nat): (r: Option<nat>)
    requires bound <= |s|
    ensures r.Some? ==> r.value < bound && s[r.value] == c
                        && forall j :: r.value < j < bound ==> s[j] != c
    ensures r.None? ==> forall j :: 0 <= j < bound ==> s[j] != c
  {
    if bound == 0 then None
    else if s[bound - 1] == c then Some(bound - 1)
    else LastIndexBelow(s, c, bound - 1)
  }

  /** Python's `s.split(c)` for a one-character separator: the pieces between separators, in order. */
  function Split(s: string, c: char): (r: seq<string>)
    ensures |r| >= 1
    decreases |s|
  {
    match IndexFrom(s, c, 0)
    case None => [s]
    case Some(i) => [s[..i]] + Split(s[i + 1..], c)
  }

  /** Splitting a text that starts with a separator-free piece: that piece comes first. */
  lemma SplitFirst(a: string, c: char, rest: string)
    requires c !in a
    ensures Split(a + [c] + rest, c) == [a] + Split(rest, c)
  {
    var s := a + [c] + rest;
    assert s[|a|] == c;
    assert forall j :: 0 <= j < |a| ==> s[j] == a[j];
    assert IndexFrom(s, c, 0) == Some(|a|);
    assert s[..|a|] == a;
    assert s[|a| + 1..] == rest;
  }
}
