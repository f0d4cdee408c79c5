/**
  The logical key of a library, the index into the plugin table: in `copy_library` the name is
  reduced with `pathlib.Path(...).stem` until `Path(...).suffixes` is empty, and the first
  three characters (the `lib` prefix) are dropped. `name`, `stem` and `suffixes` follow
  CPython 3.12's `PurePosixPath`.
*/
module LibraryNames {
  import opened Wrappers
  import opened Text

  /** `Path(p).name`: the text after the last `/`. */
  function BaseName(p: string): string {
    match LastIndexBelow(p, '/', |p|)
    case None => p
    case Some(i) => p[i + 1..]
  }

  /** The number of `.` characters `name.lstrip('.')` removes. */
  function LeadingDots(name: string): (r: nat)
    ensures r <= |name|
    ensures forall j :: 0 <= j < r ==> name[j] == '.'
    ensures r < |name| ==> name[r] != '.'
  {
    if name == [] || name[0] != '.' then 0 else 1 + LeadingDots(name[1..])
  }

  /** `Path(name).suffixes` is non-empty: the name does not end in `.`, and a `.` follows its leading dots. */
  predicate HasSuffixes(name: string) {
    !EndsWith(name, ".") && '.' in name[LeadingDots(name)..]
  }

  /** `Path(name).stem`: the name up to its last `.`, unless that dot is its first or last character. */
  function Stem(name: string): (r: string)
    ensures HasSuffixes(name) ==> |r| < |name|
  {
    match LastIndexBelow(name, '.', |name|)
    case Some(i) => if 0 < i < |name| - 1 then name[..i] else name
    case None => name
  }

  /** `while Path(dep).suffixes: dep = Path(dep).stem`. */
  function StripSuffixes(name: string): (r: string)
    ensures !HasSuffixes(r) && |r| <= |name|
    decreases |name|
  {
    if HasSuffixes(name) then StripSuffixes(Stem(name)) else name
  }

  /** The logical key `copy_library` derives: stem, strip every suffix, drop three characters. */
  function LogicalKey(lib: string): string {
    var dep := StripSuffixes(Stem(BaseName(lib)));
    if |dep| < 3 then [] else dep[3..]
  }

  /** The segments of a version chain: non-empty, without `.` or `/`. */
  ghost predicate ValidSegments(segs: seq<string>) {
    forall i :: 0 <= i < |segs| ==> |segs[i]| > 0 && '.' !in segs[i] && '/' !in segs[i]
  }

  /** `.s1.s2...sn`, the suffix chain of a qualified library name such as `.so.6`. */
  function Chain(segs: seq<string>): string {
    if segs == [] then [] else Chain(segs[..|segs| - 1]) + "." + segs[|segs| - 1]
  }

  lemma {:induction false} ChainChars(segs: seq<string>)
    requires ValidSegments(segs)
    ensures '/' !in Chain(segs)
    ensures segs == [] <==> '.' !in Chain(segs)
    ensures segs != [] ==> Chain(segs)[0] == '.' && Chain(segs)[|Chain(segs)| - 1] != '.'
    decreases |segs|
  {
    if segs != [] {
      var init := segs[..|segs| - 1];
      var last := segs[|segs| - 1];
      assert ValidSegments(init) by {
        forall i | 0 <= i < |init| ensures |init[i]| > 0 && '.' !in init[i] && '/' !in init[i] {
          assert init[i] == segs[i];
        }
      }
      ChainChars(init);
      var c := Chain(segs);
      assert c == Chain(init) + "." + last;
      assert c[|Chain(init)|] == '.';
      assert c[|c| - 1] == last[|last| - 1];
      assert init == [] ==> c[0] == '.';
    }
  }

  /** On a qualified name `base` + chain, one stem step removes exactly the last segment. */
  lemma StemOfChain(base: string, segs: seq<string>)
    requires |base| > 0 && '.' !in base && ValidSegments(segs) && segs != []
    ensures Stem(base + Chain(segs)) == base + Chain(segs[..|segs| - 1])
  {
    var init := segs[..|segs| - 1];
    var last := segs[|segs| - 1];
    var p := base + Chain(init);
    assert base + Chain(segs) == p + "." + last by {
      assert Chain(segs) == Chain(init) + "." + last;
    }
    assert |last| > 0 && '.' !in last;
    StemSplit(p, last);
  }

  /** One stem step removes the last `.`-segment of a name that has text before that dot. */
  lemma StemSplit(p: string, s: string)
    requires |p| > 0 && |s| > 0 && '.' !in s
    ensures Stem(p + "." + s) == p
  {
    LastDot(p, s);
    assert (p + "." + s)[..|p|] == p;
  }

  /** The last `.` of `p + "." + s` is the one added, when `s` has none. */
  lemma LastDot(p: string, s: string)
    requires '.' !in s
    ensures LastIndexBelow(p + "." + s, '.', |p + "." + s|) == Some(|p|)
  {
    var name := p + "." + s;
    assert name[|p|] == '.';
  }

  /** Stripping every suffix of a qualified name leaves its base. */
  lemma {:induction false} StripChain(base: string, segs: seq<string>)
    requires |base| > 0 && '.' !in base && ValidSegments(segs)
    ensures StripSuffixes(base + Chain(segs)) == base
    decreases |segs|
  {
    var name := base + Chain(segs);
    ChainChars(segs);
    assert LeadingDots(name) == 0 by { assert name[0] == base[0]; }
    assert name[LeadingDots(name)..] == name;
    if segs == [] {
      assert name == base;
      assert !HasSuffixes(name);
    } else {
      var init := segs[..|segs| - 1];
      assert ValidSegments(init) by {
        forall i | 0 <= i < |init| ensures |init[i]| > 0 && '.' !in init[i] && '/' !in init[i] {
          assert init[i] == segs[i];
        }
      }
      var c := Chain(segs);
      assert name[|base|] == c[0] == '.';
      assert name[|name| - 1] == c[|c| - 1];
      assert name[|name| - 1..] == [name[|name| - 1]];
      assert HasSuffixes(name);
      StemOfChain(base, segs);
      StripChain(base, init);
    }
  }

  /**
    The key of `lib<base>.s1...sn` (no `/`, no `.` in `base`) is `base`: for example the key of
    `libQt6Gui.so.6` is `Qt6Gui`.
  */
  lemma LogicalKeyOfQualifiedName(base: string, segs: seq<string>)
    requires '.' !in base && '/' !in base && ValidSegments(segs)
    ensures LogicalKey("lib" + base + Chain(segs)) == base
  {
    var b := "lib" + base;
    var name := b + Chain(segs);
    ChainChars(segs);
    assert '/' !in name;
    assert LastIndexBelow(name, '/', |name|) == None;
    assert BaseName(name) == name;
    if segs == [] {
      assert name == b;
      assert LastIndexBelow(b, '.', |b|) == None;
      assert Stem(name) == b;
      StripChain(b, []);
      assert b + Chain([]) == b;
    } else {
      StemOfChain(b, segs);
      StripChain(b, segs[..|segs| - 1]);
    }
    assert b[3..] == base;
  }
}
