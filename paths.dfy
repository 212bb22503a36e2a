/**
 * File-system paths as the Rust standard library sees them: a `PathBuf` is a
 * sequence of normal components, ordered component by component, and a
 * `BTreeMap<PathBuf, _>` is iterated in that order.
 */
module Paths {
  import opened Wrappers

  /** A path as the sequence of its normal components, e.g. ["sources", "coin.move"]. */
  type Path = seq<string>

  /** Lexicographic order of two components (the byte order of their UTF-8 text). */
  predicate StrLess(a: string, b: string)
  {
    if a == [] then b != []
    else if b == [] then false
    else a[0] < b[0] || (a[0] == b[0] && StrLess(a[1..], b[1..]))
  }

  lemma {:induction false} StrLessIrreflexive(a: string)
    ensures !StrLess(a, a)
  {
    if a != [] {
      StrLessIrreflexive(a[1..]);
    }
  }

  lemma {:induction false} StrLessTransitive(a: string, b: string, c: string)
    ensures StrLess(a, b) && StrLess(b, c) ==> StrLess(a, c)
  {
    if a != [] && b != [] && c != [] && a[0] == b[0] && b[0] == c[0] {
      StrLessTransitive(a[1..], b[1..], c[1..]);
    }
  }

  lemma {:induction false} StrLessTotal(a: string, b: string)
    ensures a == b || StrLess(a, b) || StrLess(b, a)
  {
    if a != [] && b != [] && a[0] == b[0] {
      StrLessTotal(a[1..], b[1..]);
      if a[1..] == b[1..] {
        assert a == [a[0]] + a[1..] && b == [b[0]] + b[1..];
      }
    }
  }

  /** `Ord for Path`: lexicographic over components, each compared with StrLess. */
  predicate PathLess(p: Path, q: Path)
  {
    if p == [] then q != []
    else if q == [] then false
    else StrLess(p[0], q[0]) || (p[0] == q[0] && PathLess(p[1..], q[1..]))
  }

  lemma {:induction false} PathLessIrreflexive(p: Path)
    ensures !PathLess(p, p)
  {
    if p != [] {
      StrLessIrreflexive(p[0]);
      PathLessIrreflexive(p[1..]);
    }
  }

  lemma {:induction false} PathLessTransitive(p: Path, q: Path, r: Path)
    ensures PathLess(p, q) && PathLess(q, r) ==> PathLess(p, r)
  {
    if p != [] && q != [] && r != [] {
      StrLessTransitive(p[0], q[0], r[0]);
      PathLessTransitive(p[1..], q[1..], r[1..]);
    }
  }

  lemma {:induction false} PathLessTotal(p: Path, q: Path)
    ensures p == q || PathLess(p, q) || PathLess(q, p)
  {
    if p != [] && q != [] {
      StrLessTotal(p[0], q[0]);
      if p[0] == q[0] {
        PathLessTotal(p[1..], q[1..]);
        if p[1..] == q[1..] {
          assert p == [p[0]] + p[1..] && q == [q[0]] + q[1..];
        }
      }
    }
  }

  /** PathLess is a strict total order on paths. */
  lemma PathOrder()
    ensures forall p :: !PathLess(p, p)
    ensures forall p, q, r :: PathLess(p, q) && PathLess(q, r) ==> PathLess(p, r)
    ensures forall p, q :: p == q || PathLess(p, q) || PathLess(q, p)
  {
    forall p ensures !PathLess(p, p) {
      PathLessIrreflexive(p);
    }
    forall p, q, r ensures PathLess(p, q) && PathLess(q, r) ==> PathLess(p, r) {
      PathLessTransitive(p, q, r);
    }
    forall p, q ensures p == q || PathLess(p, q) || PathLess(q, p) {
      PathLessTotal(p, q);
    }
  }

  /** Strictly ascending in path order: the iteration order of a `BTreeMap<PathBuf, _>`. */
  predicate Ascending(s: seq<Path>)
  {
    forall i, j :: 0 <= i < j < |s| ==> PathLess(s[i], s[j])
  }

  predicate IsLeast(p: Path, s: set<Path>)
  {
    p in s && forall q :: q in s ==> !PathLess(q, p)
  }

  lemma {:induction false} LeastExists(s: set<Path>)
    requires s != {}
    ensures exists p :: IsLeast(p, s)
    decreases |s|
  {
    var x :| x in s;
    PathLessIrreflexive(x);
    if s != {x} {
      var rest := s - {x};
      LeastExists(rest);
      var m :| IsLeast(m, rest);
      if PathLess(x, m) {
        forall q | q in s ensures !PathLess(q, x) {
          PathLessTransitive(q, x, m);
        }
        assert IsLeast(x, s);
      } else {
        assert IsLeast(m, s);
      }
    } else {
      assert IsLeast(x, s);
    }
  }

  lemma LeastUnique(s: set<Path>)
    ensures forall p, q :: IsLeast(p, s) && IsLeast(q, s) ==> p == q
  {
    forall p, q | IsLeast(p, s) && IsLeast(q, s) ensures p == q {
      PathLessTotal(p, q);
    }
  }

  lemma LeastBelowOthers(m: Path, s: set<Path>)
    requires IsLeast(m, s)
    ensures forall q :: q in s && q != m ==> PathLess(m, q)
  {
    forall q | q in s && q != m ensures PathLess(m, q) {
      PathLessTotal(m, q);
    }
  }

  /** The keys of a map in ascending path order, as a `BTreeMap` yields them. */
  function SortedKeys(s: set<Path>): (r: seq<Path>)
    ensures Ascending(r)
    ensures forall p :: p in r ==> p in s
    ensures |r| == |s|
    decreases |s|
  {
    if s == {} then []
    else
      LeastExists(s);
      LeastUnique(s);
      var m :| IsLeast(m, s);
      LeastBelowOthers(m, s);
      var rest := SortedKeys(s - {m});
      assert forall i :: 0 <= i < |rest| ==> rest[i] in s - {m};
      [m] + rest
  }

  /** Every key of the map is visited by the ordered iteration. */
  lemma {:induction false} SortedKeysComplete(s: set<Path>, p: Path)
    requires p in s
    ensures p in SortedKeys(s)
    decreases |s|
  {
    LeastExists(s);
    LeastUnique(s);
    var m :| IsLeast(m, s);
    assert SortedKeys(s) == [m] + SortedKeys(s - {m});
    if p != m {
      SortedKeysComplete(s - {m}, p);
    }
  }

  /** `Path::file_name`: the last component, absent for an empty path or one ending in "..". */
  function FileName(p: Path): (r: Option<string>)
    ensures r.Some? <==> p != [] && p[|p| - 1] != ".."
  {
    if p == [] || p[|p| - 1] == ".." then None else Some(p[|p| - 1])
  }

  /** Position of the last '.' in a component. */
  function LastDot(name: string): Option<nat>
  {
    if name == [] then None
    else if name[|name| - 1] == '.' then Some(|name| - 1)
    else LastDot(name[..|name| - 1])
  }

  lemma {:induction false} LastDotIsLast(name: string)
    ensures LastDot(name).Some? ==>
      LastDot(name).value < |name| && name[LastDot(name).value] == '.' && '.' !in name[LastDot(name).value + 1..]
    ensures LastDot(name).None? ==> '.' !in name
  {
    if name != [] && name[|name| - 1] != '.' {
      var init := name[..|name| - 1];
      LastDotIsLast(init);
      assert name == init + [name[|name| - 1]];
      match LastDot(init)
      case Some(i) =>
        assert name[i + 1..] == init[i + 1..] + [name[|name| - 1]];
      case None =>
    }
  }

  /**
   * `rsplit_file_at_dot`: the stem and the extension of a file name. A name whose
   * only dot is its first character, and "..", have no extension.
   */
  function SplitExtension(name: string): (string, Option<string>)
  {
    if name == ".." then (name, None)
    else match LastDot(name)
      case None => (name, None)
      case Some(i) =>
        if i == 0 || i >= |name| then (name, None)
        else (name[..i], Some(name[i + 1..]))
  }

  /**
   * The stem and the extension put back together give the name; the extension holds
   * no dot. A name has an extension exactly when it is not ".." and holds a dot after
   * its first character.
   */
  lemma SplitExtensionParts(name: string)
    ensures SplitExtension(name).1.None? ==> SplitExtension(name).0 == name
    ensures SplitExtension(name).1.Some? ==>
      var (stem, ext) := SplitExtension(name);
      stem != [] && name == stem + "." + ext.value && '.' !in ext.value
    ensures SplitExtension(name).1.Some? <==>
      name != ".." && exists i :: 0 < i < |name| && name[i] == '.'
  {
    LastDotIsLast(name);
    if SplitExtension(name).1.Some? {
      var i := LastDot(name).value;
      assert name == name[..i] + "." + name[i + 1..];
    } else if name != ".." && LastDot(name).Some? {
      assert LastDot(name).value == 0;
      forall i | 0 < i < |name| ensures name[i] != '.' {
        assert name[i] == name[1..][i - 1];
      }
    }
  }

  /** The last dot of `a + "." + b` is the one between them when `b` holds none. */
  lemma {:induction false} LastDotAppend(a: string, b: string)
    requires '.' !in b
    ensures LastDot(a + "." + b) == Some(|a|)
  {
    if b != [] {
      var init := b[..|b| - 1];
      assert (a + "." + b)[..|a + "." + b| - 1] == a + "." + init;
      assert b[|b| - 1] in b;
      LastDotAppend(a, init);
    }
  }

  /** A non-empty stem and a dot-free extension split back apart as they were joined. */
  lemma SplitExtensionOf(stem: string, ext: string)
    requires stem != [] && '.' !in ext && stem + "." + ext != ".."
    ensures SplitExtension(stem + "." + ext) == (stem, Some(ext))
  {
    var name := stem + "." + ext;
    LastDotAppend(stem, ext);
    assert name[..|stem|] == stem;
    assert name[|stem| + 1..] == ext;
  }

  /** `Path::extension`. */
  function Extension(p: Path): Option<string>
  {
    match FileName(p)
    case None => None
    case Some(name) => SplitExtension(name).1
  }

  /** `Path::ends_with`: `child` is a suffix of `p`, compared component by component. */
  predicate EndsWith(p: Path, child: Path)
  {
    |child| <= |p| && p[|p| - |child|..] == child
  }

  /**
   * `Path::with_extension`: the file name's extension replaced (or added). Only the
   * last component changes; given a dot-free extension, a non-empty file name keeps
   * its stem and takes that extension.
   */
  function WithExtension(p: Path, ext: string): (r: Path)
    ensures FileName(p).None? ==> r == p
    ensures FileName(p).Some? ==> |r| == |p| && r[..|p| - 1] == p[..|p| - 1]
    ensures FileName(p).Some? && FileName(p).value != "" && ext != "" && '.' !in ext ==>
      FileName(r).Some? &&
      SplitExtension(FileName(r).value) == (SplitExtension(FileName(p).value).0, Some(ext))
  {
    match FileName(p)
    case None => p
    case Some(name) =>
      var stem := SplitExtension(name).0;
      var r := p[..|p| - 1] + [stem + (if ext == "" then "" else "." + ext)];
      if name != "" && ext != "" && '.' !in ext then
        var named := stem + "." + ext;
        SplitExtensionParts(name);
        assert named[|named| - 1] == ext[|ext| - 1] && ext[|ext| - 1] in ext;
        assert named != "..";
        assert r[|r| - 1] == named;
        SplitExtensionOf(stem, ext);
        r
      else r
  }
}
