/**
 * The package fingerprint recorded for incremental compilation and the
 * per-file change detection between two fingerprints.
 */
module Manifest {
  import opened Wrappers
  import opened Paths

  /** An interned string (`move_symbol_pool::Symbol`). */
  type Symbol = string

  /** The hash of one file's contents and its path relative to the package root. */
  datatype FileDigest = FileDigest(hash: string, path: Path)

  /**
   * `PackageDigest`: the aggregate package hash and an ordered map from each
   * file's path to that file's hash. `PackageDigest::new` is the constructor.
   */
  datatype PackageDigest = PackageDigest(packageHash: Symbol, fileDigests: map<Path, string>)

  /** `BTreeMap::get` on the file hashes. */
  function Lookup(d: PackageDigest, path: Path): Option<string>
  {
    if path in d.fileDigests then Some(d.fileDigests[path]) else None
  }

  /**
   * `file_changed`: a path the digest does not know counts as changed; a known
   * path is changed exactly when its recorded hash differs from `newHash`.
   */
  function FileChanged(d: PackageDigest, path: Path, newHash: string): (r: bool)
    ensures path !in d.fileDigests ==> r
    ensures path in d.fileDigests ==> (r <==> d.fileDigests[path] != newHash)
  {
    match Lookup(d, path)
    case Some(oldHash) => oldHash != newHash
    case None => true
  }

  /**
   * The first loop of `get_changed_files`: the paths of `keys` (the keys of the
   * new map `current`) that `base` reports as changed, in the order of `keys`.
   */
  function AddedOrModified(base: PackageDigest, current: map<Path, string>, keys: seq<Path>): seq<Path>
  {
    if keys == [] then []
    else
      var p := keys[|keys| - 1];
      AddedOrModified(base, current, keys[..|keys| - 1])
        + (if p in current && FileChanged(base, p, current[p]) then [p] else [])
  }

  /**
   * The second loop of `get_changed_files`: the paths of `baseKeys` that the new
   * map `current` no longer holds, in the order of `baseKeys`.
   */
  function Removed(baseKeys: seq<Path>, current: map<Path, string>): seq<Path>
  {
    if baseKeys == [] then []
    else
      var p := baseKeys[|baseKeys| - 1];
      Removed(baseKeys[..|baseKeys| - 1], current) + (if p !in current then [p] else [])
  }

  lemma {:induction false} AddedOrModifiedMembers(base: PackageDigest, current: map<Path, string>, keys: seq<Path>, p: Path)
    ensures p in AddedOrModified(base, current, keys) <==> p in keys && p in current && FileChanged(base, p, current[p])
  {
    if keys != [] {
      var init := keys[..|keys| - 1];
      AddedOrModifiedMembers(base, current, init, p);
      assert keys == init + [keys[|keys| - 1]];
    }
  }

  lemma {:induction false} RemovedMembers(baseKeys: seq<Path>, current: map<Path, string>, p: Path)
    ensures p in Removed(baseKeys, current) <==> p in baseKeys && p !in current
  {
    if baseKeys != [] {
      var init := baseKeys[..|baseKeys| - 1];
      RemovedMembers(init, current, p);
      assert baseKeys == init + [baseKeys[|baseKeys| - 1]];
    }
  }

  lemma {:induction false} AddedOrModifiedAscending(base: PackageDigest, current: map<Path, string>, keys: seq<Path>)
    requires Ascending(keys)
    ensures Ascending(AddedOrModified(base, current, keys))
  {
    if keys != [] {
      var init := keys[..|keys| - 1];
      var last := keys[|keys| - 1];
      AddedOrModifiedAscending(base, current, init);
      var r := AddedOrModified(base, current, init);
      forall q | q in r ensures PathLess(q, last) {
        AddedOrModifiedMembers(base, current, init, q);
      }
    }
  }

  lemma {:induction false} RemovedAscending(baseKeys: seq<Path>, current: map<Path, string>)
    requires Ascending(baseKeys)
    ensures Ascending(Removed(baseKeys, current))
  {
    if baseKeys != [] {
      var init := baseKeys[..|baseKeys| - 1];
      var last := baseKeys[|baseKeys| - 1];
      RemovedAscending(init, current);
      var r := Removed(init, current);
      forall q | q in r ensures PathLess(q, last) {
        RemovedMembers(init, current, q);
      }
    }
  }

  /**
   * What `base.get_changed_files(other)` returns: the added and modified paths in
   * ascending order of `other`'s keys, then the removed paths in ascending order
   * of `base`'s keys.
   */
  function ChangedFiles(base: PackageDigest, other: PackageDigest): seq<Path>
  {
    AddedOrModified(base, other.fileDigests, SortedKeys(other.fileDigests.Keys))
      + Removed(SortedKeys(base.fileDigests.Keys), other.fileDigests)
  }

  /** `get_changed_files`, with its two loops over the ordered maps. */
  method GetChangedFiles(base: PackageDigest, other: PackageDigest) returns (changed: seq<Path>)
    ensures changed == ChangedFiles(base, other)
  {
    var newKeys := SortedKeys(other.fileDigests.Keys);
    changed := [];
    for i := 0 to |newKeys|
      invariant changed == AddedOrModified(base, other.fileDigests, newKeys[..i])
    {
      var path := newKeys[i];
      assert path in newKeys;
      AddedStep(base, other.fileDigests, newKeys, i);
      if FileChanged(base, path, other.fileDigests[path]) {
        changed := changed + [path];
      }
    }
    var baseKeys := SortedKeys(base.fileDigests.Keys);
    ghost var addedOrModified := changed;
    for i := 0 to |baseKeys|
      invariant changed == addedOrModified + Removed(baseKeys[..i], other.fileDigests)
    {
      var path := baseKeys[i];
      RemovedStep(addedOrModified, baseKeys, other.fileDigests, i);
      if path !in other.fileDigests {
        changed := changed + [path];
      }
    }
    assert newKeys[..|newKeys|] == newKeys;
    assert baseKeys[..|baseKeys|] == baseKeys;
  }

  lemma AddedStep(base: PackageDigest, current: map<Path, string>, keys: seq<Path>, i: nat)
    requires i < |keys| && keys[i] in current
    ensures AddedOrModified(base, current, keys[..i + 1]) ==
      AddedOrModified(base, current, keys[..i]) + (if FileChanged(base, keys[i], current[keys[i]]) then [keys[i]] else [])
  {
    assert keys[..i + 1][..i] == keys[..i];
  }

  lemma RemovedStep(lead: seq<Path>, baseKeys: seq<Path>, current: map<Path, string>, i: nat)
    requires i < |baseKeys|
    ensures lead + Removed(baseKeys[..i + 1], current) ==
      lead + Removed(baseKeys[..i], current) + (if baseKeys[i] !in current then [baseKeys[i]] else [])
  {
    assert baseKeys[..i + 1][..i] == baseKeys[..i];
  }

  lemma {:induction false} NothingAddedAgainstSelf(d: PackageDigest, keys: seq<Path>)
    ensures AddedOrModified(d, d.fileDigests, keys) == []
  {
    if keys != [] {
      NothingAddedAgainstSelf(d, keys[..|keys| - 1]);
    }
  }

  lemma {:induction false} NothingRemovedFromSelf(keys: seq<Path>, current: map<Path, string>)
    requires forall k :: k in keys ==> k in current
    ensures Removed(keys, current) == []
  {
    if keys != [] {
      assert keys[|keys| - 1] in keys;
      NothingRemovedFromSelf(keys[..|keys| - 1], current);
    }
  }

  /** A digest compared with itself reports no changed file. */
  lemma ChangedFilesReflexive(d: PackageDigest)
    ensures ChangedFiles(d, d) == []
  {
    NothingAddedAgainstSelf(d, SortedKeys(d.fileDigests.Keys));
    NothingRemovedFromSelf(SortedKeys(d.fileDigests.Keys), d.fileDigests);
  }

  /**
   * Completeness and soundness: a path is reported exactly when it is new, has
   * a different hash, or has disappeared.
   */
  lemma ChangedFilesExact(base: PackageDigest, other: PackageDigest, p: Path)
    ensures p in ChangedFiles(base, other) <==>
      || (p in other.fileDigests && p !in base.fileDigests)
      || (p in other.fileDigests && p in base.fileDigests && base.fileDigests[p] != other.fileDigests[p])
      || (p in base.fileDigests && p !in other.fileDigests)
  {
    if p in other.fileDigests {
      SortedKeysComplete(other.fileDigests.Keys, p);
    }
    if p in base.fileDigests {
      SortedKeysComplete(base.fileDigests.Keys, p);
    }
    AddedOrModifiedMembers(base, other.fileDigests, SortedKeys(other.fileDigests.Keys), p);
    RemovedMembers(SortedKeys(base.fileDigests.Keys), other.fileDigests, p);
  }

  lemma GroupsInOrder(a: seq<Path>, b: seq<Path>, current: map<Path, string>)
    requires Ascending(a) && Ascending(b)
    requires forall p :: p in a ==> p in current
    requires forall p :: p in b ==> p !in current
    ensures var r := a + b;
      forall i, j :: 0 <= i < j < |r| ==>
        && (r[i] in current || r[j] !in current)
        && ((r[i] in current) == (r[j] in current) ==> PathLess(r[i], r[j]))
  {
    var r := a + b;
    forall i, j | 0 <= i < j < |r|
      ensures r[i] in current || r[j] !in current
      ensures (r[i] in current) == (r[j] in current) ==> PathLess(r[i], r[j])
    {
      if j < |a| {
        assert r[i] == a[i] && r[j] == a[j];
      } else if i >= |a| {
        assert r[i] == b[i - |a|] && r[j] == b[j - |a|];
      } else {
        assert r[i] == a[i] && a[i] in a;
        assert r[j] == b[j - |a|] && b[j - |a|] in b;
      }
    }
  }

  /**
   * Order: every path still present in `other` comes before every removed path;
   * within each group paths are strictly ascending, so none is reported twice.
   */
  lemma ChangedFilesOrder(base: PackageDigest, other: PackageDigest)
    ensures var r := ChangedFiles(base, other);
      forall i, j :: 0 <= i < j < |r| ==>
        && (r[i] in other.fileDigests || r[j] !in other.fileDigests)
        && ((r[i] in other.fileDigests) == (r[j] in other.fileDigests) ==> PathLess(r[i], r[j]))
  {
    var newKeys := SortedKeys(other.fileDigests.Keys);
    var baseKeys := SortedKeys(base.fileDigests.Keys);
    var a := AddedOrModified(base, other.fileDigests, newKeys);
    var b := Removed(baseKeys, other.fileDigests);
    AddedOrModifiedAscending(base, other.fileDigests, newKeys);
    RemovedAscending(baseKeys, other.fileDigests);
    forall p | p in a ensures p in other.fileDigests {
      AddedOrModifiedMembers(base, other.fileDigests, newKeys, p);
    }
    forall p | p in b ensures p !in other.fileDigests {
      RemovedMembers(baseKeys, other.fileDigests, p);
    }
    GroupsInOrder(a, b, other.fileDigests);
  }

  /** No path is reported twice. */
  lemma ChangedFilesDistinct(base: PackageDigest, other: PackageDigest)
    ensures var r := ChangedFiles(base, other);
      forall i, j :: 0 <= i < j < |r| ==> r[i] != r[j]
  {
    ChangedFilesOrder(base, other);
    var r := ChangedFiles(base, other);
    forall i, j | 0 <= i < j < |r| ensures r[i] != r[j] {
      PathLessIrreflexive(r[i]);
    }
  }

  /**
   * `From<&str> for PackageDigest`: a digest known only by its aggregate hash. It
   * displays as that hash and records no file.
   */
  function FromHash(hash: string): (r: PackageDigest)
    ensures Display(r) == hash
    ensures r.fileDigests == map[]
  {
    PackageDigest(hash, map[])
  }

  /** `Display for PackageDigest`: the aggregate hash, nothing else. */
  function Display(d: PackageDigest): (r: string)
    ensures r == d.packageHash
  {
    d.packageHash
  }

  lemma {:induction false} AllAddedAgainstEmpty(base: PackageDigest, current: map<Path, string>, keys: seq<Path>)
    requires base.fileDigests == map[]
    requires forall k :: k in keys ==> k in current
    ensures AddedOrModified(base, current, keys) == keys
  {
    if keys != [] {
      assert keys[|keys| - 1] in keys;
      AllAddedAgainstEmpty(base, current, keys[..|keys| - 1]);
      assert keys == keys[..|keys| - 1] + [keys[|keys| - 1]];
    }
  }

  /**
   * Against a digest that records no per-file hash (one made from a hash
   * string), every file of the new digest is reported, in ascending order.
   */
  lemma ChangedFilesFromHash(hash: string, d: PackageDigest)
    ensures ChangedFiles(FromHash(hash), d) == SortedKeys(d.fileDigests.Keys)
  {
    var keys := SortedKeys(d.fileDigests.Keys);
    AllAddedAgainstEmpty(FromHash(hash), d.fileDigests, keys);
    assert SortedKeys(FromHash(hash).fileDigests.Keys) == [];
  }
}
