/**
 * `compute_digest`: the package fingerprint built from the package's Move
 * sources and its manifest. Reading files and walking directories are
 * replaced by a pre-enumerated description of what they yield, and SHA-256
 * by a function parameter.
 */
module Digest {
  import opened Wrappers
  import opened Primitives
  import opened Paths
  import opened Manifest
  import opened Seqs

  /** `MOVE_EXTENSION`. */
  const MoveExtension: string := "move"

  /** The manifest's file name, `SourcePackageLayout::Manifest.path()`. */
  const ManifestFileName: string := "Move.toml"

  /** SHA-256 as a function from a byte string to its raw digest; the model fixes nothing about it. */
  type Sha256 = Bytes -> Bytes

  /** One item yielded by `WalkDir::new(path).follow_links(true)`. */
  datatype WalkEntry =
    | Unreadable                                                // an `Err` item, dropped by `filter_map(|e| e.ok())`
    | Entry(path: Path, isFile: bool, contents: Option<Bytes>)  // `contents == None`: `fs::read` fails

  /** One element of the `paths` argument, with what the file system holds for it. */
  datatype Root =
    | FileRoot(path: Path, contents: Option<Bytes>)  // `path.is_file()` holds
    | DirRoot(entries: seq<WalkEntry>)               // otherwise: the walk's items in its order

  /** A file that `maybe_hash_file` is called on. */
  datatype Candidate = Candidate(path: Path, contents: Option<Bytes>)

  /** The error `fs::read` propagates through `?`. */
  datatype DigestError = ReadFailed(path: Path)

  predicate IsHexDigit(c: char)
  {
    '0' <= c <= '9' || 'A' <= c <= 'F'
  }

  predicate IsUpperHex(s: string)
  {
    forall i :: 0 <= i < |s| ==> IsHexDigit(s[i])
  }

  function HexDigit(n: nat): (c: char)
    requires n < 16
    ensures IsHexDigit(c)
  {
    if n < 10 then ('0' as int + n) as char else ('A' as int + n - 10) as char
  }

  /** Distinct digit values are written as distinct digits. */
  lemma HexDigitInjective(m: nat, n: nat)
    requires m < 16 && n < 16 && HexDigit(m) == HexDigit(n)
    ensures m == n
  {
  }

  /**
   * `format!("{:X}", d)` on a digest: two upper-case digits per byte, high nibble
   * first, each digit the value of its nibble.
   */
  function Hex(d: Bytes): (r: string)
    ensures |r| == 2 * |d|
    ensures IsUpperHex(r)
    ensures forall i :: 0 <= i < |d| ==>
      r[2 * i] == HexDigit(d[i] as int / 16) && r[2 * i + 1] == HexDigit(d[i] as int % 16)
  {
    if d == [] then ""
    else
      var rest := Hex(d[1..]);
      var r := [HexDigit(d[0] as int / 16), HexDigit(d[0] as int % 16)] + rest;
      assert forall i :: 2 <= i < |r| ==> r[i] == rest[i - 2];
      assert forall i :: 1 <= i < |d| ==> d[i] == d[1..][i - 1];
      r
  }

  /** A byte is given back by its two nibbles. */
  lemma NibbleSplit(x: byte, y: byte)
    requires x as int / 16 == y as int / 16 && x as int % 16 == y as int % 16
    ensures x == y
  {
  }

  /** Different digests print differently: the hex text determines the digest. */
  lemma {:induction false} HexInjective(a: Bytes, b: Bytes)
    requires Hex(a) == Hex(b)
    ensures a == b
  {
    if a != [] {
      assert |b| == |a|;
      HexDigitInjective(a[0] as int / 16, b[0] as int / 16);
      HexDigitInjective(a[0] as int % 16, b[0] as int % 16);
      NibbleSplit(a[0], b[0]);
      assert Hex(a[1..]) == Hex(a)[2..] && Hex(b[1..]) == Hex(b)[2..];
      HexInjective(a[1..], b[1..]);
      assert a == [a[0]] + a[1..] && b == [b[0]] + b[1..];
    }
  }

  /**
   * `str::as_bytes`, one byte per character. Exact on the strings it is applied
   * to here, hexadecimal digits, whose UTF-8 encoding is their ASCII code.
   */
  function AsciiBytes(s: string): (r: Bytes)
    ensures |r| == |s|
    ensures forall i :: 0 <= i < |s| && IsHexDigit(s[i]) ==> r[i] as int == s[i] as int
  {
    if s == [] then []
    else
      var r := [(s[0] as int % 0x100) as byte] + AsciiBytes(s[1..]);
      assert forall i :: 1 <= i < |s| ==> r[i] == AsciiBytes(s[1..])[i - 1] && s[i] == s[1..][i - 1];
      r
  }

  /** The hash `hash_file` records for a file's contents. */
  function FileHash(contents: Bytes, sha: Sha256): string
  {
    Hex(sha(contents))
  }

  /** `maybe_hash_file`'s test: a file with extension `move`, or a path ending in `Move.toml`. */
  predicate IsDigested(p: Path)
  {
    Extension(p) == Some(MoveExtension) || EndsWith(p, [ManifestFileName])
  }

  /**
   * The files digested, by name: the manifest `Move.toml`, and every file named by a
   * non-empty stem followed by `.move`.
   */
  lemma IsDigestedNames(p: Path)
    ensures IsDigested(p) <==>
      (p != [] &&
       (p[|p| - 1] == ManifestFileName ||
        exists stem :: stem != [] && p[|p| - 1] == stem + "." + MoveExtension))
  {
    if p != [] {
      var name := p[|p| - 1];
      if Extension(p) == Some(MoveExtension) {
        SplitExtensionParts(name);
        var stem := SplitExtension(name).0;
        assert name == stem + "." + MoveExtension;
      }
      if exists stem :: stem != [] && name == stem + "." + MoveExtension {
        var stem :| stem != [] && name == stem + "." + MoveExtension;
        assert name != ".." by { assert |name| > 2; }
        SplitExtensionOf(stem, MoveExtension);
      }
      assert EndsWith(p, [ManifestFileName]) <==> name == ManifestFileName by {
        assert p[|p| - 1..] == [name];
      }
    }
  }

  // ---------------------------------------------------------------------------
  // Which files are visited, in which order

  /** What one walk item contributes: a file item is visited, errors and directories are skipped. */
  function EntryCandidate(e: WalkEntry): seq<Candidate>
  {
    if e.Entry? && e.isFile then [Candidate(e.path, e.contents)] else []
  }

  /** The files of one walk, in walk order. */
  function EntryCandidates(es: seq<WalkEntry>): seq<Candidate>
  {
    FlatMap(EntryCandidate, es)
  }

  /** A root given as a file is visited itself; a directory root through its walk. */
  function RootCandidates(r: Root): seq<Candidate>
  {
    match r
    case FileRoot(p, contents) => [Candidate(p, contents)]
    case DirRoot(es) => EntryCandidates(es)
  }

  /** Every file `maybe_hash_file` is called on, in call order. */
  function Candidates(roots: seq<Root>): seq<Candidate>
  {
    FlatMap(RootCandidates, roots)
  }

  /** A walk contributes exactly its file items: unreadable items and directories are skipped. */
  lemma EntryCandidatesMembers(es: seq<WalkEntry>, c: Candidate)
    ensures c in EntryCandidates(es) <==> Entry(c.path, true, c.contents) in es
  {
    FlatMapMembers(EntryCandidate, es, c);
    if Entry(c.path, true, c.contents) in es {
      assert c in EntryCandidate(Entry(c.path, true, c.contents));
    }
  }

  /** The files visited are the roots given as files and the file items of the walks. */
  lemma CandidatesMembers(roots: seq<Root>, c: Candidate)
    ensures c in Candidates(roots) <==>
      FileRoot(c.path, c.contents) in roots ||
      exists es :: DirRoot(es) in roots && Entry(c.path, true, c.contents) in es
  {
    FlatMapMembers(RootCandidates, roots, c);
    forall r | r in roots && c in RootCandidates(r)
      ensures r == FileRoot(c.path, c.contents) || (r.DirRoot? && Entry(c.path, true, c.contents) in r.entries)
    {
      if r.DirRoot? {
        EntryCandidatesMembers(r.entries, c);
      }
    }
    if FileRoot(c.path, c.contents) in roots {
      assert c in RootCandidates(FileRoot(c.path, c.contents));
    }
    if exists es :: DirRoot(es) in roots && Entry(c.path, true, c.contents) in es {
      var es :| DirRoot(es) in roots && Entry(c.path, true, c.contents) in es;
      EntryCandidatesMembers(es, c);
      assert c in RootCandidates(DirRoot(es));
    }
  }

  // ---------------------------------------------------------------------------
  // Hashing the visited files

  type Pairs = seq<(Path, string)>

  /** One call of `maybe_hash_file` on the `sorted_hashes` built so far. */
  function Step(acc: Result<Pairs, DigestError>, c: Candidate, sha: Sha256): Result<Pairs, DigestError>
  {
    match acc
    case Err(e) => Err(e)
    case Ok(ps) =>
      if !IsDigested(c.path) then Ok(ps)
      else if c.contents.None? then Err(ReadFailed(c.path))
      else Ok(ps + [(c.path, FileHash(c.contents.value, sha))])
  }

  function HashesFrom(acc: Result<Pairs, DigestError>, cs: seq<Candidate>, sha: Sha256): Result<Pairs, DigestError>
  {
    if cs == [] then acc else Step(HashesFrom(acc, cs[..|cs| - 1], sha), cs[|cs| - 1], sha)
  }

  /** `sorted_hashes` before sorting, or the first read error. */
  function Hashes(cs: seq<Candidate>, sha: Sha256): Result<Pairs, DigestError>
  {
    HashesFrom(Ok([]), cs, sha)
  }

  lemma {:induction false} HashesFromAppend(acc: Result<Pairs, DigestError>, a: seq<Candidate>, b: seq<Candidate>, sha: Sha256)
    ensures HashesFrom(acc, a + b, sha) == HashesFrom(HashesFrom(acc, a, sha), b, sha)
  {
    if b != [] {
      HashesFromAppend(acc, a, b[..|b| - 1], sha);
      assert (a + b)[..|a + b| - 1] == a + b[..|b| - 1];
    } else {
      assert a + b == a;
    }
  }

  lemma {:induction false} HashesFromErr(e: DigestError, cs: seq<Candidate>, sha: Sha256)
    ensures HashesFrom(Err(e), cs, sha) == Err(e)
  {
    if cs != [] {
      HashesFromErr(e, cs[..|cs| - 1], sha);
    }
  }

  /** Once a read has failed, later files do not change the result. */
  lemma HashesErrSticky(a: seq<Candidate>, b: seq<Candidate>, e: DigestError, sha: Sha256)
    requires Hashes(a, sha) == Err(e)
    ensures Hashes(a + b, sha) == Err(e)
  {
    HashesFromAppend(Ok([]), a, b, sha);
    HashesFromErr(e, b, sha);
  }

  /** The pair a visited file adds to `sorted_hashes`: none unless it is selected and readable. */
  function Contribution(c: Candidate, sha: Sha256): Pairs
  {
    if IsDigested(c.path) && c.contents.Some? then [(c.path, FileHash(c.contents.value, sha))] else []
  }

  function Contributor(sha: Sha256): Candidate -> Pairs
  {
    c => Contribution(c, sha)
  }

  /** The selected files' (path, hash) pairs in visiting order. */
  function Selected(cs: seq<Candidate>, sha: Sha256): Pairs
  {
    FlatMap(Contributor(sha), cs)
  }

  /** No selected file fails to read. */
  predicate NoReadFailure(cs: seq<Candidate>)
  {
    forall c :: c in cs ==> !(IsDigested(c.path) && c.contents.None?)
  }

  /**
   * The hashing loop fails exactly when some selected file cannot be read, with
   * that file's error; otherwise it yields the selected files' pairs.
   */
  lemma {:induction false} HashesSelected(cs: seq<Candidate>, sha: Sha256)
    ensures Hashes(cs, sha).Ok? <==> NoReadFailure(cs)
    ensures NoReadFailure(cs) ==> Hashes(cs, sha) == Ok(Selected(cs, sha))
    ensures Hashes(cs, sha).Err? ==>
      exists c :: c in cs && IsDigested(c.path) && c.contents.None? && Hashes(cs, sha).error == ReadFailed(c.path)
  {
    if cs != [] {
      var init, c := cs[..|cs| - 1], cs[|cs| - 1];
      HashesSelected(init, sha);
      forall d ensures d in cs <==> d in init || d == c {
        InInitOrLast(cs, d);
      }
      assert Hashes(cs, sha) == Step(Hashes(init, sha), c, sha);
      assert Selected(cs, sha) == Selected(init, sha) + Contribution(c, sha);
      if Contribution(c, sha) == [] {
        assert Selected(init, sha) + [] == Selected(init, sha);
      }
    }
  }

  /** A pair is selected exactly when some visited file contributes it. */
  lemma SelectedMembers(cs: seq<Candidate>, sha: Sha256, x: (Path, string))
    ensures x in Selected(cs, sha) <==> exists c :: c in cs && x in Contribution(c, sha)
  {
    FlatMapMembers(Contributor(sha), cs, x);
    assert forall c :: Contributor(sha)(c) == Contribution(c, sha);
  }

  /** Every visit of one path sees the same file contents: a snapshot of one file system. */
  predicate Consistent(cs: seq<Candidate>)
  {
    forall c, d :: c in cs && d in cs && c.path == d.path ==> c == d
  }

  /** Two pairs with the same path carry the same hash. */
  predicate PathsDetermine(ps: Pairs)
  {
    forall x, y :: x in ps && y in ps && x.0 == y.0 ==> x == y
  }

  lemma SelectedDetermined(cs: seq<Candidate>, sha: Sha256)
    requires Consistent(cs)
    ensures PathsDetermine(Selected(cs, sha))
  {
    var ps := Selected(cs, sha);
    forall x, y | x in ps && y in ps && x.0 == y.0 ensures x == y {
      SelectedMembers(cs, sha, x);
      SelectedMembers(cs, sha, y);
    }
  }

  // ---------------------------------------------------------------------------
  // The per-file map, the sort and the aggregate hash

  /** `file_digests` after inserting every pair in order (a later insert of a path replaces an earlier one). */
  function MapOf(ps: Pairs): map<Path, string>
  {
    if ps == [] then map[] else MapOf(ps[..|ps| - 1])[ps[|ps| - 1].0 := ps[|ps| - 1].1]
  }

  lemma {:induction false} MapOfEntries(ps: Pairs, p: Path)
    ensures p in MapOf(ps) <==> exists i :: 0 <= i < |ps| && ps[i].0 == p
    ensures p in MapOf(ps) ==> (p, MapOf(ps)[p]) in ps
  {
    if ps != [] {
      var init := ps[..|ps| - 1];
      MapOfEntries(init, p);
      assert forall i :: 0 <= i < |init| ==> init[i] == ps[i];
      if p in MapOf(init) && p != ps[|ps| - 1].0 {
        assert (p, MapOf(init)[p]) in init;
      }
    }
  }

  lemma MapOfDetermined(ps: Pairs, qs: Pairs)
    requires multiset(ps) == multiset(qs)
    requires PathsDetermine(ps)
    ensures MapOf(ps) == MapOf(qs)
  {
    var m, n := MapOf(ps), MapOf(qs);
    forall p ensures p in m <==> p in n {
      MapOfEntries(ps, p);
      MapOfEntries(qs, p);
      if p in m {
        assert (p, m[p]) in multiset(qs);
      }
      if p in n {
        assert (p, n[p]) in multiset(ps);
      }
    }
    forall p | p in m ensures m[p] == n[p] {
      MapOfEntries(ps, p);
      MapOfEntries(qs, p);
      assert (p, n[p]) in multiset(ps);
    }
  }

  /** Ascending by path; equal paths may repeat (as `sort_by` on the path leaves them). */
  predicate SortedByPath(s: Pairs)
  {
    forall i, j :: 0 <= i < j < |s| ==> !PathLess(s[j].0, s[i].0)
  }

  /** Insertion after every element whose path is not greater: the stable insertion step. */
  function InsertByPath(x: (Path, string), s: Pairs): (r: Pairs)
    ensures multiset(r) == multiset(s) + multiset{x}
  {
    if s == [] then [x]
    else if PathLess(x.0, s[0].0) then [x] + s
    else
      assert s == [s[0]] + s[1..];
      [s[0]] + InsertByPath(x, s[1..])
  }

  /** `sorted_hashes.sort_by(|a, b| a.0.cmp(&b.0))`, as a stable insertion sort. */
  function SortByPath(ps: Pairs): (r: Pairs)
    ensures multiset(r) == multiset(ps)
  {
    if ps == [] then []
    else
      assert ps == ps[..|ps| - 1] + [ps[|ps| - 1]];
      InsertByPath(ps[|ps| - 1], SortByPath(ps[..|ps| - 1]))
  }

  lemma {:induction false} InsertByPathSorted(x: (Path, string), s: Pairs)
    requires SortedByPath(s)
    ensures SortedByPath(InsertByPath(x, s))
  {
    PathOrder();
    if s != [] && !PathLess(x.0, s[0].0) {
      var rest := InsertByPath(x, s[1..]);
      InsertByPathSorted(x, s[1..]);
      forall k | 0 <= k < |rest| ensures !PathLess(rest[k].0, s[0].0) {
        assert rest[k] in multiset(rest);
        if rest[k] != x {
          assert rest[k] in s[1..];
        }
      }
    }
  }

  lemma {:induction false} SortByPathSorted(ps: Pairs)
    ensures SortedByPath(SortByPath(ps))
  {
    if ps != [] {
      SortByPathSorted(ps[..|ps| - 1]);
      InsertByPathSorted(ps[|ps| - 1], SortByPath(ps[..|ps| - 1]));
    }
  }

  /** Two path-sorted arrangements of one multiset start with the same pair. */
  lemma SortedSameHead(a: Pairs, b: Pairs)
    requires SortedByPath(a) && SortedByPath(b)
    requires a != [] && multiset(a) == multiset(b)
    requires PathsDetermine(a)
    ensures b != [] && a[0] == b[0]
  {
    assert a[0] in multiset(b);
    var k :| 0 <= k < |b| && b[k] == a[0];
    assert b[0] in multiset(a);
    var m :| 0 <= m < |a| && a[m] == b[0];
    PathLessTotal(a[0].0, b[0].0);
    assert k > 0 ==> !PathLess(b[k].0, b[0].0);
    assert m > 0 ==> !PathLess(a[m].0, a[0].0);
  }

  lemma SortedTail(a: Pairs)
    requires a != [] && SortedByPath(a)
    ensures SortedByPath(a[1..])
    ensures multiset(a[1..]) == multiset(a) - multiset{a[0]}
  {
    assert a == [a[0]] + a[1..];
  }

  lemma DeterminedTail(a: Pairs)
    requires a != [] && PathsDetermine(a)
    ensures PathsDetermine(a[1..])
  {
    assert forall x :: x in a[1..] ==> x in a;
  }

  /** A path-sorted arrangement of a multiset of pairs is unique when paths determine hashes. */
  lemma {:induction false} SortedUnique(a: Pairs, b: Pairs)
    requires SortedByPath(a) && SortedByPath(b)
    requires multiset(a) == multiset(b)
    requires PathsDetermine(a)
    ensures a == b
    decreases |a|
  {
    if a == [] {
      assert |b| == |multiset(b)| == 0;
    } else {
      SortedSameHead(a, b);
      SortedTail(a);
      SortedTail(b);
      DeterminedTail(a);
      SortedUnique(a[1..], b[1..]);
      assert a == [a[0]] + a[1..];
      assert b == [b[0]] + b[1..];
    }
  }

  /** The bytes fed to the aggregate hasher: each hash's text, in order, without separators. */
  function HashBytes(s: Pairs): Bytes
  {
    if s == [] then [] else HashBytes(s[..|s| - 1]) + AsciiBytes(s[|s| - 1].1)
  }

  /** `package_hash`: the hex SHA-256 of the concatenated file hashes of `sorted`. */
  function PackageHash(sorted: Pairs, sha: Sha256): string
  {
    Hex(sha(HashBytes(sorted)))
  }

  /**
   * The result `compute_digest` returns. On success the package hash is upper-case
   * hexadecimal text.
   */
  function DigestOf(roots: seq<Root>, sha: Sha256): (r: Result<PackageDigest, DigestError>)
    ensures r.Ok? ==> IsUpperHex(r.value.packageHash)
  {
    match Hashes(Candidates(roots), sha)
    case Err(e) => Err(e)
    case Ok(ps) => Ok(PackageDigest(PackageHash(SortByPath(ps), sha), MapOf(ps)))
  }

  /** The aggregate hash depends on the hashes in order only, not on the paths they came from. */
  lemma {:induction false} PackageHashIgnoresPaths(s: Pairs, t: Pairs, sha: Sha256)
    requires |s| == |t|
    requires forall i :: 0 <= i < |s| ==> s[i].1 == t[i].1
    ensures HashBytes(s) == HashBytes(t)
    ensures PackageHash(s, sha) == PackageHash(t, sha)
  {
    if s != [] {
      PackageHashIgnoresPaths(s[..|s| - 1], t[..|t| - 1], sha);
    }
  }

  // ---------------------------------------------------------------------------
  // What the digest promises

  /** The digest fails exactly when a selected file cannot be read, and then reports such a file. */
  lemma DigestFails(roots: seq<Root>, sha: Sha256)
    ensures DigestOf(roots, sha).Err? <==> !NoReadFailure(Candidates(roots))
    ensures DigestOf(roots, sha).Err? ==>
      exists c :: c in Candidates(roots) && IsDigested(c.path) && c.contents.None? && DigestOf(roots, sha).error == ReadFailed(c.path)
  {
    HashesSelected(Candidates(roots), sha);
  }

  /** `file_digests` has an entry for exactly the selected files: Move sources and manifests. */
  lemma DigestFiles(roots: seq<Root>, sha: Sha256, p: Path)
    requires DigestOf(roots, sha).Ok?
    ensures p in DigestOf(roots, sha).value.fileDigests <==> exists c :: c in Candidates(roots) && c.path == p && IsDigested(p)
  {
    var cs := Candidates(roots);
    HashesSelected(cs, sha);
    assert DigestOf(roots, sha).value.fileDigests == MapOf(Selected(cs, sha));
    SelectedKeys(cs, sha, p);
  }

  /** The keys of the per-file map are the selected, readable files. */
  lemma SelectedKeys(cs: seq<Candidate>, sha: Sha256, p: Path)
    ensures p in MapOf(Selected(cs, sha)) <==> exists c :: c in cs && c.path == p && IsDigested(p) && c.contents.Some?
  {
    var ps := Selected(cs, sha);
    MapOfEntries(ps, p);
    if p in MapOf(ps) {
      var i :| 0 <= i < |ps| && ps[i].0 == p;
      SelectedMembers(cs, sha, ps[i]);
    }
    if exists c :: c in cs && c.path == p && IsDigested(p) && c.contents.Some? {
      var c :| c in cs && c.path == p && IsDigested(p) && c.contents.Some?;
      var x := (p, FileHash(c.contents.value, sha));
      assert x in Contribution(c, sha);
      SelectedMembers(cs, sha, x);
      var i :| 0 <= i < |ps| && ps[i] == x;
    }
  }

  /** Over one consistent snapshot, each selected file's entry is the hash of its contents. */
  lemma DigestFileHash(roots: seq<Root>, sha: Sha256, c: Candidate)
    requires DigestOf(roots, sha).Ok?
    requires Consistent(Candidates(roots))
    requires c in Candidates(roots) && IsDigested(c.path)
    ensures c.contents.Some?
    ensures c.path in DigestOf(roots, sha).value.fileDigests
    ensures DigestOf(roots, sha).value.fileDigests[c.path] == FileHash(c.contents.value, sha)
  {
    var cs := Candidates(roots);
    HashesSelected(cs, sha);
    DigestFiles(roots, sha, c.path);
    var ps := Selected(cs, sha);
    MapOfEntries(ps, c.path);
    SelectedMembers(cs, sha, (c.path, MapOf(ps)[c.path]));
  }

  lemma DeterminedPermutation(a: Pairs, b: Pairs)
    requires multiset(a) == multiset(b)
    requires PathsDetermine(a)
    ensures PathsDetermine(b)
  {
    forall x, y | x in b && y in b && x.0 == y.0 ensures x == y {
      assert x in multiset(a) && y in multiset(a);
    }
  }

  /**
   * Over one consistent snapshot, `package_hash` is the aggregate hash of the
   * selected pairs in path order, whatever order the traversal met them in.
   */
  lemma DigestPackageHash(roots: seq<Root>, sha: Sha256, sorted: Pairs)
    requires DigestOf(roots, sha).Ok?
    requires Consistent(Candidates(roots))
    requires SortedByPath(sorted) && multiset(sorted) == multiset(Selected(Candidates(roots), sha))
    ensures DigestOf(roots, sha).value.packageHash == PackageHash(sorted, sha)
  {
    var cs := Candidates(roots);
    HashesSelected(cs, sha);
    var ps := Selected(cs, sha);
    SelectedDetermined(cs, sha);
    SortByPathSorted(ps);
    DeterminedPermutation(ps, SortByPath(ps));
    SortedUnique(SortByPath(ps), sorted);
  }

  /**
   * The digest does not depend on the order of the `paths` argument: over one
   * consistent snapshot, any reordering gives the same result or the same
   * failure status.
   */
  lemma DigestPermutation(roots: seq<Root>, roots': seq<Root>, sha: Sha256)
    requires multiset(roots) == multiset(roots')
    requires Consistent(Candidates(roots))
    ensures DigestOf(roots, sha).Ok? <==> DigestOf(roots', sha).Ok?
    ensures DigestOf(roots, sha).Ok? ==> DigestOf(roots', sha) == DigestOf(roots, sha)
  {
    var cs, cs' := Candidates(roots), Candidates(roots');
    FlatMapPermutation(RootCandidates, roots, roots');
    HashesSelected(cs, sha);
    HashesSelected(cs', sha);
    assert forall c :: c in cs <==> c in multiset(cs');
    if NoReadFailure(cs) {
      var ps, ps' := Selected(cs, sha), Selected(cs', sha);
      FlatMapPermutation(Contributor(sha), cs, cs');
      SelectedDetermined(cs, sha);
      SortByPathSorted(ps);
      SortByPathSorted(ps');
      DeterminedPermutation(ps, SortByPath(ps));
      SortedUnique(SortByPath(ps), SortByPath(ps'));
      MapOfDetermined(ps, ps');
    }
  }

  // ---------------------------------------------------------------------------
  // The imperative code

  /**
   * The `maybe_hash_file` closure with `hash_file` inlined: selects by name, reads,
   * hashes, and records the hash in both collections.
   */
  method MaybeHashFile(c: Candidate, sha: Sha256, fileDigests: map<Path, string>, sortedHashes: Pairs)
    returns (r: Result<(map<Path, string>, Pairs), DigestError>)
    requires fileDigests == MapOf(sortedHashes)
    ensures match Step(Ok(sortedHashes), c, sha)
            case Err(e) => r == Err(e)
            case Ok(ps) => r == Ok((MapOf(ps), ps))
  {
    if Extension(c.path) == Some(MoveExtension) || EndsWith(c.path, [ManifestFileName]) {
      match c.contents
      case None =>
        return Err(ReadFailed(c.path));
      case Some(bytes) =>
        var hash := Hex(sha(bytes));
        var ps := sortedHashes + [(c.path, hash)];
        assert ps[..|ps| - 1] == sortedHashes;
        return Ok((fileDigests[c.path := hash], ps));
    }
    return Ok((fileDigests, sortedHashes));
  }

  lemma HashesSnoc(done: seq<Candidate>, c: Candidate, sha: Sha256)
    ensures Hashes(done + [c], sha) == Step(Hashes(done, sha), c, sha)
  {
    assert (done + [c])[..|done + [c]| - 1] == done;
  }

  /** A failure part-way through root `i` is what the whole traversal returns. */
  lemma ErrorIsFinal(roots: seq<Root>, i: nat, pre: seq<Candidate>, post: seq<Candidate>, e: DigestError, sha: Sha256)
    requires i < |roots|
    requires RootCandidates(roots[i]) == pre + post
    requires Hashes(Candidates(roots[..i]) + pre, sha) == Err(e)
    ensures Hashes(Candidates(roots), sha) == Err(e)
  {
    FlatMapAround(RootCandidates, roots, i);
    var done, rest := Candidates(roots[..i]), Candidates(roots[i + 1..]);
    Reassociate(done, pre, post, rest);
    HashesErrSticky(done + pre, post + rest, e, sha);
  }

  lemma EntryStep(done: seq<Candidate>, entries: seq<WalkEntry>, j: nat)
    requires j < |entries|
    ensures done + EntryCandidates(entries[..j + 1]) == (done + EntryCandidates(entries[..j])) + EntryCandidate(entries[j])
  {
    FlatMapStep(EntryCandidate, entries, j);
  }

  lemma EntrySplit(entries: seq<WalkEntry>, j: nat)
    requires j < |entries|
    ensures EntryCandidates(entries) == EntryCandidates(entries[..j + 1]) + EntryCandidates(entries[j + 1..])
  {
    assert entries == entries[..j + 1] + entries[j + 1..];
    FlatMapAppend(EntryCandidate, entries[..j + 1], entries[j + 1..]);
  }

  /** `compute_digest`: the two traversal loops, the sort and the aggregate fold. */
  method ComputeDigest(roots: seq<Root>, sha: Sha256) returns (r: Result<PackageDigest, DigestError>)
    ensures r == DigestOf(roots, sha)
  {
    var fileDigests: map<Path, string> := map[];
    var sortedHashes: Pairs := [];
    for i := 0 to |roots|
      invariant Hashes(Candidates(roots[..i]), sha) == Ok(sortedHashes)
      invariant fileDigests == MapOf(sortedHashes)
    {
      FlatMapStep(RootCandidates, roots, i);
      var done := Candidates(roots[..i]);
      match roots[i]
      case FileRoot(path, contents) =>
        var c := Candidate(path, contents);
        var step := MaybeHashFile(c, sha, fileDigests, sortedHashes);
        HashesSnoc(done, c, sha);
        if step.Err? {
          assert [c] == [c] + [];
          ErrorIsFinal(roots, i, [c], [], step.error, sha);
          return Err(step.error);
        }
        fileDigests, sortedHashes := step.value.0, step.value.1;
      case DirRoot(entries) =>
        assert done + EntryCandidates(entries[..0]) == done;
        for j := 0 to |entries|
          invariant Hashes(done + EntryCandidates(entries[..j]), sha) == Ok(sortedHashes)
          invariant fileDigests == MapOf(sortedHashes)
        {
          EntryStep(done, entries, j);
          var seen := done + EntryCandidates(entries[..j]);
          if entries[j].Unreadable? || !entries[j].isFile {
            assert seen + EntryCandidate(entries[j]) == seen;
          }
          match entries[j]
          case Unreadable =>
          case Entry(path, isFile, contents) =>
            if isFile {
              var c := Candidate(path, contents);
              assert EntryCandidate(entries[j]) == [c];
              var step := MaybeHashFile(c, sha, fileDigests, sortedHashes);
              HashesSnoc(seen, c, sha);
              if step.Err? {
                EntrySplit(entries, j);
                ErrorIsFinal(roots, i, EntryCandidates(entries[..j + 1]), EntryCandidates(entries[j + 1..]), step.error, sha);
                return Err(step.error);
              }
              fileDigests, sortedHashes := step.value.0, step.value.1;
            }
        }
        assert entries[..|entries|] == entries;
    }
    assert roots[..|roots|] == roots;

    var sorted := SortByPath(sortedHashes);
    var hashed: Bytes := [];
    for i := 0 to |sorted|
      invariant hashed == HashBytes(sorted[..i])
    {
      assert sorted[..i + 1][..i] == sorted[..i];
      hashed := hashed + AsciiBytes(sorted[i].1);
    }
    assert sorted[..|sorted|] == sorted;
    r := Ok(PackageDigest(Hex(sha(hashed)), fileDigests));
  }
}
