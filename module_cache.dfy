/**
 * The content-addressed module cache of the package compiler: a session
 * map from cache keys to cached modules, in front of one file per key in a
 * cache directory. The operating system's file system is a class of its own
 * (`FileSystem`), whose files, directories and failing paths are explicit
 * state, so that every outcome of an operation is determined.
 */
module ModuleCache {
  import opened Wrappers
  import opened Primitives
  import opened Paths
  import opened Bcs

  // ---------------------------------------------------------------------------
  // Cache keys and their file names

  /** `CacheKey`: the hash of a source file and the two compilation flags. */
  datatype CacheKey = CacheKey(fileHash: string, testMode: bool, devMode: bool)

  function Flag(b: bool): string
  {
    if b then "1" else "0"
  }

  /** The fixed part that follows the file hash in every cache file name. */
  const SuffixLength: nat := 15

  /** `cache_filename`: the hash, then `_test`, `_dev` and their flags, then `.bin`. */
  function CacheFilename(k: CacheKey): (r: string)
    ensures |r| == |k.fileHash| + SuffixLength
  {
    k.fileHash + "_test" + Flag(k.testMode) + "_dev" + Flag(k.devMode) + ".bin"
  }

  predicate IsFlag(c: char)
  {
    c == '0' || c == '1'
  }

  /** Recovers a key from a cache file name by splitting off the fixed-length suffix. */
  function ParseCacheFilename(name: string): Option<CacheKey>
  {
    if |name| < SuffixLength then None
    else
      var hash, suffix := name[..|name| - SuffixLength], name[|name| - SuffixLength..];
      if suffix[..5] == "_test" && IsFlag(suffix[5]) && suffix[6..10] == "_dev" && IsFlag(suffix[10])
         && suffix[11..] == ".bin"
      then Some(CacheKey(hash, suffix[5] == '1', suffix[10] == '1'))
      else None
  }

  /** Every key's file name parses back to the key. */
  lemma CacheFilenameRoundTrip(k: CacheKey)
    ensures ParseCacheFilename(CacheFilename(k)) == Some(k)
  {
    var name := CacheFilename(k);
    var suffix := "_test" + Flag(k.testMode) + "_dev" + Flag(k.devMode) + ".bin";
    Associate5(k.fileHash, "_test", Flag(k.testMode), "_dev", Flag(k.devMode), ".bin");
    assert name == k.fileHash + suffix;
    assert name[..|name| - SuffixLength] == k.fileHash;
    assert name[|name| - SuffixLength..] == suffix;
    SuffixFields(k.testMode, k.devMode);
  }

  /** The fields `ParseCacheFilename` checks in the suffix that follows the hash. */
  lemma SuffixFields(test: bool, dev: bool)
    ensures var suffix := "_test" + Flag(test) + "_dev" + Flag(dev) + ".bin";
      |suffix| == SuffixLength && suffix[..5] == "_test" && suffix[5] == Flag(test)[0] && suffix[6..10] == "_dev"
      && suffix[10] == Flag(dev)[0] && suffix[11..] == ".bin"
  {
  }

  /** Every name that parses is the file name of the key it parses to. */
  lemma ParseCacheFilenameExact(name: string)
    requires ParseCacheFilename(name).Some?
    ensures CacheFilename(ParseCacheFilename(name).value) == name
  {
    var k := ParseCacheFilename(name).value;
    var hash, suffix := name[..|name| - SuffixLength], name[|name| - SuffixLength..];
    assert Flag(k.testMode) == [suffix[5]];
    assert Flag(k.devMode) == [suffix[10]];
    SuffixParts(suffix);
    assert name == hash + suffix;
    Associate5(hash, "_test", Flag(k.testMode), "_dev", Flag(k.devMode), ".bin");
  }

  lemma SuffixParts(suffix: string)
    requires |suffix| == SuffixLength
    ensures suffix == suffix[..5] + [suffix[5]] + suffix[6..10] + [suffix[10]] + suffix[11..]
  {
  }

  lemma Associate5(a: string, b: string, c: string, d: string, e: string, f: string)
    ensures a + b + c + d + e + f == a + (b + c + d + e + f)
  {
  }

  /** Distinct keys have distinct file names. */
  lemma CacheFilenameInjective(k1: CacheKey, k2: CacheKey)
    requires CacheFilename(k1) == CacheFilename(k2)
    ensures k1 == k2
  {
    CacheFilenameRoundTrip(k1);
    CacheFilenameRoundTrip(k2);
  }

  lemma LastDotOfBin(stem: string)
    ensures LastDot(stem + ".bin") == Some(|stem|)
  {
    var n0, n1, n2, n3 := stem + ".", stem + ".b", stem + ".bi", stem + ".bin";
    assert n0[|n0| - 1] == '.';
    assert LastDot(n0) == Some(|stem|);
    assert n1[..|n1| - 1] == n0 && n1[|n1| - 1] == 'b';
    assert LastDot(n1) == LastDot(n0);
    assert n2[..|n2| - 1] == n1 && n2[|n2| - 1] == 'i';
    assert LastDot(n2) == LastDot(n1);
    assert n3[..|n3| - 1] == n2 && n3[|n3| - 1] == 'n';
  }

  /** The extension of a cache file name is `bin`, and what precedes it is the hash and the flags. */
  lemma CacheFilenameExtension(k: CacheKey)
    ensures SplitExtension(CacheFilename(k)) ==
      (k.fileHash + "_test" + Flag(k.testMode) + "_dev" + Flag(k.devMode), Some("bin"))
  {
    var stem := k.fileHash + "_test" + Flag(k.testMode) + "_dev" + Flag(k.devMode);
    assert CacheFilename(k) == stem + ".bin";
    LastDotOfBin(stem);
    assert (stem + ".bin")[..|stem|] == stem;
    assert (stem + ".bin")[|stem| + 1..] == "bin";
  }

  // ---------------------------------------------------------------------------
  // Cached modules and their BCS record

  /**
   * `CachedModule`: serialized bytecode, the source path (as the bytes of its
   * text) and the time it was cached, in seconds.
   */
  datatype CachedModule = CachedModule(bytecodeBytes: Bytes, sourcePath: Bytes, cacheTimestamp: u64)

  /** `bcs::to_bytes` of a cached module: its three fields in order; fails on an over-long sequence. */
  function EncodeModule(m: CachedModule): (r: Option<Bytes>)
    ensures r.Some? <==> |m.bytecodeBytes| <= MaxSequenceLength && |m.sourcePath| <= MaxSequenceLength
  {
    match (EncodeBytes(m.bytecodeBytes), EncodeBytes(m.sourcePath))
    case (Some(code), Some(path)) => Some(code + path + EncodeU64(m.cacheTimestamp))
    case _ => None
  }

  /** `bcs::from_bytes` of a cached module: fails on a malformed field, too little input or input left over. */
  function DecodeModule(s: Bytes): (r: Option<CachedModule>)
    ensures r.Some? ==> EncodeModule(r.value).Some?
  {
    match DecodeBytes(s)
    case None => None
    case Some((code, n)) =>
      match DecodeBytes(s[n..])
      case None => None
      case Some((path, m)) =>
        match DecodeU64(s[n..][m..])
        case None => None
        case Some(t) => Some(CachedModule(code, path, t))
  }

  /** What is written to disk decodes to the module that was written. */
  lemma ModuleRoundTrip(m: CachedModule)
    requires EncodeModule(m).Some?
    ensures DecodeModule(EncodeModule(m).value) == Some(m)
  {
    var code, path := EncodeBytes(m.bytecodeBytes).value, EncodeBytes(m.sourcePath).value;
    var time := EncodeU64(m.cacheTimestamp);
    var s := EncodeModule(m).value;
    assert s == code + (path + time);
    DecodeBytesRoundTrip(m.bytecodeBytes, path + time);
    assert s[|code|..] == path + time;
    DecodeBytesRoundTrip(m.sourcePath, time);
    assert s[|code|..][|path|..] == time;
    U64RoundTrip(m.cacheTimestamp);
  }

  /** A byte string that decodes is exactly the encoding of what it decodes to. */
  lemma ModuleCanonical(s: Bytes)
    requires DecodeModule(s).Some?
    ensures EncodeModule(DecodeModule(s).value) == Some(s)
  {
    var (code, n) := DecodeBytes(s).value;
    var rest := s[n..];
    var (path, m) := DecodeBytes(rest).value;
    var time := DecodeU64(rest[m..]).value;
    assert DecodeModule(s).value == CachedModule(code, path, time);
    DecodeBytesCanonical(s);
    DecodeBytesCanonical(rest);
    U64Canonical(rest[m..]);
    EncodeModuleOf(CachedModule(code, path, time), s[..n], rest[..m], rest[m..]);
    Concat3(s, n, m);
  }

  lemma EncodeModuleOf(m: CachedModule, code: Bytes, path: Bytes, time: Bytes)
    requires EncodeBytes(m.bytecodeBytes) == Some(code) && EncodeBytes(m.sourcePath) == Some(path)
    requires EncodeU64(m.cacheTimestamp) == time
    ensures EncodeModule(m) == Some(code + path + time)
  {
  }

  lemma Concat3(s: Bytes, n: nat, m: nat)
    requires n <= |s| && m <= |s| - n
    ensures s == s[..n] + s[n..][..m] + s[n..][m..]
  {
    assert s[n..] == s[n..][..m] + s[n..][m..];
    assert s == s[..n] + s[n..];
  }

  // ---------------------------------------------------------------------------
  // The file system

  /** `p` lies in directory `dir` or is `dir` itself. */
  predicate Under(dir: Path, p: Path)
  {
    |dir| <= |p| && p[..|dir|] == dir
  }

  /** Every non-empty leading part of a path: the directories `create_dir_all` makes. */
  function Ancestors(dir: Path): set<Path>
  {
    set k | 0 < k <= |dir| :: dir[..k]
  }

  /**
   * A state of the file system: files with their contents and directories,
   * by path relative to the working directory (the empty path); every
   * operation on a path in `faulty` fails as an I/O error would.
   */
  datatype Disk = Disk(files: map<Path, Bytes>, dirs: set<Path>, faulty: set<Path>)
  {
    /** Every file and directory sits in a directory. */
    ghost predicate Valid()
    {
      (forall p :: p in files ==> p != [] && p !in dirs && IsDir(p[..|p| - 1])) &&
      (forall d :: d in dirs ==> d != [] && IsDir(d[..|d| - 1]))
    }

    /** A directory, the working directory included. */
    predicate IsDir(p: Path)
    {
      p == [] || p in dirs
    }

    /** `Path::exists`. */
    predicate Exists(p: Path)
    {
      p == [] || p in files || p in dirs
    }

    /** What `fs::read` returns. */
    function Read(p: Path): Option<Bytes>
    {
      if p in files && p !in faulty then Some(files[p]) else None
    }

    /** `fs::write` succeeds on a path that is not a directory and whose directory exists. */
    predicate CanWrite(p: Path)
    {
      p != [] && p !in faulty && p !in dirs && IsDir(p[..|p| - 1])
    }

    function Written(p: Path, contents: Bytes): Disk
    {
      this.(files := files[p := contents])
    }

    /** `fs::rename` succeeds from an existing file to a path that could be written. */
    predicate CanRename(from: Path, to: Path)
    {
      from in files && from !in faulty && CanWrite(to)
    }

    function Renamed(from: Path, to: Path): Disk
      requires from in files
    {
      this.(files := (files - {from})[to := files[from]])
    }

    /** `fs::remove_dir_all` succeeds on an existing directory. */
    predicate CanRemoveDir(dir: Path)
    {
      dir in dirs && dir !in faulty
    }

    function RemovedDir(dir: Path): Disk
    {
      this.(files := map p | p in files && !Under(dir, p) :: files[p],
            dirs := set d | d in dirs && !Under(dir, d))
    }

    /** `fs::create_dir_all` succeeds unless the path or a leading part of it is a file. */
    predicate CanCreateDir(dir: Path)
    {
      dir !in faulty && forall k :: 0 < k <= |dir| ==> dir[..k] !in files
    }

    function CreatedDir(dir: Path): Disk
    {
      this.(dirs := dirs + Ancestors(dir))
    }
  }

  lemma WrittenValid(d: Disk, p: Path, contents: Bytes)
    requires d.Valid() && d.CanWrite(p)
    ensures d.Written(p, contents).Valid()
  {
    var e := d.Written(p, contents);
    assert e.dirs == d.dirs;
    forall q | q in e.files
      ensures q != [] && q !in e.dirs && e.IsDir(q[..|q| - 1])
    {
      if q != p {
        assert q in d.files;
      }
    }
  }

  lemma RenamedValid(d: Disk, from: Path, to: Path)
    requires d.Valid() && d.CanRename(from, to)
    ensures d.Renamed(from, to).Valid()
  {
    var e := d.Renamed(from, to);
    assert e.dirs == d.dirs;
    forall p | p in e.files
      ensures p != [] && p !in e.dirs && e.IsDir(p[..|p| - 1])
    {
      if p != to {
        assert p in d.files;
      }
    }
  }

  lemma RemovedDirValid(d: Disk, dir: Path)
    requires d.Valid()
    ensures d.RemovedDir(dir).Valid()
  {
    var e := d.RemovedDir(dir);
    forall p | p in e.files || p in e.dirs
      ensures e.IsDir(p[..|p| - 1])
    {
      var parent := p[..|p| - 1];
      if |dir| <= |parent| {
        assert parent[..|dir|] == p[..|dir|];
      }
    }
  }

  lemma CreatedDirValid(d: Disk, dir: Path)
    requires d.Valid() && d.CanCreateDir(dir)
    ensures d.CreatedDir(dir).Valid()
  {
    var e := d.CreatedDir(dir);
    forall q | q in Ancestors(dir)
      ensures q != [] && q !in d.files && e.IsDir(q[..|q| - 1])
    {
      var k :| 0 < k <= |dir| && q == dir[..k];
      if k > 1 {
        assert q[..|q| - 1] == dir[..k - 1];
      }
    }
  }

  /** In a well-formed file system nothing lies in a directory that does not exist. */
  lemma {:induction false} NothingUnderMissingDir(d: Disk, dir: Path, p: Path)
    requires d.Valid() && !d.Exists(dir)
    requires p in d.files || p in d.dirs
    ensures !Under(dir, p)
    decreases |p|
  {
    if |p| > |dir| {
      var parent := p[..|p| - 1];
      assert parent[..|dir|] == p[..|dir|];
      if parent != [] {
        NothingUnderMissingDir(d, dir, parent);
      }
    } else {
      assert |p| == |dir| ==> p[..|dir|] == p;
    }
  }

  /** The operating system's file system, shared by every cache that uses it. */
  class FileSystem {
    var disk: Disk

    constructor (disk: Disk)
      ensures this.disk == disk
    {
      this.disk := disk;
    }

    method Read(p: Path) returns (r: Option<Bytes>)
      ensures r == disk.Read(p)
    {
      r := disk.Read(p);
    }

    method Write(p: Path, contents: Bytes) returns (ok: bool)
      modifies this
      ensures ok == old(disk).CanWrite(p)
      ensures disk == if ok then old(disk).Written(p, contents) else old(disk)
    {
      ok := disk.CanWrite(p);
      if ok {
        disk := disk.Written(p, contents);
      }
    }

    method Rename(from: Path, to: Path) returns (ok: bool)
      modifies this
      ensures ok == old(disk).CanRename(from, to)
      ensures disk == if ok then old(disk).Renamed(from, to) else old(disk)
    {
      ok := disk.CanRename(from, to);
      if ok {
        disk := disk.Renamed(from, to);
      }
    }

    method RemoveDirAll(dir: Path) returns (ok: bool)
      modifies this
      ensures ok == old(disk).CanRemoveDir(dir)
      ensures disk == if ok then old(disk).RemovedDir(dir) else old(disk)
    {
      ok := disk.CanRemoveDir(dir);
      if ok {
        disk := disk.RemovedDir(dir);
      }
    }

    method CreateDirAll(dir: Path) returns (ok: bool)
      modifies this
      ensures ok == old(disk).CanCreateDir(dir)
      ensures disk == if ok then old(disk).CreatedDir(dir) else old(disk)
    {
      ok := disk.CanCreateDir(dir);
      if ok {
        disk := disk.CreatedDir(dir);
      }
    }
  }

  // ---------------------------------------------------------------------------
  // The cache

  datatype CacheError =
    | SerializeFailed
    | WriteFailed(path: Path)
    | RenameFailed(path: Path)
    | ClearFailed(path: Path)
    | CreateDirFailed(path: Path)

  /** `CacheStats` without the directory listing count. */
  datatype CacheStats = CacheStats(memoryEntries: nat, cacheDir: Path)

  /** `ModuleCache`: the session map in front of the cache directory. */
  class ModuleCache {
    const cacheDir: Path
    const fs: FileSystem
    var memoryCache: map<CacheKey, CachedModule>

    constructor Open(cacheDir: Path, fs: FileSystem)
      ensures this.cacheDir == cacheDir && this.fs == fs && memoryCache == map[]
    {
      this.cacheDir := cacheDir;
      this.fs := fs;
      memoryCache := map[];
    }

    /** `with_cache_dir`: creates the directory, then an empty session map over it. */
    static method WithCacheDir(fs: FileSystem, cacheDir: Path) returns (r: Result<ModuleCache, CacheError>)
      modifies fs
      ensures r.Ok? <==> old(fs.disk).CanCreateDir(cacheDir)
      ensures r.Ok? ==> fs.disk == old(fs.disk).CreatedDir(cacheDir)
      ensures r.Ok? ==> (fresh(r.value) && r.value.cacheDir == cacheDir && r.value.fs == fs
        && r.value.memoryCache == map[] && fs.disk.Exists(cacheDir))
      ensures r.Err? ==> r.error == CreateDirFailed(cacheDir) && fs.disk == old(fs.disk)
    {
      var ok := fs.CreateDirAll(cacheDir);
      if !ok {
        return Err(CreateDirFailed(cacheDir));
      }
      assert cacheDir == [] || cacheDir == cacheDir[..|cacheDir|];
      var cache := new ModuleCache.Open(cacheDir, fs);
      return Ok(cache);
    }

    /** `cache_path`: the key's file name inside the cache directory. */
    function CachePath(key: CacheKey): (r: Path)
      ensures |r| == |cacheDir| + 1 && Under(cacheDir, r)
      ensures FileName(r) == Some(CacheFilename(key))
    {
      cacheDir + [CacheFilename(key)]
    }

    /**
     * The temporary file `insert` writes before renaming it into place: the cache
     * file's name with its extension `bin` replaced by `tmp`, in the same directory.
     */
    function TmpPath(key: CacheKey): (r: Path)
      ensures |r| == |cacheDir| + 1 && Under(cacheDir, r)
      ensures FileName(r).Some? && SplitExtension(FileName(r).value) ==
        (SplitExtension(CacheFilename(key)).0, Some("tmp"))
    {
      CacheFilenameExtension(key);
      WithExtension(CachePath(key), "tmp")
    }

    /** Distinct keys are stored in distinct files, each directly inside the cache directory. */
    lemma CachePathInjective(k1: CacheKey, k2: CacheKey)
      ensures Under(cacheDir, CachePath(k1)) && |CachePath(k1)| == |cacheDir| + 1
      ensures CachePath(k1) == CachePath(k2) ==> k1 == k2
    {
      if CachePath(k1) == CachePath(k2) {
        assert CachePath(k1)[|cacheDir|] == CachePath(k2)[|cacheDir|];
        CacheFilenameInjective(k1, k2);
      }
    }

    /** A temporary file is never the cache file of any key, its own included, and sits beside them. */
    lemma TmpPathIsNoCachePath(k1: CacheKey, k2: CacheKey)
      ensures TmpPath(k1) != CachePath(k2)
      ensures TmpPath(k1)[..|TmpPath(k1)| - 1] == CachePath(k2)[..|CachePath(k2)| - 1] == cacheDir
    {
      var name1, name2 := CacheFilename(k1), CacheFilename(k2);
      var path1 := CachePath(k1);
      assert path1[..|path1| - 1] == cacheDir;
      assert FileName(path1) == Some(name1);
      CacheFilenameExtension(k1);
      var stem := SplitExtension(name1).0;
      assert "." + "tmp" == ".tmp";
      assert TmpPath(k1) == cacheDir + [stem + ".tmp"];
      assert (stem + ".tmp")[|stem| + 3] == 'p';
      assert name2[|name2| - 1] == 'n';
      assert CachePath(k2)[|cacheDir|] == name2;
      assert CachePath(k2)[..|CachePath(k2)| - 1] == cacheDir;
    }

    /** What `get` finds for `key` in a state of the disk: its cache file, read and decoded. */
    function EntryIn(key: CacheKey, d: Disk): Option<CachedModule>
    {
      var path := CachePath(key);
      if !d.Exists(path) then None
      else match d.Read(path)
        case None => None
        case Some(bytes) => DecodeModule(bytes)
    }

    function DiskEntry(key: CacheKey): Option<CachedModule>
      reads fs
    {
      EntryIn(key, fs.disk)
    }

    /**
     * `get`: a memory hit is returned with nothing changed; otherwise the
     * disk entry, which is then kept in memory when it decodes.
     */
    method Get(key: CacheKey) returns (r: Option<CachedModule>)
      modifies this
      ensures key in old(memoryCache) ==> r == Some(old(memoryCache)[key]) && memoryCache == old(memoryCache)
      ensures key !in old(memoryCache) ==> r == DiskEntry(key)
      ensures key !in old(memoryCache) && r.None? ==> memoryCache == old(memoryCache)
      ensures key !in old(memoryCache) && r.Some? ==> memoryCache == old(memoryCache)[key := r.value]
    {
      if key in memoryCache {
        return Some(memoryCache[key]);
      }
      var path := CachePath(key);
      if !fs.disk.Exists(path) {
        return None;
      }
      var bytes := fs.Read(path);
      if bytes.None? {
        return None;
      }
      var cached := DecodeModule(bytes.value);
      if cached.None? {
        return None;
      }
      memoryCache := memoryCache[key := cached.value];
      return cached;
    }

    /** The disk half of `insert`: its outcome and the disk it leaves. */
    function InsertOnDisk(key: CacheKey, entry: CachedModule, d: Disk): (Result<(), CacheError>, Disk)
    {
      match EncodeModule(entry)
      case None => (Err(SerializeFailed), d)
      case Some(bytes) =>
        var tmp, path := TmpPath(key), CachePath(key);
        if !d.CanWrite(tmp) then (Err(WriteFailed(tmp)), d)
        else
          var written := d.Written(tmp, bytes);
          if !written.CanRename(tmp, path) then (Err(RenameFailed(path)), written)
          else (Ok(()), written.Renamed(tmp, path))
    }

    /**
     * `insert`: memory first, whatever happens next; then the encoded module
     * to the temporary file, which is renamed to the key's cache file.
     */
    method Insert(key: CacheKey, entry: CachedModule) returns (r: Result<(), CacheError>)
      modifies this, fs
      ensures memoryCache == old(memoryCache)[key := entry]
      ensures (r, fs.disk) == InsertOnDisk(key, entry, old(fs.disk))
    {
      memoryCache := memoryCache[key := entry];
      var cachePath := CachePath(key);
      var tmpPath := TmpPath(key);
      var bytes := EncodeModule(entry);
      if bytes.None? {
        return Err(SerializeFailed);
      }
      var written := fs.Write(tmpPath, bytes.value);
      if !written {
        return Err(WriteFailed(tmpPath));
      }
      var renamed := fs.Rename(tmpPath, cachePath);
      if !renamed {
        return Err(RenameFailed(cachePath));
      }
      return Ok(());
    }

    /** `insert` succeeds exactly when the module encodes and both of its files can be written. */
    lemma InsertSucceeds(key: CacheKey, entry: CachedModule, d: Disk)
      ensures InsertOnDisk(key, entry, d).0.Ok? <==>
        EncodeModule(entry).Some? && d.CanWrite(TmpPath(key)) && d.CanWrite(CachePath(key))
      ensures InsertOnDisk(key, entry, d).0.Err? ==> InsertOnDisk(key, entry, d).1.dirs == d.dirs
    {
      TmpPathIsNoCachePath(key, key);
    }

    /** After a successful `insert`, the key's cache file decodes to the inserted module. */
    lemma InsertReadsBack(key: CacheKey, entry: CachedModule, d: Disk)
      requires InsertOnDisk(key, entry, d).0.Ok?
      ensures EntryIn(key, InsertOnDisk(key, entry, d).1) == Some(entry)
    {
      TmpPathIsNoCachePath(key, key);
      ModuleRoundTrip(entry);
    }

    /** `insert`, whether it succeeds or not, leaves every other key's disk entry as it was. */
    lemma InsertKeepsOthers(key: CacheKey, other: CacheKey, entry: CachedModule, d: Disk)
      requires other != key
      ensures EntryIn(other, InsertOnDisk(key, entry, d).1) == EntryIn(other, d)
    {
      var e := InsertOnDisk(key, entry, d).1;
      var p := CachePath(other);
      TmpPathIsNoCachePath(key, other);
      CachePathInjective(other, key);
      assert e.dirs == d.dirs && e.faulty == d.faulty;
      assert p in e.files <==> p in d.files;
      assert p in d.files ==> e.files[p] == d.files[p];
      SameEntry(other, d, e);
    }

    lemma SameEntry(key: CacheKey, d: Disk, e: Disk)
      requires e.dirs == d.dirs && e.faulty == d.faulty
      requires CachePath(key) in e.files <==> CachePath(key) in d.files
      requires CachePath(key) in d.files ==> e.files[CachePath(key)] == d.files[CachePath(key)]
      ensures EntryIn(key, e) == EntryIn(key, d)
    {
    }

    /** `insert` keeps the file system well formed. */
    lemma InsertKeepsValid(key: CacheKey, entry: CachedModule, d: Disk)
      requires d.Valid()
      ensures InsertOnDisk(key, entry, d).1.Valid()
    {
      var tmp, path := TmpPath(key), CachePath(key);
      if EncodeModule(entry).Some? && d.CanWrite(tmp) {
        var written := d.Written(tmp, EncodeModule(entry).value);
        WrittenValid(d, tmp, EncodeModule(entry).value);
        if written.CanRename(tmp, path) {
          RenamedValid(written, tmp, path);
        }
      }
    }

    /** The disk half of `clear`: its outcome and the disk it leaves. */
    function ClearOnDisk(d: Disk): (Result<(), CacheError>, Disk)
    {
      if !d.Exists(cacheDir) then (Ok(()), d)
      else if !d.CanRemoveDir(cacheDir) then (Err(ClearFailed(cacheDir)), d)
      else
        var removed := d.RemovedDir(cacheDir);
        if !removed.CanCreateDir(cacheDir) then (Err(CreateDirFailed(cacheDir)), removed)
        else (Ok(()), removed.CreatedDir(cacheDir))
    }

    /**
     * `clear`: empties memory, then removes and recreates the cache directory
     * if it exists.
     */
    method Clear() returns (r: Result<(), CacheError>)
      modifies this, fs
      ensures memoryCache == map[]
      ensures (r, fs.disk) == ClearOnDisk(old(fs.disk))
    {
      memoryCache := map[];
      if fs.disk.Exists(cacheDir) {
        var removed := fs.RemoveDirAll(cacheDir);
        if !removed {
          return Err(ClearFailed(cacheDir));
        }
        var created := fs.CreateDirAll(cacheDir);
        if !created {
          return Err(CreateDirFailed(cacheDir));
        }
      }
      return Ok(());
    }

    /**
     * After a successful `clear` no file is left in the cache directory, so no
     * key has a disk entry; files elsewhere are untouched either way.
     */
    lemma ClearEmptiesDisk(d: Disk)
      requires d.Valid() && cacheDir != []
      ensures ClearOnDisk(d).0.Ok? ==> forall p :: p in ClearOnDisk(d).1.files ==> !Under(cacheDir, p)
      ensures ClearOnDisk(d).0.Ok? ==> forall k :: EntryIn(k, ClearOnDisk(d).1) == None
      ensures forall p :: !Under(cacheDir, p) ==>
        (p in ClearOnDisk(d).1.files <==> p in d.files) && (p in d.files ==> ClearOnDisk(d).1.files[p] == d.files[p])
      ensures ClearOnDisk(d).1.Valid()
    {
      var e := ClearOnDisk(d).1;
      if !d.Exists(cacheDir) {
        forall p | p in d.files
          ensures !Under(cacheDir, p)
        {
          NothingUnderMissingDir(d, cacheDir, p);
        }
      } else if d.CanRemoveDir(cacheDir) {
        RemovedDirValid(d, cacheDir);
        if d.RemovedDir(cacheDir).CanCreateDir(cacheDir) {
          CreatedDirValid(d.RemovedDir(cacheDir), cacheDir);
        }
      }
      if ClearOnDisk(d).0.Ok? {
        forall k
          ensures EntryIn(k, e) == None
        {
          CachePathInjective(k, k);
          assert CachePath(k) !in e.dirs || CachePath(k) in e.dirs;
        }
      }
    }

    /**
     * A cache opened on a directory holding no files (missing, or present and
     * empty) finds no key on disk.
     */
    lemma FreshCacheMisses(key: CacheKey, d: Disk)
      requires forall p :: p in d.files ==> !Under(cacheDir, p)
      ensures EntryIn(key, d.CreatedDir(cacheDir)) == None
    {
      CachePathInjective(key, key);
    }

    /** `stats`, for the session part: the number of modules held in memory. */
    method Stats() returns (s: CacheStats)
      ensures s.memoryEntries == |memoryCache| && s.cacheDir == cacheDir
    {
      s := CacheStats(|memoryCache|, cacheDir);
    }
  }
  /** Reopening a cache (creating its directory again) leaves every key's disk entry as it was. */
  lemma CreatedDirKeepsEntries(cache: ModuleCache, key: CacheKey, d: Disk, dir: Path)
    ensures cache.EntryIn(key, d.CreatedDir(dir)) == cache.EntryIn(key, d)
  {
  }

  /**
   * Insert followed by get on the same cache returns the inserted module, and
   * when the insert succeeded the cache file holds it as well.
   */
  method InsertThenGet(cache: ModuleCache, key: CacheKey, entry: CachedModule)
    returns (inserted: Result<(), CacheError>, got: Option<CachedModule>)
    modifies cache, cache.fs
    ensures got == Some(entry)
    ensures inserted.Ok? ==> cache.DiskEntry(key) == Some(entry)
  {
    ghost var before := cache.fs.disk;
    inserted := cache.Insert(key, entry);
    if inserted.Ok? {
      cache.InsertReadsBack(key, entry, before);
    }
    got := cache.Get(key);
  }

  /**
   * A module inserted successfully is found by a new cache opened on the same
   * directory, which has nothing in memory and reads it from disk.
   */
  method InsertThenReopen(cache: ModuleCache, key: CacheKey, entry: CachedModule)
    returns (inserted: Result<(), CacheError>, reopened: bool, got: Option<CachedModule>)
    modifies cache, cache.fs
    ensures inserted.Ok? && reopened ==> got == Some(entry)
  {
    ghost var before := cache.fs.disk;
    inserted := cache.Insert(key, entry);
    if inserted.Ok? {
      cache.InsertReadsBack(key, entry, before);
    }
    ghost var written := cache.fs.disk;
    var next := ModuleCache.WithCacheDir(cache.fs, cache.cacheDir);
    reopened := next.Ok?;
    if next.Ok? {
      CreatedDirKeepsEntries(next.value, key, written, cache.cacheDir);
      got := next.value.Get(key);
    } else {
      got := None;
    }
  }

  /**
   * A key looked up in a cache opened on a directory holding no files (a new
   * directory, or an existing empty one such as a fresh temporary directory) is a miss.
   */
  method OpenThenGet(fs: FileSystem, cacheDir: Path, key: CacheKey) returns (ready: bool, got: Option<CachedModule>)
    requires forall p :: p in fs.disk.files ==> !Under(cacheDir, p)
    modifies fs
    ensures ready <==> old(fs.disk).CanCreateDir(cacheDir)
    ensures got == None
  {
    ghost var before := fs.disk;
    var cache := ModuleCache.WithCacheDir(fs, cacheDir);
    ready := cache.Ok?;
    if cache.Ok? {
      cache.value.FreshCacheMisses(key, before);
      got := cache.value.Get(key);
    } else {
      got := None;
    }
  }

  /** After `clear` the session holds nothing, whatever happened on disk. */
  method ClearThenStats(cache: ModuleCache) returns (cleared: Result<(), CacheError>, stats: CacheStats)
    modifies cache, cache.fs
    ensures stats.memoryEntries == 0
  {
    cleared := cache.Clear();
    stats := cache.Stats();
  }
}
