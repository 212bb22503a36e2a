# Incremental-compilation bookkeeping of the Move package tool, and the mutator's report

This project models four small parts of the Move toolchain in Dafny and proves
what they promise.

- **Change detection** (`manifest.dfy`). A `PackageDigest` holds an overall package hash
  and a map from each source file's path to the hex SHA-256 of its contents.
  - `file_changed` compares one file's new hash against that map.
  - `get_changed_files` lists every path that was added, modified or removed
    between two digests. Paths still present come first, then removed paths,
    each group in the map's key order.
- **Digest aggregation** (`digest.dfy`). `compute_digest` works in these steps:
  - It visits the given paths. A path that is a file is visited directly; a
    directory is walked.
  - It hashes every `.move` file and every `Move.toml`.
  - It records each hash per path.
  - It sorts the (path, hash) pairs by path.
  - It hashes the concatenation of the per-file hashes into the package hash.
- **Module cache** (`module_cache.dfy`, with the BCS codec it relies on in `bcs.dfy`).
  Compiled modules are kept in two places:
  - a session map in memory;
  - one file per `CacheKey` in a cache directory. A key is the source hash plus
    the test and dev flags.

  The operations are:
  - `get` tries memory first, then the disk, and keeps a decoded disk entry in memory.
  - `insert` writes memory and then the disk. The disk write goes to a temporary
    file, which is then renamed over the cache file.
  - `clear` empties memory and recreates the directory.
  - `stats` reports the session's size.
- **Mutation report** (`report.dfy`). A `Report` collects one `MutationReport` per
  mutant: its paths, the mutations applied and the diff. `save_to_text_file`
  writes these as a fixed block of lines per mutant.

Shared pieces:
- `paths.dfy` models the standard library's path behaviour that the code depends
  on: ordering of paths, iteration order of a `BTreeMap`, file names,
  extensions, `ends_with` and `with_extension`.
- `seqs.dfy` holds generic facts about concatenating images over a sequence.
- `wrappers.dfy` holds `Option`/`Result`, and `primitives.dfy` the byte and
  machine-integer types.

Rust's `Path` is a sequence of components, compared component by component.
SHA-256 is a parameter: the proofs hold for every hash function.

The file system the cache uses is a class (`ModuleCache.FileSystem`). Its state
is a `Disk` value:
- files with contents;
- directories;
- a set of paths on which every operation fails.

This way each outcome of an I/O operation is a function of the state, and
`insert`'s and `clear`'s effects are stated exactly.

## Model

| member | source | states |
|---|---|---|
| Manifest.FileChanged | third_party/move/tools/move-package/src/source_package/parsed_manifest.rs:41-46 | a path absent from the digest counts as changed; a present one is changed exactly when its recorded hash differs from the new one |
| Manifest.AddedOrModifiedMembers | third_party/move/tools/move-package/src/source_package/parsed_manifest.rs:53-57 | the first loop collects exactly the keys of the new digest that `file_changed` reports |
| Manifest.RemovedMembers | third_party/move/tools/move-package/src/source_package/parsed_manifest.rs:59-64 | the second loop collects exactly the old keys missing from the new digest |
| Manifest.AddedOrModifiedAscending | third_party/move/tools/move-package/src/source_package/parsed_manifest.rs:53-57 | iterating the map in key order yields the first group strictly ascending |
| Manifest.RemovedAscending | third_party/move/tools/move-package/src/source_package/parsed_manifest.rs:60-64 | the removed group is strictly ascending |
| Manifest.GetChangedFiles | third_party/move/tools/move-package/src/source_package/parsed_manifest.rs:49-67 | the two loops over the sorted keys build exactly the added/modified list followed by the removed list |
| Manifest.ChangedFilesExact | third_party/move/tools/move-package/src/source_package/parsed_manifest.rs:49-67 | a path is reported iff it is new, has a different hash, or was removed |
| Manifest.ChangedFilesOrder | third_party/move/tools/move-package/src/source_package/parsed_manifest.rs:49-67 | every path still present precedes every removed path, and each group is strictly ascending |
| Manifest.ChangedFilesDistinct | third_party/move/tools/move-package/src/source_package/parsed_manifest.rs:49-67 | no path is reported twice |
| Manifest.ChangedFilesReflexive | third_party/move/tools/move-package/src/source_package/parsed_manifest.rs:49-67 | comparing a digest with itself reports nothing |
| Manifest.NothingAddedAgainstSelf | third_party/move/tools/move-package/src/source_package/parsed_manifest.rs:53-57 | against its own map the first loop collects nothing |
| Manifest.NothingRemovedFromSelf | third_party/move/tools/move-package/src/source_package/parsed_manifest.rs:59-64 | keys all still present give no removals |
| Manifest.AllAddedAgainstEmpty | third_party/move/tools/move-package/src/source_package/parsed_manifest.rs:41-46 | against an empty old map every key counts as changed |
| Manifest.ChangedFilesFromHash | third_party/move/tools/move-package/src/source_package/parsed_manifest.rs:76-83 | a digest built from a bare hash has no file entries, so every file of the other digest is reported, in key order |
| Manifest.FromHash | third_party/move/tools/move-package/src/source_package/parsed_manifest.rs:76-89 | a digest built from a hash string (borrowed or owned) displays as that hash and records no file |
| Manifest.Display | third_party/move/tools/move-package/src/source_package/parsed_manifest.rs:70-74 | a digest displays as its package hash alone, whatever files it records |
| Paths.PathOrder | third_party/move/tools/move-package/src/resolution/digest.rs:50 | path comparison is a strict total order (irreflexive, transitive, total) |
| Paths.SortedKeys | third_party/move/tools/move-package/src/source_package/parsed_manifest.rs:53 | the `BTreeMap` iteration order is strictly ascending, holds only keys of the map and has one entry per key |
| Paths.SortedKeysComplete | third_party/move/tools/move-package/src/source_package/parsed_manifest.rs:60 | every key of the map is visited |
| Paths.SplitExtensionParts | third_party/move/tools/move-package/src/resolution/digest.rs:26-27 | a file name with an extension is a non-empty stem, a dot and the extension, which holds no dot; one without keeps the whole name as stem; a name has an extension exactly when it is not ".." and has a dot after its first character |
| Paths.LastDotAppend | third_party/move/tools/move-package/src/resolution/digest.rs:26 | the extension is taken after the last dot: in `a.b` with a dot-free `b`, the dot found is the one before `b` |
| Paths.SplitExtensionOf | third_party/move/tools/move-package/src/resolution/digest.rs:26-27 | joining a non-empty stem and a dot-free extension with a dot, then splitting, gives both back |
| Paths.WithExtension | third_party/move/tools/move-package/src/compilation/module_cache.rs:144 | replacing the extension keeps the parent directory and the number of components; a non-empty file name keeps its stem and, for a dot-free extension, gets exactly that extension |
| Digest.Hex | third_party/move/tools/move-package/src/resolution/digest.rs:19 | upper-case hex output has two digits per byte, high nibble first, each digit the value of its nibble |
| Digest.HexInjective | third_party/move/tools/move-package/src/resolution/digest.rs:19 | distinct digests print as distinct hex strings, so the text determines the digest |
| Digest.AsciiBytes | third_party/move/tools/move-package/src/resolution/digest.rs:55 | one byte per character of the hex text it is applied to, each hex digit becoming its ASCII code |
| Digest.IsDigestedNames | third_party/move/tools/move-package/src/resolution/digest.rs:25-31 | a file is hashed exactly when its last component is `Move.toml` or a non-empty stem followed by `.move` |
| Digest.CandidatesMembers | third_party/move/tools/move-package/src/resolution/digest.rs:33-47 | the files visited are exactly the roots given as files and the file items of the walked directories |
| Digest.HashesSelected | third_party/move/tools/move-package/src/resolution/digest.rs:17-31 | the traversal succeeds iff no selected file fails to read; then it yields the selected pairs; otherwise it reports such a file |
| Digest.HashesErrSticky | third_party/move/tools/move-package/src/resolution/digest.rs:35 | the first read error ends the traversal; later files do not change it |
| Digest.SelectedMembers | third_party/move/tools/move-package/src/resolution/digest.rs:25-31 | a (path, hash) pair is recorded iff some visited file contributes it |
| Digest.SelectedKeys | third_party/move/tools/move-package/src/resolution/digest.rs:17-31 | a path gets an entry in `file_digests` iff some visited, selected file with that path could be read |
| Digest.MapOfEntries | third_party/move/tools/move-package/src/resolution/digest.rs:20 | a path is in `file_digests` iff some recorded pair has it, and its entry is one of those pairs |
| Digest.MapOfDetermined | third_party/move/tools/move-package/src/resolution/digest.rs:20 | when each path has one hash, `file_digests` does not depend on the order of insertion |
| Digest.SortByPath | third_party/move/tools/move-package/src/resolution/digest.rs:50 | the sort is a permutation |
| Digest.SortByPathSorted | third_party/move/tools/move-package/src/resolution/digest.rs:50 | the sort's result is ordered by path |
| Digest.SortedUnique | third_party/move/tools/move-package/src/resolution/digest.rs:50 | two path-sorted permutations of pairs whose paths determine their hashes are equal |
| Digest.PackageHashIgnoresPaths | third_party/move/tools/move-package/src/resolution/digest.rs:53-58 | the aggregate hash depends only on the sequence of per-file hashes |
| Digest.DigestOf | third_party/move/tools/move-package/src/resolution/digest.rs:53-58 | on success the package hash is upper-case hexadecimal text |
| Digest.DigestFails | third_party/move/tools/move-package/src/resolution/digest.rs:13-61 | `compute_digest` fails iff a selected file cannot be read, and reports such a file |
| Digest.DigestFiles | third_party/move/tools/move-package/src/resolution/digest.rs:13-61 | on success, `file_digests` has an entry for exactly the visited `.move` files and `Move.toml` manifests |
| Digest.DigestFileHash | third_party/move/tools/move-package/src/resolution/digest.rs:17-21 | over one snapshot of the file system, each selected file's entry is the hex SHA-256 of its contents |
| Digest.DigestPackageHash | third_party/move/tools/move-package/src/resolution/digest.rs:49-58 | the package hash is the aggregate over any path-sorted arrangement of the recorded pairs, so it does not depend on visiting order |
| Digest.DigestPermutation | third_party/move/tools/move-package/src/resolution/digest.rs:13-61 | reordering the `paths` argument changes neither success nor the digest |
| Digest.MaybeHashFile | third_party/move/tools/move-package/src/resolution/digest.rs:17-31 | one call selects by extension or manifest name, reads, hashes and records in both collections, exactly as one traversal step |
| Digest.ComputeDigest | third_party/move/tools/move-package/src/resolution/digest.rs:13-61 | the loops, the sort and the fold compute the digest defined by the traversal, including its first error |
| Bcs.Uleb128RoundTrip | third_party/move/tools/move-package/src/compilation/module_cache.rs:146-147 | a length prefix below 2^32 decodes back from its encoding, whatever follows, and takes at most five bytes |
| Bcs.Uleb128Canonical | third_party/move/tools/move-package/src/compilation/module_cache.rs:129 | whatever length prefix the decoder accepts is the canonical encoding of its value |
| Bcs.LittleEndianRoundTrip | third_party/move/tools/move-package/src/compilation/module_cache.rs:56 | fixed-width little-endian encoding is inverted by decoding |
| Bcs.U64RoundTrip | third_party/move/tools/move-package/src/compilation/module_cache.rs:56 | a `u64` timestamp decodes back from its eight bytes |
| Bcs.U64Canonical | third_party/move/tools/move-package/src/compilation/module_cache.rs:129 | eight bytes that decode are the encoding of their value |
| Bcs.EncodeBytes | third_party/move/tools/move-package/src/compilation/module_cache.rs:146-147 | a byte sequence encodes iff it is no longer than the maximum sequence length |
| Bcs.DecodeBytes | third_party/move/tools/move-package/src/compilation/module_cache.rs:129 | a decoded sequence is no longer than the maximum sequence length and no longer than the input it consumed |
| Bcs.DecodeBytesRoundTrip | third_party/move/tools/move-package/src/compilation/module_cache.rs:129 | an encoded byte sequence decodes to itself and consumes exactly its encoding |
| Bcs.DecodeBytesCanonical | third_party/move/tools/move-package/src/compilation/module_cache.rs:129 | the bytes a decode consumes are the encoding of what it returns |
| ModuleCache.CacheFilename | third_party/move/tools/move-package/src/compilation/module_cache.rs:38-45 | a file name is the hash followed by a fixed 15-character suffix |
| ModuleCache.CacheFilenameRoundTrip | third_party/move/tools/move-package/src/compilation/module_cache.rs:38-45 | every key's file name parses back to the key |
| ModuleCache.ParseCacheFilenameExact | third_party/move/tools/move-package/src/compilation/module_cache.rs:38-45 | every name that parses is the file name of its key |
| ModuleCache.CacheFilenameInjective | third_party/move/tools/move-package/src/compilation/module_cache.rs:38-45 | distinct keys (hash, test flag, dev flag) get distinct file names |
| ModuleCache.CacheFilenameExtension | third_party/move/tools/move-package/src/compilation/module_cache.rs:40 | the extension of a cache file name is `bin` |
| ModuleCache.EncodeModule | third_party/move/tools/move-package/src/compilation/module_cache.rs:146-147 | for a source path whose text is UTF-8, serialization fails iff the bytecode or the source path is longer than the maximum sequence length |
| ModuleCache.DecodeModule | third_party/move/tools/move-package/src/compilation/module_cache.rs:129 | whatever `bcs::from_bytes` accepts as a cached module can be serialized again |
| ModuleCache.ModuleRoundTrip | third_party/move/tools/move-package/src/compilation/module_cache.rs:146-147 | what `insert` serializes, `get` deserializes to the same module |
| ModuleCache.ModuleCanonical | third_party/move/tools/move-package/src/compilation/module_cache.rs:129 | bytes that deserialize are exactly the serialization of the module they give |
| ModuleCache.WrittenValid | third_party/move/tools/move-package/src/compilation/module_cache.rs:149-150 | writing a file keeps the file system well formed |
| ModuleCache.RenamedValid | third_party/move/tools/move-package/src/compilation/module_cache.rs:152-153 | renaming a file keeps the file system well formed |
| ModuleCache.RemovedDirValid | third_party/move/tools/move-package/src/compilation/module_cache.rs:181-182 | removing a directory tree keeps the file system well formed |
| ModuleCache.CreatedDirValid | third_party/move/tools/move-package/src/compilation/module_cache.rs:99-100 | creating a directory and its ancestors keeps the file system well formed |
| ModuleCache.NothingUnderMissingDir | third_party/move/tools/move-package/src/compilation/module_cache.rs:180 | when a directory does not exist, no file or directory lies under it |
| ModuleCache.FileSystem.Read | third_party/move/tools/move-package/src/compilation/module_cache.rs:128 | `fs::read` returns the file's contents, or fails for a missing, unreadable or directory path |
| ModuleCache.FileSystem.Write | third_party/move/tools/move-package/src/compilation/module_cache.rs:149-150 | `fs::write` succeeds iff the path can be written, and then replaces the file's contents |
| ModuleCache.FileSystem.Rename | third_party/move/tools/move-package/src/compilation/module_cache.rs:152-153 | `fs::rename` succeeds iff the source is an accessible file and the target could be written, and then moves the contents |
| ModuleCache.FileSystem.RemoveDirAll | third_party/move/tools/move-package/src/compilation/module_cache.rs:181-182 | `fs::remove_dir_all` removes the directory and everything under it, or fails with nothing changed |
| ModuleCache.FileSystem.CreateDirAll | third_party/move/tools/move-package/src/compilation/module_cache.rs:99-100 | `fs::create_dir_all` creates the directory and its ancestors unless one of them is a file |
| ModuleCache.ModuleCache.Open | third_party/move/tools/move-package/src/compilation/module_cache.rs:102-105 | a new cache holds its directory and an empty session map |
| ModuleCache.ModuleCache.WithCacheDir | third_party/move/tools/move-package/src/compilation/module_cache.rs:98-106 | succeeds iff the directory can be created, then the directory exists and the session is empty; otherwise it fails with the disk unchanged |
| ModuleCache.ModuleCache.CachePath | third_party/move/tools/move-package/src/compilation/module_cache.rs:159-161 | a key's cache file lies directly in the cache directory and is named by the key's cache file name |
| ModuleCache.ModuleCache.TmpPath | third_party/move/tools/move-package/src/compilation/module_cache.rs:143-144 | the temporary file lies directly in the cache directory and has the cache file's stem with the extension `tmp` |
| ModuleCache.ModuleCache.CachePathInjective | third_party/move/tools/move-package/src/compilation/module_cache.rs:159-161 | each key's file lies directly in the cache directory, and distinct keys use distinct files |
| ModuleCache.ModuleCache.TmpPathIsNoCachePath | third_party/move/tools/move-package/src/compilation/module_cache.rs:143-144 | the temporary file sits beside the cache files and is never the cache file of any key |
| ModuleCache.ModuleCache.Get | third_party/move/tools/move-package/src/compilation/module_cache.rs:115-135 | a memory hit is returned unchanged; a miss returns the decoded cache file, which is then kept in memory; a missing, unreadable or undecodable file is a miss that changes nothing |
| ModuleCache.ModuleCache.Insert | third_party/move/tools/move-package/src/compilation/module_cache.rs:138-156 | the session map gets the module whatever happens on disk; the disk changes as serialize, write and rename dictate, stopping at the first failure |
| ModuleCache.ModuleCache.InsertSucceeds | third_party/move/tools/move-package/src/compilation/module_cache.rs:138-156 | `insert` succeeds iff the module serializes and both the temporary and the cache file can be written; a failure leaves the directories alone |
| ModuleCache.ModuleCache.InsertReadsBack | third_party/move/tools/move-package/src/compilation/module_cache.rs:138-156 | after a successful `insert`, the key's cache file decodes to the inserted module |
| ModuleCache.ModuleCache.InsertKeepsOthers | third_party/move/tools/move-package/src/compilation/module_cache.rs:143-153 | `insert` leaves every other key's disk entry as it was |
| ModuleCache.ModuleCache.InsertKeepsValid | third_party/move/tools/move-package/src/compilation/module_cache.rs:149-153 | `insert` keeps the file system well formed |
| ModuleCache.ModuleCache.Clear | third_party/move/tools/move-package/src/compilation/module_cache.rs:177-187 | the session map is emptied; the directory, if it exists, is removed and created again, stopping at the first failure |
| ModuleCache.ModuleCache.ClearEmptiesDisk | third_party/move/tools/move-package/src/compilation/module_cache.rs:177-187 | after a successful `clear` no file lies in the cache directory and every key misses on disk; files elsewhere are untouched |
| ModuleCache.ModuleCache.FreshCacheMisses | third_party/move/tools/move-package/src/compilation/module_cache.rs:267-273 | a cache opened on a directory holding no files (missing, or existing and empty) finds no key on disk |
| ModuleCache.ModuleCache.Stats | third_party/move/tools/move-package/src/compilation/module_cache.rs:164-174 | `memory_entries` is the size of the session map, and `cache_dir` is the cache's directory |
| ModuleCache.CreatedDirKeepsEntries | third_party/move/tools/move-package/src/compilation/module_cache.rs:98-100 | reopening a cache on its directory leaves every key's disk entry as it was |
| ModuleCache.InsertThenGet | third_party/move/tools/move-package/src/compilation/module_cache.rs:242-264 | `get` after `insert` returns the inserted module, and after a successful insert the disk holds it too |
| ModuleCache.InsertThenReopen | third_party/move/tools/move-package/src/compilation/module_cache.rs:115-156 | a module inserted successfully is found by a new cache opened on the same directory |
| ModuleCache.OpenThenGet | third_party/move/tools/move-package/src/compilation/module_cache.rs:267-273 | looking up any key in a cache opened on a directory holding no files, such as a fresh temporary directory, is a miss |
| ModuleCache.ClearThenStats | third_party/move/tools/move-package/src/compilation/module_cache.rs:164-187 | after `clear`, `stats` reports no modules in memory, whether or not the disk part failed |
| MutatorReport.NewRange | third_party/move/tools/move-mutator/src/report.rs:102-105 | a range keeps its start and end; the `Range` type admits no start after its end |
| MutatorReport.MutationReport.constructor | third_party/move/tools/move-mutator/src/report.rs:157-170 | a new entry holds its paths and diff and no mutations |
| MutatorReport.MutationReport.AddModification | third_party/move/tools/move-mutator/src/report.rs:173-176 | the mutation is appended, and earlier mutations keep their order |
| MutatorReport.Report.constructor | third_party/move/tools/move-mutator/src/report.rs:16-20 | a new report holds no mutants |
| MutatorReport.Report.AddEntry | third_party/move/tools/move-mutator/src/report.rs:23-26 | the entry is appended after all earlier ones |
| MutatorReport.Report.SaveToTextFile | third_party/move/tools/move-mutator/src/report.rs:48-75 | the nested loops write exactly the concatenated blocks of all mutants, in order |
| MutatorReport.Decimal | third_party/move/tools/move-mutator/src/report.rs:61-65 | a range bound is written as at least one decimal digit, with no leading zero |
| MutatorReport.DecimalRoundTrip | third_party/move/tools/move-mutator/src/report.rs:61-65 | the digits written read back as the number |
| MutatorReport.DecimalInjective | third_party/move/tools/move-mutator/src/report.rs:61-65 | distinct numbers are written differently |
| MutatorReport.MutationLines | third_party/move/tools/move-mutator/src/report.rs:57-66 | each mutation takes four lines |
| MutatorReport.MutationLinesAt | third_party/move/tools/move-mutator/src/report.rs:57-66 | the k-th mutation's four lines sit at positions 4k to 4k+3 of the mutation section |
| MutatorReport.EntryLinesLayout | third_party/move/tools/move-mutator/src/report.rs:54-69 | a mutant's block has 6+4n lines: three header lines, the mutation lines in order, then `Diff:`, the diff and the separator |
| MutatorReport.ReportLinesAppend | third_party/move/tools/move-mutator/src/report.rs:53-70 | adding a mutant appends exactly its block to the text |
| MutatorReport.ReportLinesEmpty | third_party/move/tools/move-mutator/src/report.rs:53-70 | an empty report writes nothing |
| MutatorReport.SaveSingleMutantReport | third_party/move/tools/move-mutator/src/report.rs:244-277 | the report with one mutant and one mutation writes the ten expected lines, including `  Changed place: 0-10` |

## Left out

- File contents, directory walks and SHA-256 are inputs. `compute_digest` receives each root already classified:
  - a file, with its contents, or `None` when it cannot be read;
  - a directory, with the list of items the walk yields.
  
  Walk errors that `filter_map(|e| e.ok())` drops never appear in that list. Following symbolic links is part of what produced the list.
- Digest.DigestFileHash, Digest.DigestPackageHash and Digest.DigestPermutation assume a consistent snapshot, in which every visit of a path sees the same contents. `path.is_file()` and `std::fs::read` are evaluated once per visit, and a file changing between two visits is not covered by these three lemmas. The snapshot does cover the case where one file is reached twice. As written, such a file is recorded once in `file_digests` but its hash enters the package hash twice. The model keeps that behaviour.
- Digest.SortByPath: the standard library's stable sort is modelled as a functional insertion sort on a sequence, not an in-place sort of a vector.
- Digest.PackageHashIgnoresPaths: `hasher.update` calls are modelled as hashing the concatenation of their inputs. That concatenation is what the streaming interface computes.
- `SourcePackageLayout::Manifest` comes from a layout file that is not part of this model. Its name, `Move.toml`, is a constant here.
- The rest of `parsed_manifest.rs` is not part of this model: the manifest types, dependency and address declarations. `FileDigest` is declared but unused by the modelled code. `From<String>` delegates to `From<&str>`, so one function models both.
- `Symbol` interning is not modelled: a package hash is its string.
- A path is modelled as its sequence of normal components. Root, prefix and `.` components are not modelled, so an absolute path and a relative path with the same components are the same value here. A `..` component is special only in `file_name` and `extension`; in the path order it is compared as an ordinary string, whereas Rust orders a parent-directory component before every normal one.
- `CachedModule::new` and `to_compiled_module` are not modelled. They call the bytecode serializer and the system clock, which are foreign code. A cached module is built from its bytes, path and timestamp directly.
- `ModuleCache::new`, `default_cache_dir` and `Default` are not modelled. They depend on the home directory; `with_cache_dir` is the modelled constructor.
- ModuleCache.ModuleCache.Stats: `disk_entries` (counting `read_dir` entries, 0 on error) is not modelled. Only the session count and the directory are stated.
- ModuleCache.EncodeModule: the source path is kept as the bytes of its text. The UTF-8 check that serde applies to a `PathBuf` is not modelled, on encoding or on decoding. A source path that is not valid UTF-8 makes `bcs::to_bytes` (and so `insert`) fail and `bcs::from_bytes` fail, but it encodes and decodes here.
- A cache file name is one path component. A file hash containing a path separator is not modelled.
- The error context strings of `anyhow` are not modelled; errors are the `CacheError` variants.
- Atomicity and concurrent access of the temporary-file-then-rename protocol are not modelled. Each file-system operation is one atomic state change.
- The file system fails on an explicit set of paths. It does not model permissions, disk full or races.
- `save_to_json_file` and `load_from_json_file` are not modelled. They are JSON serialization through a foreign library.
- MutatorReport.MutationReport.constructor: the diff is a parameter. The `diffy` patch generation is foreign code.
- MutatorReport.Report.SaveToTextFile: the method returns the lines that `save_to_text_file` writes, each of which the source ends with a newline. Creating the file, its I/O errors and the log messages are not modelled.
- The getters `get_mutants`, `get_mutant_path` and `get_original_file_path` are not modelled: they return fields, which the model reads directly.
- MutatorReport.NewRange: `Range::new` panics when start exceeds end. The model makes that a precondition.
- Paths in the report are rendered as their display strings.
- The mutator's compiler, operator and command-line files and the Move CLI's library file are not part of this model.
