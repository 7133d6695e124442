# sync.rb: directory fingerprints, modelled in Dafny

`sync.rb` has two commands that work on one directory. `fingerprint` walks the
directory tree and writes one line per entry that is not a directory (only
regular files are modelled) into the manifest
`.syncrb.fingerprints` at the root. Each line holds the file's SHA-1 hex digest,
a space, and the file's path relative to the root. A manifest already there is
first renamed to `.syncrb.fingerprints.bak`. `verify` reads the manifest back.
It re-hashes every file it names, prints `.` for each file that matches and `F`
for each that does not, and then reports either `All files are OK` or the
corrupted files with their new hashes.

The model has one module per concern:

- `RubyText`: the Ruby string and IO behaviour the script relies on.
  - `String#strip` is `LStrip`, `RStrip` and `Strip`; `StripKeepsMiddle`
    states what it cuts away.
  - `str[a..b]` and `str[a..]` are `SliceRange` and `SliceFrom`.
  - `IO#each_line` is `EachLine`.
  - `IO#puts` is `Puts`, which adds a line feed only when one is missing.
- `RubyHash`: a Ruby `Hash` as a datatype `Dict`. It keeps keys in insertion
  order, because the comparison loop and the report both follow that order.
  Storing an existing key keeps its position and replaces its value.
- `Digests`: the SHA-1 hex digest type and the 4 MiB read (`Read`). It also has
  the `Digest::SHA1` accumulator as a class `Sha1Digestor`, which gets reset,
  fed chunks, and then asked for its digest.
- `Tree`: the directory tree as a datatype of files and directories.
  - `children.sort.partition(&:directory?).flatten` is `VisitOrder`. It is built
    from an insertion sort by name and a partition.
  - `Lookup` finds an entry by name.
  - A relative path is built with `JoinPath` (`relative_path_from`,
    sync.rb:56) and resolved again with `Components` and `Resolve` (the
    operating system's lookup behind `dir_path + relative_path`, sync.rb:77).
    Their meaning is stated by `ComponentsOfJoinPath`, `HashAtJoinedPath`
    and `CurrentHash`.
- `Manifest`:
  - The encoder writes one line per record, `"#{hash} #{path}"`, through `puts`.
  - The decoder, which is the `each_line` block of `verify`, is `DecodeLine`,
    `DecodeLines` and the imperative `ReadFingerprints`.
- `Traversal`: the sequence of records that `reindex_recursive` writes, as the
  specification function `Walk`, with its properties:
  - it never goes into the bookkeeping names;
  - it covers every file;
  - its paths come in a strict order;
  - each record resolves back to its file.
- `FileSystem`: the root directory as a class `Directory` whose `listing` the
  methods update in place.
  - `fingerprints_file_in` is `FingerprintsFileIn`, which refers to the
    specification function `CreateManifest`.
  - `fingerprints_file.puts` is `PutsToManifest`.
- `Verifier`: the `verify` comparison as the function `Compare`, over a `Probe`.
  A `Probe` gives the current digest for each relative path, or the error that
  stops verify; `Current` applies it to a manifest key, and `Mark` is the
  progress character of sync.rb:79, both stated by `CompareProgress`. `Verification` puts reading the manifest and the comparison
  together. `Report` gives the lines printed at the end.
- `Sync`: the script object `Fingerprinter`. It holds the SHA-1 function and the
  reused accumulator `@sha1_digestor`, and has these methods:
  - `FileSha1`;
  - `ReindexRecursive` and `ReindexEntry`, which run the loop body for one child;
  - `Reindex`;
  - `Verify`.

  Each method is proved against the functions above. Three lemmas cover complete
  runs:
  - `ReindexThenVerifyFindsNoChange`: a verify right after a reindex prints one
    `.` per file and finds nothing changed.
  - `ReindexTwiceBacksUpFirstManifest`: a second reindex moves the first
    manifest to the backup name.
  - `ReindexTwiceWritesSameManifest`: a second reindex writes the same
    manifest as the first.

What the code does at its edges, and what the model does with it:

- **Missing files.** For a manifest path that names nothing, `File.open`
  raises and nothing rescues it, so verify stops. The model returns
  `CannotOpen` as the outcome of the whole run, and `IsADirectory` for a path
  that names a directory.
- **Trailing slash.** A manifest path that ends in `/` after the name of a
  regular file fails to open (`ENOTDIR`), so verify stops with `CannotOpen`
  (`TrailingSlashOnFileCannotOpen`). Paths the walk writes never end in `/`.
- **Malformed lines.** Lines are not checked for their format, and empty
  lines are not skipped:
  - a stripped line of 40 characters or fewer gives a `nil` path;
  - `dir_path + nil` then raises `TypeError`, which the model returns as
    `NilPath`;
  - an empty line is decoded like any other short line.
- **Visiting order.** `partition(&:directory?)` puts the directories of each
  directory before its files, at sync.rb:47, and the model does the same
  (`DirectoriesThenFilesByName`).

Some things only round-trip on some trees:

- The separator character between hash and path is never checked.
- A path's spaces inside the name survive.
- `strip` removes strip spaces at the end of the last file name
  (`TrailingSpaceIsLost`). So the manifest round trip, and "verify after
  reindex finds nothing", are proved for trees whose names contain no line
  feed and whose file names do not end in a strip space (`LineSafeTree`).

## Model

| member | source | states |
|---|---|---|
| Traversal.Walk | sync.rb:45-59 | no record of the walk has a bookkeeping name at any depth of its path, and no path is empty |
| Traversal.NodeRecords | sync.rb:49-57 | every record written for an entry lies below the directory's relative path and passes through the entry's name |
| Traversal.ListRecords | sync.rb:49-58 | every record written for a run of a directory's entries lies below that directory's relative path |
| Traversal.ListingRecordsOfOrdinary | sync.rb:50 | the manifest and its backup add no records, wherever they stand in a listing |
| Traversal.InWalkOrderIsUnique | sync.rb:47 | two record sequences in strict walk order that hold the same records are the same sequence |
| Tree.VisitOrder | sync.rb:47 | the visiting order is a permutation of the children |
| Tree.SortByName | sync.rb:47 | the sorted children are a permutation of the children and sorted by name |
| Tree.PartitionByDirectory | sync.rb:47 | the two parts together are a permutation of the input; the first holds only directories and the second only files |
| Tree.PartitionKeepsOrder | sync.rb:47 | partitioning a name-sorted sequence leaves both parts name-sorted |
| Tree.VisitOrderIsDirectoriesThenFilesByName | sync.rb:46-47 | the visiting order is a permutation of the children with every directory before every file, each group in name order |
| Tree.NameBeforeTotal | sync.rb:47 | the name order used by sort is total; with NameBeforeIrreflexive and NameBeforeTransitive it is a strict total order |
| Tree.LookupFindsEntry | sync.rb:105 | in a directory with distinct names, looking up an entry's name finds that entry |
| Tree.ComponentsOfJoinPath | sync.rb:56 | the path written with relative_path_from, split again at '/', gives back the same entry names |
| RubyText.Strip | sync.rb:69 | strip! never lengthens the line, leaves no strip space at either end, and leaves a string with clean ends unchanged |
| RubyText.StripKeepsMiddle | sync.rb:69 | strip! keeps the contiguous middle of the line that starts where lstrip starts; everything before and after that middle is a strip space |
| RubyText.SliceRange | sync.rb:70 | str[first..last] is nil exactly when first lies beyond the end; otherwise it is the substring from first, cut at last or at the end |
| RubyText.SliceFrom | sync.rb:71 | str[first..] is nil exactly when first lies beyond the end; otherwise it is the rest of the string from first |
| RubyText.EachLine | sync.rb:68 | each_line yields no line exactly for the empty text, and never more lines than characters |
| Tree.JoinPathHasNoTrailingSlash | sync.rb:56 | a relative path joined from entry names is not empty and does not end in '/' |
| RubyText.EachLineCutsAfterLineFeeds | sync.rb:68 | the lines of each_line concatenate to the text; each is non-empty, and every line but the last ends in a line feed |
| RubyText.EachLineAppend | sync.rb:68 | the lines of a text that ends in a line feed, followed by more text, are its own lines followed by those of the rest |
| RubyText.Puts | sync.rb:56 | puts writes the string followed by at most one line feed, adding it exactly when the string does not already end in one; what it writes always ends in a line feed |
| Digests.Read | sync.rb:98 | read(4 MiB) is nil exactly at the end of the file; otherwise it is the next bytes, at most the length asked, and fewer only at the end |
| Sync.Fingerprinter.FileSha1 | sync.rb:93-102 | after reset and the chunk loop, the accumulator holds exactly the whole file and the digest is its SHA-1, whatever the accumulator held before |
| Digests.Sha1Digestor.Reset | sync.rb:97 | reset empties the accumulator |
| Digests.Sha1Digestor.Absorb | sync.rb:99 | << appends the chunk to what the accumulator holds |
| Manifest.RecordLine | sync.rb:56 | the line put for a record is its 40-character hash, one space, and its relative path |
| Manifest.ManifestText | sync.rb:56 | the manifest is empty exactly when no record was written, ends in a line feed otherwise, and holds at least 41 characters per record |
| Manifest.ManifestTextAppend | sync.rb:56 | the manifest written for two runs of records is the text of the first followed by the text of the second |
| Manifest.RecordLineRoundTrip | sync.rb:56-71 | the line put for a record with line-safe names has no line feed inside, and decodes to its relative path and its hash |
| Manifest.DecodeLineIsPositional | sync.rb:69-71 | decoding is positional: the hash is the first 40 characters of the stripped line and the path is everything from index 41 on, nil for a line shorter than 41 characters |
| Manifest.SeparatorIsNotChecked | sync.rb:69-71 | any character between hash and path is dropped unchecked, and a path with inner spaces reads back whole |
| Manifest.SpaceBeforeLineFeedIsDropped | sync.rb:69-71 | a line whose path is followed by a space reads back with the path alone: the space goes with the line feed |
| Manifest.TrailingSpaceIsLost | sync.rb:69 | a file name ending in a space reads back without that space |
| Manifest.DecodeLine | sync.rb:69-71 | the decoded hash has at most 40 characters; the path is nil exactly when the stripped line has 40 characters or fewer, and a non-nil path comes with a full 40-character hash |
| Manifest.DecodeLines | sync.rb:67-73 | decoding lines gives a valid insertion-ordered hash with at most one key per line, and at least one key when there is a line |
| Manifest.DecodeManifest | sync.rb:67-73 | the decoded manifest is a valid hash, empty exactly when the text is empty, with no more keys than characters |
| Manifest.DecodeManifestSnoc | sync.rb:68-72 | a text followed by one more full line decodes to the hash of the text with that line's entry stored last |
| Manifest.ReadFingerprints | sync.rb:67-73 | the each_line loop builds the decoded hash of the whole manifest, a valid insertion-ordered hash |
| Manifest.LinePathsAreKeys | sync.rb:68-72 | every line's path is a key of the decoded hash |
| Manifest.KeyIsLinePath | sync.rb:68-72 | every key of the decoded hash is the path of some line |
| Manifest.LastLineWins | sync.rb:72 | for a repeated path, the hash of its last line is the value kept |
| Manifest.ManifestRoundTrip | sync.rb:56-73 | decoding the manifest written for line-safe records gives the hash of their paths to their hashes in write order |
| Manifest.IndexOfDistinctPaths | sync.rb:72 | for records with distinct paths, the decoded hash has one key per record, in record order, with that record's hash |
| RubyHash.Dict.Store | sync.rb:72 | storing a key replaces its value and appends the key only when it is new |
| RubyHash.EmptyIffNoKeys | sync.rb:83 | a hash is empty exactly when it has no key |
| Traversal.WalkCoversEveryFile | sync.rb:45-58 | the walk writes exactly one record, with its digest and its relative path, for each file not reached through a bookkeeping name (multiset equality with a reference definition that ignores order) |
| Traversal.ListingRecordsOfPermutation | sync.rb:46-47 | the records of a directory do not depend on the order of its entries |
| Traversal.WalkIsInOrder | sync.rb:47-53 | the walk's records come in a strict path order (at the first component where two paths part, a directory before a file, then by name), so no path is written twice |
| Traversal.WalkRecordsResolve | sync.rb:56 | every record's relative path, resolved from the root, reaches a regular file whose digest is the recorded hash |
| Traversal.WalkRecordsAreLineSafe | sync.rb:56 | the records of a tree with line-safe names are line-safe, so every line of the manifest round-trips |
| Sync.Fingerprinter.ReindexRecursive | sync.rb:45-59 | the loop over the visiting order appends to the manifest exactly the text of the records of this directory, and changes nothing else |
| Sync.Fingerprinter.ReindexEntry | sync.rb:49-57 | one child appends nothing when it is a bookkeeping name, the walk of a directory, or the line of a file |
| Sync.Fingerprinter.Reindex | sync.rb:39-43 | reindex fails, leaving the directory as it was, exactly when creating the manifest fails; otherwise it leaves the manifest holding the walk of the directory as created |
| FileSystem.CreateManifest | sync.rb:107-116 | creation fails on a directory at the manifest path, or on a previous manifest that would be moved onto a directory at the backup path; otherwise the last entry is the new empty manifest |
| FileSystem.CreateManifestKeepsOrdinary | sync.rb:107-116 | creating the manifest leaves every entry but the manifest and its backup in place, in order |
| FileSystem.Remove | sync.rb:113 | removing a name keeps exactly the entries with other names |
| FileSystem.Rename | sync.rb:113 | the rename keeps the number of entries; each entry is unchanged or is an entry of the old name under the new name |
| FileSystem.CreateManifestOutcome | sync.rb:107-116 | creation fails when the manifest path is a directory, or when a previous manifest must be moved onto a directory; otherwise the manifest is empty, a previous one is moved to the backup name, and other names are unchanged |
| FileSystem.CreateManifestLeavesEmptyManifest | sync.rb:116 | after creation the manifest is an empty file |
| FileSystem.CreateManifestEntries | sync.rb:111-116 | every entry after creation was already there or is a bookkeeping file, and the tree stays well formed |
| FileSystem.LookupRename | sync.rb:113 | after the rename the backup name holds the old manifest, the manifest name holds nothing, and other names are unchanged |
| FileSystem.LookupRemove | sync.rb:113 | the rename overwrites a previous backup: removing a name leaves only the other names |
| FileSystem.Directory.FingerprintsFileIn | sync.rb:104-122 | with create, the listing becomes the created one and an empty manifest is returned, or it is unchanged with the error; without create, the listing is unchanged and the manifest entry, or nil, is returned |
| FileSystem.Directory.PutsToManifest | sync.rb:56 | the manifest's contents grow by puts of the line and nothing else changes |
| FileSystem.WriteManifest | sync.rb:56 | writing the manifest changes only the manifest's contents |
| Verifier.CurrentHash | sync.rb:93-95 | a manifest path gives a digest exactly when it resolves to a regular file and does not end in '/', and the digest is SHA-1 of that file's contents; otherwise it fails with CannotOpen or IsADirectory |
| Verifier.HashAtJoinedPath | sync.rb:77 | a path joined from entry names opens exactly what those names resolve to |
| Verifier.TrailingSlashOnFileCannotOpen | sync.rb:95 | "x/" fails to open when x is a regular file, though "x" opens and both split into the same components |
| Verifier.Verification | sync.rb:61-90 | verify fails with no fingerprints file exactly when there is no manifest, and with the manifest being a directory exactly when it is one; a completed run has one progress character per decoded key |
| Verifier.CompareInDirectoryFails | sync.rb:76-77 | comparing against a directory fails only on a nil path or a file that cannot be opened or read |
| Verifier.Report | sync.rb:83-89 | "All files are OK" alone exactly when nothing changed; otherwise the header and one "path  (New hash: h)" line per changed path, in insertion order |
| Verifier.Compare | sync.rb:76-80 | a completed comparison prints one progress character per entry and keeps a valid changed hash |
| Verifier.CompareStopsAtFirstError | sync.rb:76-77 | the loop completes exactly when every entry's file can be read; otherwise it stops with the error of the first entry that cannot be read |
| Verifier.CompareErrorPersists | sync.rb:76-77 | once the loop has stopped with an error, later entries do not change the outcome |
| Verifier.CompareProgress | sync.rb:79 | the i-th progress character is '.' when the current digest equals the recorded one and 'F' otherwise |
| Verifier.CompareChanged | sync.rb:78 | a path is in changed_hashes exactly when its entry was compared and its digest differs, and it maps to the current digest |
| Verifier.AllOkIffNothingChanged | sync.rb:83-89 | "All files are OK" is reported exactly when nothing changed, exactly when every progress character is '.'; otherwise one line follows per changed file |
| Verifier.CorruptedLines | sync.rb:87-89 | one "path  (New hash: h)" line per changed path, in insertion order |
| Verifier.CompareAllMatch | sync.rb:76-80 | when every entry's current digest equals its recorded one, the progress is all dots and nothing changed |
| Sync.Fingerprinter.Verify | sync.rb:61-90 | verify leaves the directory as it is and returns the verification of the manifest against the files |
| Sync.ReindexedFingerprints | sync.rb:56-73 | after reindex the decoded manifest has one key per file of the walk, in walk order, with that file's digest |
| Sync.ReindexThenVerifyFindsNoChange | sync.rb:39-90 | verify right after reindex prints one '.' per file and reports that all files are OK |
| Sync.AfterReindex | sync.rb:39-59 | after reindex the manifest holds the text of the walk over the directory as created, and every entry but the manifest and its backup is where it was |
| Sync.ReindexTwiceWritesSameManifest | sync.rb:39-59 | reindexing a second time walks the same records and writes the same manifest text as the first time |
| Sync.ReindexTwiceBacksUpFirstManifest | sync.rb:111-116 | a second reindex moves the manifest the first one wrote to the backup name and starts an empty manifest |

## Left out

- The command line (`main`, sync.rb:10-37): option parsing and command dispatch. Its aborts only guard the arguments.
- The SHA-1 algorithm itself is a parameter `Sha1Function` (any function to 40 lower-case hex digits). Nothing is proved about SHA-1 beyond it being a function of the bytes.
- The hashed files are read as `string`, one character per byte, with no encoding. Names, and so the manifest text, are sequences of characters.
- Console output:
  - `print '.'` during reindex and `puts` at sync.rb:42 are not modelled;
  - verify's output is modelled as data: the progress string of a `Verdict` and the `Report` lines.
- `abort` and uncaught exceptions are modelled as error results (`CreateError`, `VerifyError`), without their messages. The warning at sync.rb:112 is not modelled.
- Output written before an error is not modelled. In particular, the progress printed by verify before the file that stops it is not kept.
- The file system:
  - only regular files and directories, with names free of '/';
  - no symbolic links, permissions or special files;
  - no `.` or `..` components and no absolute paths;
  - the tree below the root never changes while a command runs. Reindex only writes the manifest, and the walk never enters the bookkeeping names.
- File handles:
  - opening, buffering and closing are not modelled;
  - the manifest's appended text is visible at once;
  - for an existing manifest, `File.new` is modelled as a fresh empty file after the rename.
- Sync.Fingerprinter.constructor: `@sha1_digestor ||= Digest::SHA1.new` creates the accumulator lazily on the first call. The model creates it with the script object. Since `file_sha1` resets it before every use, the digest does not depend on this.
- Sync.Fingerprinter.ReindexRecursive:
  - `current_path.children` is read once per directory, as the listing the directory has when it is entered;
  - the children's visiting order is a pure function of that listing (`VisitOrder`).
- Verifier.CurrentHash: `dir_path + relative_path` is resolved inside the modelled tree with empty components dropped. A manifest path that begins with '/' (Pathname#+ then gives that absolute path) or holds '.' or '..' components names a file outside the model.
- Manifest.DecodeLine: names are assumed valid in the manifest's encoding. On a line with invalid bytes `strip!` raises ArgumentError, which the model does not capture.
- Sync.ReindexThenVerifyFindsNoChange: proved for names that are valid in the manifest's encoding, as above; a name that is not would make verify raise in `strip!`.
- Digests.Sha1Digestor.HexDigest: `hexdigest` (sync.rb:101) is the function `HexDigest`, the SHA-1 of everything absorbed; its only property is the one `FileSha1` states.
- Tree.NameBefore: `Pathname#<=>` is modelled as lexicographic comparison of the names' characters. For siblings with names free of '/', this matches a byte-wise comparison of UTF-8 names.
