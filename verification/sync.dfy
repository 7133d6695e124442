/** The script's two commands on one directory: fingerprint (reindex) and
    verify, with the hasher they share. */
module Sync {
  import opened Wrappers
  import opened RubyText
  import opened RubyHash
  import opened Digests
  import opened Tree
  import opened Manifest
  import opened Traversal
  import opened FileSystem
  import opened Verifier

  /** The directory reindex leaves: the manifest created and then filled
      with one line per file of the walk over the directory as created. */
  function AfterReindex(sha1: Sha1Function, listing: seq<Node>): (after: seq<Node>)
    requires CreateManifest(listing).Ok?
    ensures var created := CreateManifest(listing).value;
      Lookup(after, FINGERPRINTS_FILENAME) == Some(File(FINGERPRINTS_FILENAME, ManifestText(Walk(sha1, created))))
    ensures Ordinary(after) == Ordinary(listing)
  {
    var created := CreateManifest(listing).value;
    var text := ManifestText(Walk(sha1, created));
    CreateManifestLeavesEmptyManifest(listing);
    LookupSetContents(created, FINGERPRINTS_FILENAME, text, FINGERPRINTS_FILENAME);
    CreateManifestKeepsOrdinary(listing);
    OrdinarySetContents(created, FINGERPRINTS_FILENAME, text);
    SetContents(created, FINGERPRINTS_FILENAME, text)
  }

  /** The script object: the SHA-1 function and the digest accumulator
      @sha1_digestor that file_sha1 resets and reuses for every file. */
  class Fingerprinter {
    const sha1: Sha1Function
    const digestor: Sha1Digestor

    ghost predicate Valid()
    {
      digestor.sha1 == sha1
    }

    constructor (sha1: Sha1Function)
      ensures Valid() && this.sha1 == sha1
    {
      this.sha1 := sha1;
      digestor := new Sha1Digestor(sha1);
    }

    /** file_sha1 on an opened file: reset the accumulator, feed it the file
        4 MiB at a time until read returns nil, and give its hex digest. The
        digest is that of the whole file, whatever was absorbed before. */
    method FileSha1(contents: string) returns (hex: HexDigest)
      requires Valid()
      modifies digestor
      ensures digestor.absorbed == contents
      ensures hex == sha1(contents)
    {
      digestor.Reset();
      var pos := 0;
      var chunk := Read(contents, pos, CHUNK_SIZE);
      while chunk.Some?
        invariant pos <= |contents| && digestor.absorbed == contents[..pos]
        invariant chunk == Read(contents, pos, CHUNK_SIZE)
        decreases |contents| - pos
      {
        digestor.Absorb(chunk.value);
        pos := pos + |chunk.value|;
        chunk := Read(contents, pos, CHUNK_SIZE);
      }
      assert contents[..pos] == contents;
      hex := digestor.HexDigest();
    }

    /** reindex_recursive on the directory current, whose relative path is
        path: its entries in visiting order, bookkeeping names skipped,
        subdirectories walked where they fall, one manifest line per file. */
    method ReindexRecursive(path: seq<string>, current: Node, dir: Directory)
      requires Valid() && current.Dir?
      requires IsFileEntry(Lookup(dir.listing, FINGERPRINTS_FILENAME))
      modifies digestor, dir
      decreases current, 1
      ensures dir.listing == SetContents(old(dir.listing), FINGERPRINTS_FILENAME,
        ManifestContents(old(dir.listing)) + ManifestText(ListRecords(sha1, path, VisitOrder(current.children), current)))
    {
      var order := VisitOrder(current.children);
      ghost var start, before := ManifestContents(dir.listing), dir.listing;
      ghost var written := start;
      ManifestAsWritten(before);
      WalkStepText(sha1, path, order, current, 0, start);
      for i := 0 to |order|
        invariant written == start + ManifestText(ListRecords(sha1, path, order[..i], current))
        invariant dir.listing == SetContents(before, FINGERPRINTS_FILENAME, written)
      {
        assert order[i] in current.children;
        ghost var extra := ManifestText(NodeRecords(sha1, path, order[i]));
        assert IsFileEntry(Lookup(dir.listing, FINGERPRINTS_FILENAME)) by {
          AppendToManifest(before, written, extra);
        }
        ReindexEntry(path, order[i], dir);
        assert dir.listing == SetContents(before, FINGERPRINTS_FILENAME, written + extra) by {
          AppendToManifest(before, written, extra);
        }
        assert written + extra == start + ManifestText(ListRecords(sha1, path, order[..i + 1], current)) by {
          WalkStepText(sha1, path, order, current, i + 1, start);
        }
        written := written + extra;
      }
      assert dir.listing == SetContents(before, FINGERPRINTS_FILENAME,
          start + ManifestText(ListRecords(sha1, path, order, current))) by {
        assert order[..|order|] == order;
      }
    }

    /** One turn of the loop in reindex_recursive: a bookkeeping name is
        skipped, a directory is walked, a file gets its manifest line. */
    method ReindexEntry(path: seq<string>, child: Node, dir: Directory)
      requires Valid()
      requires IsFileEntry(Lookup(dir.listing, FINGERPRINTS_FILENAME))
      modifies digestor, dir
      decreases child, 2
      ensures dir.listing == SetContents(old(dir.listing), FINGERPRINTS_FILENAME,
        ManifestContents(old(dir.listing)) + ManifestText(NodeRecords(sha1, path, child)))
    {
      if IsBookkeeping(child.name) {
        BookkeepingRecords(sha1, path, child);
        ManifestAsWritten(dir.listing);
        assert ManifestContents(dir.listing) + [] == ManifestContents(dir.listing);
      } else if child.Dir? {
        DirectoryRecords(sha1, path, child);
        ReindexRecursive(path + [child.name], child, dir);
      } else {
        var hex := FileSha1(child.contents);
        dir.PutsToManifest(hex + " " + JoinPath(path + [child.name]));
        FileRecords(sha1, path, child);
      }
    }

    /** reindex: create the manifest (moving an old one onto the backup name)
        and walk the directory from its root. */
    method Reindex(dir: Directory) returns (r: Result<(), CreateError>)
      requires Valid()
      modifies digestor, dir
      ensures r.Err? ==> CreateManifest(old(dir.listing)) == Err(r.error) && dir.listing == old(dir.listing)
      ensures r.Ok? ==> CreateManifest(old(dir.listing)).Ok? && dir.listing == AfterReindex(sha1, old(dir.listing))
    {
      var outcome := dir.FingerprintsFileIn(true);
      if outcome.Err? {
        return Err(outcome.error);
      }
      ghost var created := dir.listing;
      assert created == CreateManifest(old(dir.listing)).value;
      assert IsFileEntry(Lookup(created, FINGERPRINTS_FILENAME)) && ManifestContents(created) == [] by {
        CreateManifestLeavesEmptyManifest(old(dir.listing));
      }
      ReindexRecursive([], Root(dir.listing), dir);
      assert dir.listing == AfterReindex(sha1, old(dir.listing)) by {
        assert ManifestContents(created) + ManifestText(Walk(sha1, created)) == ManifestText(Walk(sha1, created));
      }
      r := Ok(());
    }

    /** verify: read the manifest back, hash every recorded path anew in
        manifest order, and collect the progress marks and changed digests. */
    method Verify(dir: Directory) returns (r: Result<Verdict, VerifyError>)
      requires Valid()
      modifies digestor, dir
      ensures dir.listing == old(dir.listing)
      ensures r == Verification(sha1, dir.listing)
    {
      var outcome := dir.FingerprintsFileIn(false);
      var manifest := if outcome.Ok? then outcome.value else None;
      if manifest.None? {
        return Err(NoFingerprintsFile);
      }
      if manifest.value.Dir? {
        return Err(FingerprintsFileIsDirectory);
      }
      var fingerprints := ReadFingerprints(manifest.value.contents);
      ghost var probe := ProbeIn(sha1, dir.listing);
      ghost var n := |fingerprints.keys|;
      assert Verification(sha1, dir.listing) == Compare(probe, fingerprints, n);
      var progress, changed := [], Empty();
      for i := 0 to |fingerprints.keys|
        invariant dir.listing == old(dir.listing)
        invariant Compare(probe, fingerprints, i) == Ok(Verdict(progress, changed))
      {
        var key := fingerprints.keys[i];
        if key.None? {
          assert Compare(probe, fingerprints, n) == Err(NilPath) by {
            assert Compare(probe, fingerprints, i + 1) == Err(NilPath);
            CompareErrorPersists(probe, fingerprints, i + 1, n);
          }
          return Err(NilPath);
        }
        var path := key.value;
        match Resolve(dir.listing, Components(path)) {
          case NotFound =>
            assert Compare(probe, fingerprints, n) == Err(CannotOpen(path)) by {
              assert probe(path) == Err(CannotOpen(path));
              assert Compare(probe, fingerprints, i + 1) == Err(CannotOpen(path));
              CompareErrorPersists(probe, fingerprints, i + 1, n);
            }
            return Err(CannotOpen(path));
          case Directory =>
            assert Compare(probe, fingerprints, n) == Err(IsADirectory(path)) by {
              assert probe(path) == Err(IsADirectory(path));
              assert Compare(probe, fingerprints, i + 1) == Err(IsADirectory(path));
              CompareErrorPersists(probe, fingerprints, i + 1, n);
            }
            return Err(IsADirectory(path));
          case RegularFile(contents) =>
            if HasTrailingSlash(path) {
              assert Compare(probe, fingerprints, n) == Err(CannotOpen(path)) by {
                assert probe(path) == Err(CannotOpen(path));
                assert Compare(probe, fingerprints, i + 1) == Err(CannotOpen(path));
                CompareErrorPersists(probe, fingerprints, i + 1, n);
              }
              return Err(CannotOpen(path));
            }
            var current := FileSha1(contents);
            assert probe(path) == Ok(current);
            var recorded := fingerprints.values[key];
            if current != recorded {
              changed := changed.Store(path, current);
            }
            progress := progress + [Mark(current, recorded)];
        }
      }
      r := Ok(Verdict(progress, changed));
    }
  }

  // ---------------------------------------------------------------------
  // Steps of the walk

  /** The text written after the first i entries of a directory, and what
      the next entry adds to it. */
  lemma WalkStepText(sha1: Sha1Function, path: seq<string>, order: seq<Node>, current: Node, i: nat, start: string)
    requires current.Dir? && forall x | x in order :: x in current.children
    requires i <= |order|
    ensures i == 0 ==> start + ManifestText(ListRecords(sha1, path, order[..i], current)) == start
    ensures i > 0 ==>
      start + ManifestText(ListRecords(sha1, path, order[..i], current))
      == start + ManifestText(ListRecords(sha1, path, order[..i - 1], current)) + ManifestText(NodeRecords(sha1, path, order[i - 1]))
  {
    if i > 0 {
      var done := ListRecords(sha1, path, order[..i - 1], current);
      var next := NodeRecords(sha1, path, order[i - 1]);
      assert ListRecords(sha1, path, order[..i], current) == done + next by {
        assert order[..i][..i - 1] == order[..i - 1];
        assert order[i - 1] in current.children by { assert order[i - 1] in order; }
      }
      ManifestTextAppend(done, next);
      AppendAssociative(start, ManifestText(done), ManifestText(next));
    } else {
      assert ListRecords(sha1, path, order[..i], current) == [];
    }
  }

  lemma BookkeepingRecords(sha1: Sha1Function, path: seq<string>, child: Node)
    requires IsBookkeeping(child.name)
    ensures ManifestText(NodeRecords(sha1, path, child)) == []
  {
  }

  lemma DirectoryRecords(sha1: Sha1Function, path: seq<string>, child: Node)
    requires child.Dir? && !IsBookkeeping(child.name)
    ensures NodeRecords(sha1, path, child) == ListRecords(sha1, path + [child.name], VisitOrder(child.children), child)
  {
  }

  lemma FileRecords(sha1: Sha1Function, path: seq<string>, child: Node)
    requires child.File? && !IsBookkeeping(child.name)
    ensures ManifestText(NodeRecords(sha1, path, child)) == Puts(sha1(child.contents) + " " + JoinPath(path + [child.name]))
  {
    var record := Record(sha1(child.contents), path + [child.name]);
    assert NodeRecords(sha1, path, child) == [record];
    ManifestTextSnoc([], record);
    assert [] + [record] == [record];
  }

  // ---------------------------------------------------------------------
  // Reindex, then verify

  /** The entries reindex leaves next to the listing's own are the two
      bookkeeping files, whose names survive the manifest. */
  lemma CreatedIsLineSafe(listing: seq<Node>)
    requires WellFormedListing(listing) && forall x | x in listing :: LineSafeTree(x)
    requires CreateManifest(listing).Ok?
    ensures WellFormedListing(CreateManifest(listing).value)
    ensures forall x | x in CreateManifest(listing).value :: LineSafeTree(x)
  {
    CreateManifestEntries(listing);
    forall x | x in CreateManifest(listing).value ensures LineSafeTree(x) {
      if x !in listing {
        assert x.name == FINGERPRINTS_FILENAME || x.name == FINGERPRINTS_BACKUP_FILENAME;
        assert x.name[|x.name| - 1] == 's' || x.name[|x.name| - 1] == 'k';
        assert forall i | 0 <= i < |x.name| :: x.name[i] != '\n';
      }
    }
  }

  /** Writing the manifest does not move anything reached through another
      first component. */
  lemma ResolveBesideManifest(created: seq<Node>, text: string, path: seq<string>)
    requires IsFileEntry(Lookup(created, FINGERPRINTS_FILENAME))
    requires path != [] && path[0] != FINGERPRINTS_FILENAME
    ensures Resolve(SetContents(created, FINGERPRINTS_FILENAME, text), path) == Resolve(created, path)
  {
    WriteManifest(created, text);
  }

  /** A record of the walk reads back, in the directory as reindex left it,
      as its own hash. */
  lemma RecordReadsBack(sha1: Sha1Function, created: seq<Node>, text: string, r: Record)
    requires IsFileEntry(Lookup(created, FINGERPRINTS_FILENAME))
    requires Locates(sha1, created, r.path, r.hash) && AllEntryNames(r.path)
    requires r.path != [] && !IsBookkeeping(r.path[0])
    ensures CurrentHash(sha1, SetContents(created, FINGERPRINTS_FILENAME, text), JoinPath(r.path)) == Ok(r.hash)
  {
    HashAtJoinedPath(sha1, SetContents(created, FINGERPRINTS_FILENAME, text), r.path);
    ResolveBesideManifest(created, text, r.path);
  }

  /** No two records of the walk are written with the same relative path. */
  lemma WalkPathsAreDistinct(sha1: Sha1Function, listing: seq<Node>)
    requires WellFormedListing(listing)
    ensures var w := Walk(sha1, listing);
      forall i, j | 0 <= i < j < |w| :: JoinPath(w[i].path) != JoinPath(w[j].path)
  {
    var w := Walk(sha1, listing);
    WalkIsInOrder(sha1, listing);
    WalkRecordsResolve(sha1, listing);
    forall i, j | 0 <= i < j < |w| ensures JoinPath(w[i].path) != JoinPath(w[j].path) {
      assert w[i] in w && w[j] in w;
      ComponentsOfJoinPath(w[i].path);
      ComponentsOfJoinPath(w[j].path);
    }
  }

  /** The fingerprints verify reads back after reindex: one entry per file
      of the walk, in walk order, each with the hash written for it. */
  lemma ReindexedFingerprints(sha1: Sha1Function, listing: seq<Node>)
    requires WellFormedListing(listing) && forall x | x in listing :: LineSafeTree(x)
    requires CreateManifest(listing).Ok?
    ensures var w := Walk(sha1, CreateManifest(listing).value);
      var fingerprints := DecodeManifest(ManifestText(w));
      && fingerprints.Valid()
      && |fingerprints.keys| == |w|
      && forall i | 0 <= i < |w| ::
        && fingerprints.keys[i] == Some(JoinPath(w[i].path))
        && fingerprints.values[Some(JoinPath(w[i].path))] == w[i].hash
  {
    var created := CreateManifest(listing).value;
    var w := Walk(sha1, created);
    CreatedIsLineSafe(listing);
    WalkRecordsAreLineSafe(sha1, created);
    ManifestRoundTrip(w);
    WalkPathsAreDistinct(sha1, created);
    IndexOfDistinctPaths(w);
  }

  /** Reindex, then verify: on a tree whose names survive the manifest,
      verify right after reindex finds every file, prints one '.' per file
      and reports that all files are OK. */
  lemma ReindexThenVerifyFindsNoChange(sha1: Sha1Function, listing: seq<Node>)
    requires WellFormedListing(listing) && forall x | x in listing :: LineSafeTree(x)
    requires CreateManifest(listing).Ok?
    ensures var n := |Walk(sha1, CreateManifest(listing).value)|;
      Verification(sha1, AfterReindex(sha1, listing)) == Ok(Verdict(seq(n, _ => '.'), Empty()))
  {
    var created := CreateManifest(listing).value;
    var w := Walk(sha1, created);
    var text := ManifestText(w);
    var after := AfterReindex(sha1, listing);
    CreateManifestLeavesEmptyManifest(listing);
    WriteManifest(created, text);
    var fingerprints := DecodeManifest(text);
    var probe := ProbeIn(sha1, after);
    assert Verification(sha1, after) == Compare(probe, fingerprints, |fingerprints.keys|);
    ReindexedFingerprints(sha1, listing);
    assert after == SetContents(created, FINGERPRINTS_FILENAME, text);
    forall i | 0 <= i < |w| ensures Locates(sha1, created, w[i].path, w[i].hash) && AllEntryNames(w[i].path) {
      assert w[i] in w;
      CreatedIsLineSafe(listing);
      WalkRecordsResolve(sha1, created);
    }
    forall i | 0 <= i < |w| ensures w[i].path != [] && !IsBookkeeping(w[i].path[0]) {
      assert w[i] in w;
    }
    forall i | 0 <= i < |fingerprints.keys|
      ensures Current(probe, fingerprints.keys[i]) == Ok(fingerprints.values[fingerprints.keys[i]])
    {
      RecordReadsBack(sha1, created, text, w[i]);
      assert fingerprints.keys[i] == Some(JoinPath(w[i].path));
      assert probe(JoinPath(w[i].path)) == CurrentHash(sha1, after, JoinPath(w[i].path));
    }
    CompareAllMatch(probe, fingerprints, |fingerprints.keys|);
  }

  /** Reindex twice: the second run moves the manifest the first one wrote
      to the backup name and starts a fresh empty manifest, unless a
      directory already sits at the backup name. */
  lemma ReindexTwiceBacksUpFirstManifest(sha1: Sha1Function, listing: seq<Node>)
    requires DistinctNames(listing) && CreateManifest(listing).Ok?
    requires !IsDirectoryEntry(Lookup(listing, FINGERPRINTS_BACKUP_FILENAME))
    ensures var text := ManifestText(Walk(sha1, CreateManifest(listing).value));
      var again := CreateManifest(AfterReindex(sha1, listing));
      && again.Ok?
      && Lookup(again.value, FINGERPRINTS_BACKUP_FILENAME) == Some(File(FINGERPRINTS_BACKUP_FILENAME, text))
      && Lookup(again.value, FINGERPRINTS_FILENAME) == Some(File(FINGERPRINTS_FILENAME, []))
  {
    var created := CreateManifest(listing).value;
    var text := ManifestText(Walk(sha1, created));
    var after := AfterReindex(sha1, listing);
    CreateManifestOutcome(listing);
    assert IsFileEntry(Lookup(created, FINGERPRINTS_FILENAME));
    SetContentsKeepsDistinctNames(created, FINGERPRINTS_FILENAME, text);
    LookupSetContents(created, FINGERPRINTS_FILENAME, text, FINGERPRINTS_FILENAME);
    LookupSetContents(created, FINGERPRINTS_FILENAME, text, FINGERPRINTS_BACKUP_FILENAME);
    assert Lookup(after, FINGERPRINTS_FILENAME) == Some(File(FINGERPRINTS_FILENAME, text));
    assert !IsDirectoryEntry(Lookup(after, FINGERPRINTS_BACKUP_FILENAME));
    CreateManifestOutcome(after);
  }

  /** The directory reindex leaves is again one the file system can hold. */
  lemma AfterReindexIsWellFormed(sha1: Sha1Function, listing: seq<Node>)
    requires WellFormedListing(listing) && CreateManifest(listing).Ok?
    ensures WellFormedListing(AfterReindex(sha1, listing))
  {
    var created := CreateManifest(listing).value;
    var text := ManifestText(Walk(sha1, created));
    CreateManifestEntries(listing);
    BookkeepingNamesAreEntryNames();
    SetContentsKeepsWellFormed(created, FINGERPRINTS_FILENAME, text);
  }

  /** Idempotence: reindexing a directory a second time writes the same
      manifest as the first time. The files outside the bookkeeping names
      are untouched, so the second walk meets the same records, and the walk
      order admits only one sequence of them. */
  lemma ReindexTwiceWritesSameManifest(sha1: Sha1Function, listing: seq<Node>)
    requires WellFormedListing(listing) && CreateManifest(listing).Ok?
    requires !IsDirectoryEntry(Lookup(listing, FINGERPRINTS_BACKUP_FILENAME))
    ensures var again := CreateManifest(AfterReindex(sha1, listing));
      && again.Ok?
      && Walk(sha1, again.value) == Walk(sha1, CreateManifest(listing).value)
      && ManifestText(Walk(sha1, again.value)) == ManifestText(Walk(sha1, CreateManifest(listing).value))
  {
    var created := CreateManifest(listing).value;
    var after := AfterReindex(sha1, listing);
    ReindexTwiceBacksUpFirstManifest(sha1, listing);
    var again := CreateManifest(after).value;
    CreateManifestEntries(listing);
    AfterReindexIsWellFormed(sha1, listing);
    CreateManifestEntries(after);
    WalkIsInOrder(sha1, created);
    WalkIsInOrder(sha1, again);
    assert Ordinary(again) == Ordinary(created) by {
      CreateManifestKeepsOrdinary(after);
      OrdinarySetContents(created, FINGERPRINTS_FILENAME, ManifestText(Walk(sha1, created)));
    }
    assert multiset(Walk(sha1, again)) == multiset(Walk(sha1, created)) by {
      WalkCoversEveryFile(sha1, created);
      WalkCoversEveryFile(sha1, again);
      ListingRecordsOfOrdinary(sha1, [], created);
      ListingRecordsOfOrdinary(sha1, [], again);
    }
    InWalkOrderIsUnique(Walk(sha1, again), Walk(sha1, created));
  }
}
