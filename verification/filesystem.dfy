/** The fingerprinted directory as state: the entries it lists, the manifest
    handle fingerprints_file_in opens or creates in it, and the writes the
    walk makes through that handle. */
module FileSystem {
  import opened Wrappers
  import opened RubyText
  import opened Tree

  // ---------------------------------------------------------------------
  // Entry-level updates of a listing

  /** Distinct names, one entry taken apart. */
  lemma DistinctNamesCons(x: Node, s: seq<Node>)
    ensures DistinctNames([x] + s) <==> DistinctNames(s) && forall y | y in s :: y.name != x.name
  {
    var t := [x] + s;
    if DistinctNames(t) {
      forall i, j | 0 <= i < j < |s| ensures s[i].name != s[j].name {
        assert t[i + 1] == s[i] && t[j + 1] == s[j];
      }
      forall y | y in s ensures y.name != x.name {
        var k :| 0 <= k < |s| && s[k] == y;
        assert t[0] == x && t[k + 1] == y;
      }
    }
    if DistinctNames(s) && forall y | y in s :: y.name != x.name {
      forall i, j | 0 <= i < j < |t| ensures t[i].name != t[j].name {
        assert t[j] == s[j - 1] && t[j] in s;
        if i > 0 { assert t[i] == s[i - 1]; }
      }
    }
  }

  /** The listing without the entries of this name (unlink). */
  function Remove(listing: seq<Node>, name: string): (r: seq<Node>)
    ensures forall x | x in r :: x in listing && x.name != name
    ensures forall x | x in listing && x.name != name :: x in r
  {
    if listing == [] then []
    else (if listing[0].name == name then [] else [listing[0]]) + Remove(listing[1..], name)
  }

  lemma {:induction false} LookupRemove(listing: seq<Node>, name: string, other: string)
    ensures Lookup(Remove(listing, name), other) == if other == name then None else Lookup(listing, other)
  {
    if listing != [] {
      LookupRemove(listing[1..], name, other);
      if listing[0].name == name {
        assert Remove(listing, name) == Remove(listing[1..], name);
      } else {
        assert Remove(listing, name) == [listing[0]] + Remove(listing[1..], name);
      }
    }
  }

  lemma {:induction false} RemoveKeepsDistinctNames(listing: seq<Node>, name: string)
    requires DistinctNames(listing)
    ensures DistinctNames(Remove(listing, name))
  {
    if listing != [] {
      DistinctNamesCons(listing[0], listing[1..]);
      assert listing == [listing[0]] + listing[1..];
      RemoveKeepsDistinctNames(listing[1..], name);
      if listing[0].name != name {
        DistinctNamesCons(listing[0], Remove(listing[1..], name));
      } else {
        assert Remove(listing, name) == [] + Remove(listing[1..], name);
      }
    }
  }

  /** The same entry under another name. */
  function WithName(n: Node, name: string): (r: Node)
    ensures r.name == name && r.File? == n.File?
    ensures r.File? ==> r.contents == n.contents
    ensures r.Dir? ==> r.children == n.children
  {
    match n
    case File(_, contents) => File(name, contents)
    case Dir(_, children) => Dir(name, children)
  }

  /** The listing with the entry named from renamed to. */
  function Rename(listing: seq<Node>, from: string, to: string): (r: seq<Node>)
    ensures |r| == |listing|
    ensures forall x | x in r :: x in listing || (x.name == to && exists y | y in listing :: y.name == from && x == WithName(y, to))
  {
    if listing == [] then []
    else
      var head := if listing[0].name == from then WithName(listing[0], to) else listing[0];
      [head] + Rename(listing[1..], from, to)
  }

  lemma {:induction false} LookupRename(listing: seq<Node>, from: string, to: string, other: string)
    requires from != to && Lookup(listing, to).None?
    ensures Lookup(Rename(listing, from, to), other) ==
      if other == to then (match Lookup(listing, from) case Some(x) => Some(WithName(x, to)) case None => None)
      else if other == from then None
      else Lookup(listing, other)
    decreases |listing|
  {
    if listing != [] {
      LookupRename(listing[1..], from, to, other);
      if listing[0].name == from && other == from {
        LookupRename(listing[1..], from, to, from);
      }
    }
  }

  lemma {:induction false} RenameKeepsDistinctNames(listing: seq<Node>, from: string, to: string)
    requires DistinctNames(listing) && Lookup(listing, to).None?
    ensures DistinctNames(Rename(listing, from, to))
  {
    if listing != [] {
      var x := listing[0];
      var x' := if x.name == from then WithName(x, to) else x;
      DistinctNamesCons(x, listing[1..]);
      assert listing == [x] + listing[1..];
      assert Lookup(listing[1..], to).None?;
      RenameKeepsDistinctNames(listing[1..], from, to);
      var rest := Rename(listing[1..], from, to);
      forall y | y in rest ensures y.name != x'.name {
        if y !in listing[1..] {
          var z :| z in listing[1..] && z.name == from && y == WithName(z, to);
          assert z.name != x.name;
        }
      }
      DistinctNamesCons(x', rest);
    }
  }

  /** The listing with the entry of this name, when it is a regular file,
      given new contents. */
  function SetContents(listing: seq<Node>, name: string, contents: string): (r: seq<Node>)
    ensures |r| == |listing|
    ensures forall i | 0 <= i < |r| :: r[i].name == listing[i].name
    ensures forall x | x in r :: x in listing || x == File(name, contents)
  {
    if listing == [] then []
    else if listing[0].name == name then
      (if listing[0].File? then [File(name, contents)] else [listing[0]]) + listing[1..]
    else [listing[0]] + SetContents(listing[1..], name, contents)
  }

  /** Writing back what the file holds changes nothing. */
  lemma {:induction false} SetContentsUnchanged(listing: seq<Node>, name: string)
    requires IsFileEntry(Lookup(listing, name))
    ensures SetContents(listing, name, Lookup(listing, name).value.contents) == listing
  {
    if listing[0].name != name {
      SetContentsUnchanged(listing[1..], name);
    }
  }

  lemma {:induction false} LookupSetContents(listing: seq<Node>, name: string, contents: string, other: string)
    ensures Lookup(SetContents(listing, name, contents), other) ==
      if other == name && Lookup(listing, name).Some? && Lookup(listing, name).value.File? then Some(File(name, contents))
      else Lookup(listing, other)
  {
    if listing != [] {
      LookupSetContents(listing[1..], name, contents, other);
    }
  }

  /** Writing twice leaves what the second write put there. */
  lemma {:induction false} SetContentsTwice(listing: seq<Node>, name: string, a: string, b: string)
    ensures SetContents(SetContents(listing, name, a), name, b) == SetContents(listing, name, b)
  {
    if listing != [] {
      SetContentsTwice(listing[1..], name, a, b);
    }
  }

  lemma SetContentsKeepsDistinctNames(listing: seq<Node>, name: string, contents: string)
    requires DistinctNames(listing)
    ensures DistinctNames(SetContents(listing, name, contents))
  {
  }

  // ---------------------------------------------------------------------
  // fingerprints_file_in

  /** What makes fingerprints_file_in(create: true) stop: abort on a
      directory at the manifest path, or File.rename refusing to replace a
      directory at the backup path with a file. */
  datatype CreateError = ManifestPathIsDirectory | BackupPathIsDirectory

  predicate IsDirectoryEntry(found: Option<Node>)
  {
    found.Some? && found.value.Dir?
  }

  predicate IsFileEntry(found: Option<Node>)
  {
    found.Some? && found.value.File?
  }

  /** fingerprints_file_in(dir, create: true), as the listing it leaves: an
      existing manifest is renamed onto the backup name (replacing any old
      backup file), then an empty manifest is created. */
  function CreateManifest(listing: seq<Node>): (r: Result<seq<Node>, CreateError>)
    ensures r == Err(ManifestPathIsDirectory) <==> IsDirectoryEntry(Lookup(listing, FINGERPRINTS_FILENAME))
    ensures r == Err(BackupPathIsDirectory) <==>
      IsFileEntry(Lookup(listing, FINGERPRINTS_FILENAME)) && IsDirectoryEntry(Lookup(listing, FINGERPRINTS_BACKUP_FILENAME))
    ensures r.Ok? ==> r.value != [] && r.value[|r.value| - 1] == File(FINGERPRINTS_FILENAME, [])
  {
    var manifest := Lookup(listing, FINGERPRINTS_FILENAME);
    if IsDirectoryEntry(manifest) then Err(ManifestPathIsDirectory)
    else if manifest.Some? then
      if IsDirectoryEntry(Lookup(listing, FINGERPRINTS_BACKUP_FILENAME)) then Err(BackupPathIsDirectory)
      else
        var moved := Rename(Remove(listing, FINGERPRINTS_BACKUP_FILENAME), FINGERPRINTS_FILENAME, FINGERPRINTS_BACKUP_FILENAME);
        Ok(moved + [File(FINGERPRINTS_FILENAME, [])])
    else Ok(listing + [File(FINGERPRINTS_FILENAME, [])])
  }

  lemma {:induction false} LookupAppend(listing: seq<Node>, x: Node, name: string)
    ensures Lookup(listing + [x], name) == if Lookup(listing, name).None? && x.name == name then Some(x) else Lookup(listing, name)
  {
    if listing != [] {
      assert (listing + [x])[1..] == listing[1..] + [x];
      LookupAppend(listing[1..], x, name);
    }
  }

  /** What the backup path holds after a successful creation. */
  function Backup(listing: seq<Node>): Option<Node>
  {
    match Lookup(listing, FINGERPRINTS_FILENAME)
    case Some(previous) => Some(WithName(previous, FINGERPRINTS_BACKUP_FILENAME))
    case None => Lookup(listing, FINGERPRINTS_BACKUP_FILENAME)
  }

  /** Everything a successful creation promises about the listing it leaves. */
  ghost predicate CreatedFrom(created: seq<Node>, listing: seq<Node>)
  {
    && Lookup(created, FINGERPRINTS_FILENAME) == Some(File(FINGERPRINTS_FILENAME, []))
    && Lookup(created, FINGERPRINTS_BACKUP_FILENAME) == Backup(listing)
    && (forall name | !IsBookkeeping(name) :: Lookup(created, name) == Lookup(listing, name))
    && DistinctNames(created)
  }

  lemma AppendFreshName(listing: seq<Node>, x: Node)
    requires DistinctNames(listing) && Lookup(listing, x.name).None?
    ensures DistinctNames(listing + [x])
  {
    var t := listing + [x];
    forall i, j | 0 <= i < j < |t| ensures t[i].name != t[j].name {
      if j < |listing| {
        assert t[i] == listing[i] && t[j] == listing[j];
      } else {
        assert t[i] == listing[i] && t[i] in listing;
      }
    }
  }

  lemma CreateFresh(listing: seq<Node>)
    requires DistinctNames(listing) && Lookup(listing, FINGERPRINTS_FILENAME).None?
    ensures CreatedFrom(listing + [File(FINGERPRINTS_FILENAME, [])], listing)
  {
    var created := File(FINGERPRINTS_FILENAME, []);
    LookupAppend(listing, created, FINGERPRINTS_FILENAME);
    LookupAppend(listing, created, FINGERPRINTS_BACKUP_FILENAME);
    forall name | !IsBookkeeping(name)
      ensures Lookup(listing + [created], name) == Lookup(listing, name)
    {
      LookupAppend(listing, created, name);
    }
    AppendFreshName(listing, created);
  }

  lemma CreateOverPrevious(listing: seq<Node>)
    requires DistinctNames(listing) && Lookup(listing, FINGERPRINTS_FILENAME).Some?
    ensures var moved := Rename(Remove(listing, FINGERPRINTS_BACKUP_FILENAME), FINGERPRINTS_FILENAME, FINGERPRINTS_BACKUP_FILENAME);
      CreatedFrom(moved + [File(FINGERPRINTS_FILENAME, [])], listing)
  {
    var M, B := FINGERPRINTS_FILENAME, FINGERPRINTS_BACKUP_FILENAME;
    var created := File(M, []);
    var removed := Remove(listing, B);
    var moved := Rename(removed, M, B);
    LookupRemove(listing, B, B);
    RemoveKeepsDistinctNames(listing, B);
    RenameKeepsDistinctNames(removed, M, B);
    LookupRemove(listing, B, M);
    LookupRename(removed, M, B, M);
    LookupAppend(moved, created, M);
    LookupRename(removed, M, B, B);
    LookupAppend(moved, created, B);
    forall name | !IsBookkeeping(name)
      ensures Lookup(moved + [created], name) == Lookup(listing, name)
    {
      LookupRemove(listing, B, name);
      LookupRename(removed, M, B, name);
      LookupAppend(moved, created, name);
    }
    AppendFreshName(moved, created);
  }

  /** Whatever the names in the directory, a successful creation leaves an
      empty regular file at the manifest path. */
  lemma CreateManifestLeavesEmptyManifest(listing: seq<Node>)
    requires CreateManifest(listing).Ok?
    ensures Lookup(CreateManifest(listing).value, FINGERPRINTS_FILENAME) == Some(File(FINGERPRINTS_FILENAME, []))
  {
    var M, B := FINGERPRINTS_FILENAME, FINGERPRINTS_BACKUP_FILENAME;
    var created := File(M, []);
    if Lookup(listing, M).Some? {
      var removed := Remove(listing, B);
      var moved := Rename(removed, M, B);
      LookupRemove(listing, B, B);
      LookupRename(removed, M, B, M);
      LookupAppend(moved, created, M);
    } else {
      LookupAppend(listing, created, M);
    }
  }

  /** Manifest creation: a directory at the manifest path aborts, and so does
      a directory at the backup path when there is a manifest to move;
      otherwise the manifest afterwards exists and is empty, the backup holds
      the old manifest if there was one (and is untouched if not), and every
      other entry is as before. */
  lemma CreateManifestOutcome(listing: seq<Node>)
    requires DistinctNames(listing)
    ensures var r := CreateManifest(listing);
      && (r == Err(ManifestPathIsDirectory) <==> IsDirectoryEntry(Lookup(listing, FINGERPRINTS_FILENAME)))
      && (r == Err(BackupPathIsDirectory) <==>
            IsFileEntry(Lookup(listing, FINGERPRINTS_FILENAME)) && IsDirectoryEntry(Lookup(listing, FINGERPRINTS_BACKUP_FILENAME)))
      && (r.Ok? ==> CreatedFrom(r.value, listing))
  {
    var manifest := Lookup(listing, FINGERPRINTS_FILENAME);
    if manifest.None? {
      CreateFresh(listing);
    } else if !IsDirectoryEntry(manifest) && !IsDirectoryEntry(Lookup(listing, FINGERPRINTS_BACKUP_FILENAME)) {
      CreateOverPrevious(listing);
    }
  }

  /** Creation keeps the directory well formed, and every entry it shows is
      one it had before or a bookkeeping file. */
  lemma CreateManifestEntries(listing: seq<Node>)
    requires WellFormedListing(listing) && CreateManifest(listing).Ok?
    ensures WellFormedListing(CreateManifest(listing).value)
    ensures forall x | x in CreateManifest(listing).value :: x in listing || (x.File? && IsBookkeeping(x.name))
  {
    CreateManifestOutcome(listing);
    var M, B := FINGERPRINTS_FILENAME, FINGERPRINTS_BACKUP_FILENAME;
    var created := CreateManifest(listing).value;
    var manifest := Lookup(listing, M);
    forall x | x in created ensures x in listing || (x.File? && IsBookkeeping(x.name)) {
      if manifest.Some? {
        var moved := Rename(Remove(listing, B), M, B);
        assert created == moved + [File(M, [])];
        if x in moved && x !in Remove(listing, B) {
          var y :| y in Remove(listing, B) && y.name == M && x == WithName(y, B);
          LookupFindsEntry(listing, y);
        }
      }
    }
    forall x | x in created ensures WellFormed(x) {
      if x !in listing {
        assert IsEntryName(x.name) by {
          assert x.name == M || x.name == B;
          assert '/' !in M && '/' !in B;
        }
      }
    }
  }

  /** Writing a file keeps the directory one the file system can hold. */
  lemma SetContentsKeepsWellFormed(listing: seq<Node>, name: string, contents: string)
    requires WellFormedListing(listing) && IsEntryName(name)
    ensures WellFormedListing(SetContents(listing, name, contents))
  {
    SetContentsKeepsDistinctNames(listing, name, contents);
    forall x | x in SetContents(listing, name, contents) ensures WellFormed(x) {
      if x !in listing {
        assert x == File(name, contents);
      }
    }
  }

  // ---------------------------------------------------------------------
  // The directory as mutable state

  /** The text of the manifest file, if there is one. */
  function ManifestContents(listing: seq<Node>): string
  {
    match Lookup(listing, FINGERPRINTS_FILENAME)
    case Some(File(_, contents)) => contents
    case _ => []
  }

  /** A write through the manifest handle lands in the manifest and only there. */
  /** Appending to the manifest after it holds written leaves it holding
      written followed by the addition, and still a regular file. */
  lemma AppendToManifest(listing: seq<Node>, written: string, extra: string)
    requires IsFileEntry(Lookup(listing, FINGERPRINTS_FILENAME))
    ensures var now := SetContents(listing, FINGERPRINTS_FILENAME, written);
      && IsFileEntry(Lookup(now, FINGERPRINTS_FILENAME))
      && SetContents(now, FINGERPRINTS_FILENAME, ManifestContents(now) + extra)
         == SetContents(listing, FINGERPRINTS_FILENAME, written + extra)
  {
    WriteManifest(listing, written);
    SetContentsTwice(listing, FINGERPRINTS_FILENAME, written, written + extra);
  }

  /** The manifest as it stands is the manifest holding its own contents. */
  lemma ManifestAsWritten(listing: seq<Node>)
    requires IsFileEntry(Lookup(listing, FINGERPRINTS_FILENAME))
    ensures SetContents(listing, FINGERPRINTS_FILENAME, ManifestContents(listing)) == listing
  {
    SetContentsUnchanged(listing, FINGERPRINTS_FILENAME);
  }

  lemma WriteManifest(listing: seq<Node>, contents: string)
    requires IsFileEntry(Lookup(listing, FINGERPRINTS_FILENAME))
    ensures var written := SetContents(listing, FINGERPRINTS_FILENAME, contents);
      && Lookup(written, FINGERPRINTS_FILENAME) == Some(File(FINGERPRINTS_FILENAME, contents))
      && ManifestContents(written) == contents
      && forall name | name != FINGERPRINTS_FILENAME :: Lookup(written, name) == Lookup(listing, name)
  {
    var written := SetContents(listing, FINGERPRINTS_FILENAME, contents);
    LookupSetContents(listing, FINGERPRINTS_FILENAME, contents, FINGERPRINTS_FILENAME);
    forall name | name != FINGERPRINTS_FILENAME ensures Lookup(written, name) == Lookup(listing, name) {
      LookupSetContents(listing, FINGERPRINTS_FILENAME, contents, name);
    }
  }

  /** The directory being fingerprinted or verified: its entries, in the
      order the operating system lists them. */
  class Directory {
    var listing: seq<Node>

    constructor (listing: seq<Node>)
      ensures this.listing == listing
    {
      this.listing := listing;
    }

    /** fingerprints_file_in(dir_path, create:): in create mode the empty
        manifest just created (after moving an existing one onto the backup
        name) or the reason creation stopped; in read mode the manifest entry
        if it exists, with nothing changed. */
    method FingerprintsFileIn(create: bool) returns (r: Result<Option<Node>, CreateError>)
      modifies this
      ensures create ==> match CreateManifest(old(listing))
        case Ok(created) => listing == created && r == Ok(Some(File(FINGERPRINTS_FILENAME, [])))
        case Err(e) => listing == old(listing) && r == Err(e)
      ensures !create ==> listing == old(listing) && r == Ok(Lookup(listing, FINGERPRINTS_FILENAME))
    {
      var manifest := Lookup(listing, FINGERPRINTS_FILENAME);
      if create {
        if IsDirectoryEntry(manifest) {
          return Err(ManifestPathIsDirectory);
        }
        if manifest.Some? {
          if IsDirectoryEntry(Lookup(listing, FINGERPRINTS_BACKUP_FILENAME)) {
            return Err(BackupPathIsDirectory);
          }
          listing := Rename(Remove(listing, FINGERPRINTS_BACKUP_FILENAME), FINGERPRINTS_FILENAME, FINGERPRINTS_BACKUP_FILENAME);
        }
        listing := listing + [File(FINGERPRINTS_FILENAME, [])];
        r := Ok(Some(File(FINGERPRINTS_FILENAME, [])));
      } else {
        r := Ok(manifest);
      }
    }

    /** fingerprints_file.puts(line) on the manifest opened for writing. */
    method PutsToManifest(line: string)
      requires IsFileEntry(Lookup(listing, FINGERPRINTS_FILENAME))
      modifies this
      ensures listing == SetContents(old(listing), FINGERPRINTS_FILENAME, ManifestContents(old(listing)) + Puts(line))
    {
      listing := SetContents(listing, FINGERPRINTS_FILENAME, ManifestContents(listing) + Puts(line));
    }
  }

  // ---------------------------------------------------------------------
  // What the bookkeeping leaves alone

  lemma {:induction false} OrdinaryRemove(listing: seq<Node>, name: string)
    requires IsBookkeeping(name)
    ensures Ordinary(Remove(listing, name)) == Ordinary(listing)
  {
    if listing != [] {
      OrdinaryRemove(listing[1..], name);
      var rest := Remove(listing[1..], name);
      if listing[0].name == name {
        assert Remove(listing, name) == rest;
      } else {
        assert Remove(listing, name) == [listing[0]] + rest;
        assert ([listing[0]] + rest)[1..] == rest;
      }
    }
  }

  lemma {:induction false} OrdinaryRename(listing: seq<Node>, from: string, to: string)
    requires IsBookkeeping(from) && IsBookkeeping(to)
    ensures Ordinary(Rename(listing, from, to)) == Ordinary(listing)
  {
    if listing != [] {
      OrdinaryRename(listing[1..], from, to);
      var r := Rename(listing, from, to);
      assert r[1..] == Rename(listing[1..], from, to);
      assert IsBookkeeping(r[0].name) == IsBookkeeping(listing[0].name);
      assert !IsBookkeeping(listing[0].name) ==> r[0] == listing[0];
    }
  }

  lemma {:induction false} OrdinarySetContents(listing: seq<Node>, name: string, contents: string)
    requires IsBookkeeping(name)
    ensures Ordinary(SetContents(listing, name, contents)) == Ordinary(listing)
  {
    if listing != [] && listing[0].name != name {
      OrdinarySetContents(listing[1..], name, contents);
      var r := SetContents(listing, name, contents);
      assert r == [listing[0]] + SetContents(listing[1..], name, contents);
      assert r[1..] == SetContents(listing[1..], name, contents);
    } else if listing != [] {
      var r := SetContents(listing, name, contents);
      assert r[1..] == listing[1..];
    }
  }

  lemma {:induction false} OrdinaryAppendBookkeeping(listing: seq<Node>, x: Node)
    requires IsBookkeeping(x.name)
    ensures Ordinary(listing + [x]) == Ordinary(listing)
  {
    if listing == [] {
      assert ([] + [x])[1..] == [];
    } else {
      assert (listing + [x])[1..] == listing[1..] + [x];
      OrdinaryAppendBookkeeping(listing[1..], x);
    }
  }

  /** Creating the manifest moves and adds bookkeeping entries only: every
      other entry stays where it was. */
  lemma CreateManifestKeepsOrdinary(listing: seq<Node>)
    requires CreateManifest(listing).Ok?
    ensures Ordinary(CreateManifest(listing).value) == Ordinary(listing)
  {
    var M, B := FINGERPRINTS_FILENAME, FINGERPRINTS_BACKUP_FILENAME;
    if Lookup(listing, M).Some? {
      var removed := Remove(listing, B);
      OrdinaryRemove(listing, B);
      OrdinaryRename(removed, M, B);
      OrdinaryAppendBookkeeping(Rename(removed, M, B), File(M, []));
    } else {
      OrdinaryAppendBookkeeping(listing, File(M, []));
    }
  }
}
