/** What verify concludes: the recorded fingerprints compared, entry by
    entry in manifest order, with the digests of the files as they are now. */
module Verifier {
  import opened Wrappers
  import opened RubyText
  import opened RubyHash
  import opened Digests
  import opened Tree
  import opened Manifest

  /** How verify can stop short of a verdict: abort when there is no
      manifest, or an exception it does not rescue. */
  datatype VerifyError =
    | NoFingerprintsFile          // abort: no fingerprints file found
    | FingerprintsFileIsDirectory // each_line on a directory raises EISDIR
    | NilPath                     // dir_path + nil raises TypeError
    | CannotOpen(path: string)    // File.open raises ENOENT or ENOTDIR
    | IsADirectory(path: string)  // reading a directory raises EISDIR

  /** file_sha1(dir_path + relative_path) for one relative path: opening
      fails when nothing is there, or when a trailing slash follows a regular
      file (ENOTDIR); reading fails on a directory. */
  function CurrentHash(sha1: Sha1Function, listing: seq<Node>, path: string): (r: Result<HexDigest, VerifyError>)
    ensures r.Err? ==> r.error == CannotOpen(path) || r.error == IsADirectory(path)
    ensures r.Ok? <==> Resolve(listing, Components(path)).RegularFile? && !HasTrailingSlash(path)
    ensures r.Ok? ==> r.value == sha1(Resolve(listing, Components(path)).contents)
  {
    match Resolve(listing, Components(path))
    case NotFound => Err(CannotOpen(path))
    case Directory => Err(IsADirectory(path))
    case RegularFile(contents) => if HasTrailingSlash(path) then Err(CannotOpen(path)) else Ok(sha1(contents))
  }

  /** The path the walk writes for a sequence of entry names reads back as
      exactly what those names resolve to. */
  lemma HashAtJoinedPath(sha1: Sha1Function, listing: seq<Node>, components: seq<string>)
    requires components != [] && forall c | c in components :: IsEntryName(c)
    ensures var path := JoinPath(components);
      CurrentHash(sha1, listing, path) ==
        match Resolve(listing, components)
        case NotFound => Err(CannotOpen(path))
        case Directory => Err(IsADirectory(path))
        case RegularFile(contents) => Ok(sha1(contents))
  {
    ComponentsOfJoinPath(components);
    JoinPathHasNoTrailingSlash(components);
  }

  /** A trailing slash after a regular file's name does not open the file:
      "x/" with a file x fails, although its components are those of "x". */
  lemma TrailingSlashOnFileCannotOpen(sha1: Sha1Function)
    ensures Components("x/") == Components("x") == ["x"]
    ensures CurrentHash(sha1, [File("x", "abc")], "x") == Ok(sha1("abc"))
    ensures CurrentHash(sha1, [File("x", "abc")], "x/") == Err(CannotOpen("x/"))
  {
    assert FirstIndex("x", '/') == 1 && "x"[..1] == "x";
    assert Components("x") == ["x"];
    assert FirstIndex("x/", '/') == 1 && "x/"[..1] == "x";
    assert "x/"[2..] == [];
    assert Components([]) == [];
    assert Components("x/") == ["x"] + Components([]);
  }

  /** What file_sha1 gives now for each relative path: a digest, or the
      error that stops verify. */
  type Probe = string -> Result<HexDigest, VerifyError>

  /** The probe of verify on a directory. */
  function ProbeIn(sha1: Sha1Function, listing: seq<Node>): Probe
  {
    path => CurrentHash(sha1, listing, path)
  }

  /** The current digest for a manifest key: a nil key fails before any file
      is opened. */
  function Current(probe: Probe, key: Option<string>): Result<HexDigest, VerifyError>
  {
    match key
    case None => Err(NilPath)
    case Some(path) => probe(path)
  }

  /** The progress character printed for one entry. */
  function Mark(current: string, recorded: string): char
  {
    if current == recorded then '.' else 'F'
  }

  /** The progress printed and the changed_hashes collected. */
  datatype Verdict = Verdict(progress: string, changed: Dict<string, string>)

  /** The fingerprints.each loop over the first n entries. */
  function Compare(probe: Probe, fingerprints: Dict<Option<string>, string>, n: nat): (r: Result<Verdict, VerifyError>)
    requires fingerprints.Valid() && n <= |fingerprints.keys|
    ensures r.Ok? ==> |r.value.progress| == n && r.value.changed.Valid()
  {
    if n == 0 then Ok(Verdict([], Empty()))
    else
      match Compare(probe, fingerprints, n - 1)
      case Err(e) => Err(e)
      case Ok(v) =>
        var key := fingerprints.keys[n - 1];
        match key
        case None => Err(NilPath)
        case Some(path) =>
          match probe(path)
          case Err(e) => Err(e)
          case Ok(current) =>
            var recorded := fingerprints.values[key];
            var changed := if current != recorded then v.changed.Store(path, current) else v.changed;
            Ok(Verdict(v.progress + [Mark(current, recorded)], changed))
  }

  /** The key's file can be read now and its digest differs from the one recorded. */
  predicate IsChanged(probe: Probe, fingerprints: Dict<Option<string>, string>, key: Option<string>)
    requires fingerprints.Valid() && key in fingerprints.keys
  {
    var current := Current(probe, key);
    current.Ok? && current.value != fingerprints.values[key]
  }

  /** The loop stops at the first entry whose file cannot be read, with
      that entry's error, and completes when every file can be read. */
  lemma {:induction false} CompareStopsAtFirstError(probe: Probe, fingerprints: Dict<Option<string>, string>, n: nat)
    requires fingerprints.Valid() && n <= |fingerprints.keys|
    ensures var r := Compare(probe, fingerprints, n);
      && (r.Ok? <==> forall i | 0 <= i < n :: Current(probe, fingerprints.keys[i]).Ok?)
      && (r.Err? ==> exists i | 0 <= i < n ::
            && Current(probe, fingerprints.keys[i]) == Err(r.error)
            && forall j | 0 <= j < i :: Current(probe, fingerprints.keys[j]).Ok?)
    decreases n
  {
    if n > 0 {
      CompareStopsAtFirstError(probe, fingerprints, n - 1);
      var prev := Compare(probe, fingerprints, n - 1);
      var r := Compare(probe, fingerprints, n);
      var last := Current(probe, fingerprints.keys[n - 1]);
      if prev.Err? {
        assert r == prev;
      } else if last.Err? {
        assert r == Err(last.error);
      } else {
        assert r.Ok?;
      }
    }
  }

  /** Once an entry has failed, the outcome of the loop no longer changes. */
  lemma {:induction false} CompareErrorPersists(probe: Probe, fingerprints: Dict<Option<string>, string>, i: nat, n: nat)
    requires fingerprints.Valid() && i <= n <= |fingerprints.keys|
    requires Compare(probe, fingerprints, i).Err?
    ensures Compare(probe, fingerprints, n) == Compare(probe, fingerprints, i)
    decreases n
  {
    if n > i {
      CompareErrorPersists(probe, fingerprints, i, n - 1);
    }
  }

  /** Progress: one character per entry, '.' where the current digest equals
      the recorded hash and 'F' where it does not. */
  lemma {:induction false} CompareProgress(probe: Probe, fingerprints: Dict<Option<string>, string>, n: nat)
    requires fingerprints.Valid() && n <= |fingerprints.keys|
    ensures var r := Compare(probe, fingerprints, n);
      r.Ok? ==> forall i | 0 <= i < n ::
        && Current(probe, fingerprints.keys[i]).Ok?
        && r.value.progress[i] == Mark(Current(probe, fingerprints.keys[i]).value, fingerprints.values[fingerprints.keys[i]])
    decreases n
  {
    var r := Compare(probe, fingerprints, n);
    if n > 0 && r.Ok? {
      CompareProgress(probe, fingerprints, n - 1);
      var key := fingerprints.keys[n - 1];
      var v := Compare(probe, fingerprints, n - 1).value;
      var current := Current(probe, key).value;
      assert r.value.progress == v.progress + [Mark(current, fingerprints.values[key])];
      forall i | 0 <= i < n
        ensures Current(probe, fingerprints.keys[i]).Ok?
        ensures r.value.progress[i] == Mark(Current(probe, fingerprints.keys[i]).value, fingerprints.values[fingerprints.keys[i]])
      {
        if i < n - 1 {
          assert r.value.progress[i] == v.progress[i];
        }
      }
    }
  }

  /** Changed set: a path is in it exactly when it is a manifest entry whose
      file's digest now differs from the recorded one, and it maps to that
      current digest. */
  lemma {:induction false} CompareChanged(probe: Probe, fingerprints: Dict<Option<string>, string>, n: nat)
    requires fingerprints.Valid() && n <= |fingerprints.keys|
    ensures var r := Compare(probe, fingerprints, n);
      && (r.Ok? ==> forall path: string ::
            path in r.value.changed.values <==> Some(path) in fingerprints.keys[..n] && IsChanged(probe, fingerprints, Some(path)))
      && (r.Ok? ==> forall path | path in r.value.changed.values ::
            probe(path) == Ok(r.value.changed.values[path]))
    decreases n
  {
    if n > 0 {
      CompareChanged(probe, fingerprints, n - 1);
      var keys := fingerprints.keys;
      assert keys[..n] == keys[..n - 1] + [keys[n - 1]];
      var prev := Compare(probe, fingerprints, n - 1);
      var r := Compare(probe, fingerprints, n);
      if r.Ok? {
        var key := keys[n - 1];
        var v := prev.value;
        var current := Current(probe, key).value;
        var recorded := fingerprints.values[key];
        var init := keys[..n - 1];
        assert key !in init by {
          forall j | 0 <= j < |init| ensures init[j] != key {
            assert init[j] == keys[j];
          }
        }
        assert IsChanged(probe, fingerprints, key) <==> current != recorded;
        var changed := r.value.changed;
        if current != recorded {
          assert changed.values == v.changed.values[key.value := current];
        } else {
          assert changed == v.changed;
        }
        forall path: string
          ensures path in changed.values <==> Some(path) in keys[..n] && IsChanged(probe, fingerprints, Some(path))
        {
          if Some(path) == key {
            assert path !in v.changed.values;
          }
        }
      }
    }
  }

  /** verify on a directory: the manifest read back and compared. */
  function Verification(sha1: Sha1Function, listing: seq<Node>): (r: Result<Verdict, VerifyError>)
    ensures r == Err(NoFingerprintsFile) <==> Lookup(listing, FINGERPRINTS_FILENAME).None?
    ensures r == Err(FingerprintsFileIsDirectory) <==>
      Lookup(listing, FINGERPRINTS_FILENAME).Some? && Lookup(listing, FINGERPRINTS_FILENAME).value.Dir?
    ensures r.Ok? ==> Lookup(listing, FINGERPRINTS_FILENAME).Some? && Lookup(listing, FINGERPRINTS_FILENAME).value.File?
    ensures r.Ok? ==> (r.value.changed.Valid() &&
      |r.value.progress| == |DecodeManifest(Lookup(listing, FINGERPRINTS_FILENAME).value.contents).keys|)
  {
    match Lookup(listing, FINGERPRINTS_FILENAME)
    case None => Err(NoFingerprintsFile)
    case Some(Dir(_, _)) => Err(FingerprintsFileIsDirectory)
    case Some(File(_, text)) =>
      var fingerprints := DecodeManifest(text);
      CompareInDirectoryFails(sha1, listing, fingerprints);
      Compare(ProbeIn(sha1, listing), fingerprints, |fingerprints.keys|)
  }

  /** Comparing against a directory fails only on a nil path or on a file
      that cannot be opened or read. */
  lemma CompareInDirectoryFails(sha1: Sha1Function, listing: seq<Node>, fingerprints: Dict<Option<string>, string>)
    requires fingerprints.Valid()
    ensures var r := Compare(ProbeIn(sha1, listing), fingerprints, |fingerprints.keys|);
      r.Err? ==> r.error.NilPath? || r.error.CannotOpen? || r.error.IsADirectory?
  {
    var probe := ProbeIn(sha1, listing);
    var r := Compare(probe, fingerprints, |fingerprints.keys|);
    CompareStopsAtFirstError(probe, fingerprints, |fingerprints.keys|);
    if r.Err? {
      var i :| 0 <= i < |fingerprints.keys| && Current(probe, fingerprints.keys[i]) == Err(r.error);
      var key := fingerprints.keys[i];
      if key.Some? {
        assert probe(key.value) == CurrentHash(sha1, listing, key.value);
      }
    }
  }

  const ALL_OK := "All files are OK"
  const CORRUPTED_HEADER := "CORRUPTED FILES FOUND:"

  /** "#{corrupted_file}  (New hash: #{new_hash})" */
  function CorruptedLine(path: string, current: string): string
  {
    path + "  (New hash: " + current + ")"
  }

  function CorruptedLines(paths: seq<string>, changed: map<string, string>): (lines: seq<string>)
    requires forall p | p in paths :: p in changed
    ensures |lines| == |paths|
    ensures forall i | 0 <= i < |paths| :: lines[i] == CorruptedLine(paths[i], changed[paths[i]])
  {
    if paths == [] then []
    else CorruptedLines(paths[..|paths| - 1], changed) + [CorruptedLine(paths[|paths| - 1], changed[paths[|paths| - 1]])]
  }

  /** The lines put after the progress: the verdict and the corrupted files. */
  function Report(changed: Dict<string, string>): (lines: seq<string>)
    requires changed.Valid()
    ensures lines != [] && (lines[0] == ALL_OK <==> changed.IsEmpty())
    ensures changed.IsEmpty() ==> lines == [ALL_OK]
    ensures !changed.IsEmpty() ==> lines[0] == CORRUPTED_HEADER && |lines| == 1 + |changed.keys|
    ensures !changed.IsEmpty() ==> forall i | 0 <= i < |changed.keys| ::
      lines[i + 1] == CorruptedLine(changed.keys[i], changed.values[changed.keys[i]])
  {
    if changed.IsEmpty() then [ALL_OK]
    else [CORRUPTED_HEADER] + CorruptedLines(changed.keys, changed.values)
  }

  lemma NothingChangedAllDots(probe: Probe, fingerprints: Dict<Option<string>, string>)
    requires fingerprints.Valid()
    requires Compare(probe, fingerprints, |fingerprints.keys|).Ok?
    requires Compare(probe, fingerprints, |fingerprints.keys|).value.changed.values == map[]
    ensures var v := Compare(probe, fingerprints, |fingerprints.keys|).value;
      forall i | 0 <= i < |v.progress| :: v.progress[i] == '.'
  {
    var n := |fingerprints.keys|;
    CompareProgress(probe, fingerprints, n);
    CompareChanged(probe, fingerprints, n);
    var v := Compare(probe, fingerprints, n).value;
    assert fingerprints.keys[..n] == fingerprints.keys;
    forall i | 0 <= i < n ensures v.progress[i] == '.' {
      var key := fingerprints.keys[i];
      assert Current(probe, key).Ok?;
      assert key == Some(key.value) && key in fingerprints.keys[..n];
      assert key.value !in v.changed.values;
    }
  }

  lemma ChangedShowsF(probe: Probe, fingerprints: Dict<Option<string>, string>) returns (i: nat)
    requires fingerprints.Valid()
    requires Compare(probe, fingerprints, |fingerprints.keys|).Ok?
    requires Compare(probe, fingerprints, |fingerprints.keys|).value.changed.values != map[]
    ensures var v := Compare(probe, fingerprints, |fingerprints.keys|).value;
      i < |v.progress| && v.progress[i] == 'F'
  {
    var n := |fingerprints.keys|;
    var v := Compare(probe, fingerprints, n).value;
    var path :| path in v.changed.values;
    assert Some(path) in fingerprints.keys && IsChanged(probe, fingerprints, Some(path)) by {
      CompareChanged(probe, fingerprints, n);
      assert fingerprints.keys[..n] == fingerprints.keys;
    }
    i :| 0 <= i < n && fingerprints.keys[i] == Some(path);
    assert v.progress[i] == 'F' by {
      CompareProgress(probe, fingerprints, n);
    }
  }

  /** "All files are OK" is reported exactly when nothing changed, that is
      exactly when every progress mark is '.'; otherwise one line per changed
      path follows the header, in the order the paths were first found. */
  lemma AllOkIffNothingChanged(probe: Probe, fingerprints: Dict<Option<string>, string>)
    requires fingerprints.Valid()
    requires Compare(probe, fingerprints, |fingerprints.keys|).Ok?
    ensures var v := Compare(probe, fingerprints, |fingerprints.keys|).value;
      && (Report(v.changed)[0] == ALL_OK <==> v.changed.values == map[])
      && (Report(v.changed)[0] == ALL_OK <==> forall i | 0 <= i < |v.progress| :: v.progress[i] == '.')
      && (Report(v.changed)[0] != ALL_OK ==> |Report(v.changed)| == 1 + |v.changed.keys|)
  {
    var n := |fingerprints.keys|;
    var v := Compare(probe, fingerprints, n).value;
    EmptyIffNoKeys(v.changed);
    if v.changed.values == map[] {
      NothingChangedAllDots(probe, fingerprints);
    } else {
      var i := ChangedShowsF(probe, fingerprints);
    }
  }

  /** When every entry's file still has its recorded digest, the loop prints
      only dots and collects nothing. */
  lemma {:induction false} CompareAllMatch(probe: Probe, fingerprints: Dict<Option<string>, string>, n: nat)
    requires fingerprints.Valid() && n <= |fingerprints.keys|
    requires forall i | 0 <= i < n :: Current(probe, fingerprints.keys[i]) == Ok(fingerprints.values[fingerprints.keys[i]])
    ensures Compare(probe, fingerprints, n) == Ok(Verdict(seq(n, _ => '.'), Empty()))
    decreases n
  {
    if n > 0 {
      CompareAllMatch(probe, fingerprints, n - 1);
      assert seq(n, _ => '.') == seq(n - 1, _ => '.') + ['.'];
      var key := fingerprints.keys[n - 1];
      assert Current(probe, key) == Ok(fingerprints.values[key]);
      assert key.Some? && probe(key.value) == Ok(fingerprints.values[key]);
      assert Mark(fingerprints.values[key], fingerprints.values[key]) == '.';
    } else {
      assert seq(n, _ => '.') == [];
    }
  }
}
