/** The manifest codec: the line reindex_recursive writes for each file, and
    the positional decoding verify applies to every line it reads back. */
module Manifest {
  import opened Wrappers
  import opened RubyText
  import opened RubyHash
  import opened Digests
  import opened Tree

  /** One fingerprint: the digest of a file and its path relative to the
      fingerprinted directory, as the components of that Pathname. */
  datatype Record = Record(hash: HexDigest, path: seq<string>)

  /** "#{hash} #{relative path}": the string put for each file. */
  function RecordLine(r: Record): (line: string)
    ensures |line| == SHA1_LEN + 1 + |JoinPath(r.path)|
    ensures line[..SHA1_LEN] == r.hash && line[SHA1_LEN] == ' '
    ensures line[SHA1_LEN + 1..] == JoinPath(r.path)
  {
    r.hash + " " + JoinPath(r.path)
  }

  /** The manifest text after putting the records' lines one after another:
      empty exactly when nothing was put, otherwise ending with a line feed,
      and at least 41 characters for every record. */
  function ManifestText(records: seq<Record>): (text: string)
    ensures text == [] <==> records == []
    ensures records != [] ==> EndsWithLineFeed(text)
    ensures |text| >= (SHA1_LEN + 1) * |records|
  {
    if records == [] then []
    else ManifestText(records[..|records| - 1]) + Puts(RecordLine(records[|records| - 1]))
  }

  lemma ManifestTextSnoc(records: seq<Record>, r: Record)
    ensures ManifestText(records + [r]) == ManifestText(records) + Puts(RecordLine(r))
  {
    var all := records + [r];
    assert all[..|all| - 1] == records;
  }

  lemma ManifestTextAppendStep(a: seq<Record>, init: seq<Record>, last: Record)
    requires ManifestText(a + init) == ManifestText(a) + ManifestText(init)
    ensures ManifestText(a + (init + [last])) == ManifestText(a) + ManifestText(init + [last])
  {
    AppendAssociative(a, init, [last]);
    ManifestTextSnoc(a + init, last);
    ManifestTextSnoc(init, last);
    AppendAssociative(ManifestText(a), ManifestText(init), Puts(RecordLine(last)));
  }

  /** Putting two runs of records one after the other writes the two texts
      one after the other. */
  lemma {:induction false} ManifestTextAppend(a: seq<Record>, b: seq<Record>)
    ensures ManifestText(a + b) == ManifestText(a) + ManifestText(b)
    decreases |b|
  {
    if b == [] {
      assert a + b == a && ManifestText(b) == [];
      assert ManifestText(a) + [] == ManifestText(a);
    } else {
      var init, last := b[..|b| - 1], b[|b| - 1];
      assert b == init + [last];
      ManifestTextAppend(a, init);
      ManifestTextAppendStep(a, init, last);
    }
  }

  /** What decoding makes of one line: the path (nil for a short line) and the hash. */
  datatype Entry = Entry(path: Option<string>, hash: string)

  /** The body of the each_line block in verify: strip the line, take
      line[0..(sha1_len - 1)] as the hash and line[(sha1_len + 1)..] as the path. */
  function DecodeLine(line: string): (e: Entry)
    ensures |e.hash| <= SHA1_LEN
    ensures e.path.None? <==> |Strip(line)| <= SHA1_LEN
    ensures e.path.Some? ==> |e.hash| == SHA1_LEN
  {
    var stripped := Strip(line);
    var hash := SliceRange(stripped, 0, SHA1_LEN - 1);
    Entry(SliceFrom(stripped, SHA1_LEN + 1), hash.value)
  }

  /** Decoding is positional: the hash is the first (at most) 40 characters of
      the stripped line, the path is everything from index 41 on, and a line
      shorter than 41 characters has a nil path; a line of exactly 41 has "". */
  lemma DecodeLineIsPositional(line: string)
    ensures var s := Strip(line);
      && DecodeLine(line).hash == s[..if |s| < SHA1_LEN then |s| else SHA1_LEN]
      && (DecodeLine(line).path.None? <==> |s| < SHA1_LEN + 1)
      && (|s| >= SHA1_LEN + 1 ==> DecodeLine(line).path == Some(s[SHA1_LEN + 1..]))
      && (|s| == SHA1_LEN + 1 ==> DecodeLine(line).path == Some([]))
  {
    var s := Strip(line);
    if |s| == SHA1_LEN + 1 {
      assert s[SHA1_LEN + 1..] == [];
    }
  }

  /** The character between hash and path is dropped unchecked, and spaces
      inside the path survive: a line of 40 characters, any character and a
      path, read back with its line feed, gives that path and that hash. */
  lemma SeparatorIsNotChecked(hash: string, separator: char, path: string)
    requires |hash| == SHA1_LEN && !IsStripSpace(hash[0])
    requires path != [] && !IsStripSpace(path[|path| - 1])
    ensures DecodeLine(hash + [separator] + path + "\n") == Entry(Some(path), hash)
  {
    var text := hash + [separator] + path;
    assert Strip(text + "\n") == text by {
      assert text[0] == hash[0] && text[|text| - 1] == path[|path| - 1];
      StripLine(text);
    }
    assert SliceRange(text, 0, SHA1_LEN - 1) == Some(hash) by {
      assert text[..SHA1_LEN] == hash;
    }
    assert SliceFrom(text, SHA1_LEN + 1) == Some(path) by {
      assert text[SHA1_LEN + 1..] == path;
    }
  }

  /** A record whose line survives the trip: proper entry names without line
      feeds, and a file name that does not end in a strip space. */
  predicate IsLineSafe(r: Record)
  {
    && r.path != []
    && (forall c | c in r.path :: IsEntryName(c) && '\n' !in c)
    && var name := Last(r.path); name != [] && !IsStripSpace(name[|name| - 1])
  }

  function Last(path: seq<string>): string
    requires path != []
  {
    path[|path| - 1]
  }

  lemma {:induction false} JoinPathShape(components: seq<string>)
    requires components != []
    requires forall c | c in components :: IsEntryName(c) && '\n' !in c
    ensures JoinPath(components) != []
    ensures '\n' !in JoinPath(components)
    ensures var name := Last(components);
      name != [] && JoinPath(components)[|JoinPath(components)| - 1] == name[|name| - 1]
  {
    assert Last(components) in components;
    if |components| > 1 {
      JoinPathShape(components[1..]);
      var c, rest := components[0], JoinPath(components[1..]);
      assert JoinPath(components) == c + "/" + rest;
      assert Last(components) == Last(components[1..]);
    }
  }

  lemma HexDigestHasNoStripSpace(h: HexDigest)
    ensures forall i | 0 <= i < |h| :: !IsStripSpace(h[i])
  {
    forall i | 0 <= i < |h| ensures !IsStripSpace(h[i]) { assert IsLowerHex(h[i]); }
  }

  /** Line round trip: the line written for a record decodes to its relative
      path and its hash. */
  lemma RecordLineRoundTrip(r: Record)
    requires IsLineSafe(r)
    ensures '\n' !in RecordLine(r)
    ensures Puts(RecordLine(r)) == RecordLine(r) + "\n"
    ensures DecodeLine(Puts(RecordLine(r))) == Entry(Some(JoinPath(r.path)), r.hash)
  {
    JoinPathShape(r.path);
    HexDigestHasNoStripSpace(r.hash);
    var path := JoinPath(r.path);
    var line := RecordLine(r);
    assert line == r.hash + [' '] + path;
    assert line[|line| - 1] == path[|path| - 1];
    assert '\n' !in line by {
      forall i | 0 <= i < |line| ensures line[i] != '\n' {
        if i < SHA1_LEN { assert line[i] == r.hash[i]; }
        else if i > SHA1_LEN { assert line[i] == path[i - SHA1_LEN - 1]; }
      }
    }
    SeparatorIsNotChecked(r.hash, ' ', path);
  }

  /** A space between the path and the line feed is dropped with it. */
  lemma SpaceBeforeLineFeedIsDropped(hash: string, path: string)
    requires |hash| == SHA1_LEN && !IsStripSpace(hash[0])
    requires path != [] && !IsStripSpace(path[|path| - 1])
    ensures DecodeLine(hash + " " + path + " \n") == Entry(Some(path), hash)
  {
    var text := hash + " " + path;
    assert hash + " " + path + " \n" == text + " \n";
    assert Strip(text + " \n") == text by {
      assert text[0] == hash[0] && text[|text| - 1] == path[|path| - 1];
      StripSpaceBeforeLineFeed(text);
    }
    assert SliceRange(text, 0, SHA1_LEN - 1) == Some(hash) by {
      assert text[..SHA1_LEN] == hash;
    }
    assert SliceFrom(text, SHA1_LEN + 1) == Some(path) by {
      assert text[SHA1_LEN + 1..] == path;
    }
  }

  /** The strip in decoding also eats strip spaces that end a file name:
      the line written for a file named "a " reads back with the path "a". */
  lemma TrailingSpaceIsLost(h: HexDigest)
    ensures DecodeLine(Puts(RecordLine(Record(h, ["a "])))) == Entry(Some("a"), h)
  {
    assert Puts(RecordLine(Record(h, ["a "]))) == h + " " + "a" + " \n";
    assert !IsStripSpace(h[0]) by { HexDigestHasNoStripSpace(h); }
    SpaceBeforeLineFeedIsDropped(h, "a");
  }

  // ---------------------------------------------------------------------
  // The manifest as a whole

  /** fingerprints[relative_path] = hash for every line, in order. */
  function DecodeLines(lines: seq<string>): (d: Dict<Option<string>, string>)
    ensures d.Valid()
    ensures |d.keys| <= |lines|
    ensures lines != [] ==> d.keys != []
  {
    if lines == [] then Empty()
    else
      var e := DecodeLine(lines[|lines| - 1]);
      DecodeLines(lines[..|lines| - 1]).Store(e.path, e.hash)
  }

  /** Reading the manifest text: each_line, then the decoding of every line. */
  function DecodeManifest(text: string): (d: Dict<Option<string>, string>)
    ensures d.Valid()
    ensures d.keys == [] <==> text == []
    ensures |d.keys| <= |text|
  {
    DecodeLines(EachLine(text))
  }

  /** The decode loop of verify, line by line into the fingerprints hash. */
  method ReadFingerprints(text: string) returns (fingerprints: Dict<Option<string>, string>)
    ensures fingerprints == DecodeManifest(text)
    ensures fingerprints.Valid()
  {
    var lines := EachLine(text);
    fingerprints := Empty();
    for i := 0 to |lines|
      invariant fingerprints == DecodeLines(lines[..i])
    {
      var line := Strip(lines[i]);
      var hash := SliceRange(line, 0, SHA1_LEN - 1);
      var relativePath := SliceFrom(line, SHA1_LEN + 1);
      DecodeStep(lines, i);
      fingerprints := fingerprints.Store(relativePath, hash.value);
    }
    assert lines[..|lines|] == lines;
  }

  lemma DecodeStep(lines: seq<string>, i: nat)
    requires i < |lines|
    ensures var e := DecodeLine(lines[i]);
      DecodeLines(lines[..i + 1]) == DecodeLines(lines[..i]).Store(e.path, e.hash)
  {
    assert lines[..i + 1][..i] == lines[..i] && lines[..i + 1][i] == lines[i];
  }

  /** Every line's path is a key of the fingerprints hash. */
  lemma {:induction false} LinePathsAreKeys(lines: seq<string>)
    ensures forall i | 0 <= i < |lines| :: DecodeLine(lines[i]).path in DecodeLines(lines).values
  {
    if lines != [] {
      var init := lines[..|lines| - 1];
      LinePathsAreKeys(init);
      forall i | 0 <= i < |lines| - 1 ensures DecodeLine(lines[i]).path in DecodeLines(lines).values {
        assert lines[i] == init[i];
      }
    }
  }

  /** Every key of the fingerprints hash is the path of some line. */
  lemma {:induction false} KeyIsLinePath(lines: seq<string>, k: Option<string>) returns (i: nat)
    requires k in DecodeLines(lines).values
    ensures i < |lines| && DecodeLine(lines[i]).path == k
  {
    var init := lines[..|lines| - 1];
    var last := DecodeLine(lines[|lines| - 1]);
    if k == last.path {
      i := |lines| - 1;
    } else {
      assert k in DecodeLines(init).values;
      i := KeyIsLinePath(init, k);
      assert lines[i] == init[i];
    }
  }

  /** When a path occurs on several lines the last of them decides its hash. */
  lemma {:induction false} LastLineWins(lines: seq<string>, i: nat)
    requires i < |lines|
    requires forall j | i < j < |lines| :: DecodeLine(lines[j]).path != DecodeLine(lines[i]).path
    ensures DecodeLine(lines[i]).path in DecodeLines(lines).values
    ensures DecodeLines(lines).values[DecodeLine(lines[i]).path] == DecodeLine(lines[i]).hash
  {
    var init := lines[..|lines| - 1];
    if i < |lines| - 1 {
      assert lines[i] == init[i];
      forall j | i < j < |init| ensures DecodeLine(init[j]).path != DecodeLine(init[i]).path {
        assert init[j] == lines[j];
      }
      LastLineWins(init, i);
    }
  }

  /** The path-to-hash index the manifest stands for: record by record, a
      later record for the same path overriding an earlier one. */
  function Index(records: seq<Record>): (d: Dict<Option<string>, string>)
    ensures d.Valid()
  {
    if records == [] then Empty()
    else
      var r := records[|records| - 1];
      Index(records[..|records| - 1]).Store(Some(JoinPath(r.path)), r.hash)
  }

  /** Manifest round trip: reading back the text written for line-safe
      records gives exactly their path-to-hash index. */
  lemma {:induction false} ManifestRoundTrip(records: seq<Record>)
    requires forall r | r in records :: IsLineSafe(r)
    ensures DecodeManifest(ManifestText(records)) == Index(records)
    ensures ManifestText(records) == [] || EndsWithLineFeed(ManifestText(records))
  {
    if records != [] {
      var init, r := records[..|records| - 1], records[|records| - 1];
      ManifestRoundTrip(init);
      RecordLineRoundTrip(r);
      assert ManifestText(records) == ManifestText(init) + (RecordLine(r) + "\n");
      DecodeManifestSnoc(ManifestText(init), RecordLine(r));
    }
  }

  /** Reading a text followed by one more full line: the entry of that line
      is stored last. */
  lemma DecodeManifestSnoc(text: string, line: string)
    requires text == [] || EndsWithLineFeed(text)
    requires '\n' !in line
    ensures var e := DecodeLine(line + "\n");
      DecodeManifest(text + (line + "\n")) == DecodeManifest(text).Store(e.path, e.hash)
  {
    EachLineAppend(text, line + "\n");
    EachLineSplitsAfterLineFeed(line, []);
    assert line + "\n" + [] == line + "\n";
    var lines := EachLine(text + (line + "\n"));
    assert lines == EachLine(text) + [line + "\n"];
    assert lines[..|lines| - 1] == EachLine(text);
  }

  /** For records with distinct paths, the index holds every path once, in
      record order, with its own record's hash. */
  lemma {:induction false} IndexOfDistinctPaths(records: seq<Record>)
    requires forall i, j | 0 <= i < j < |records| :: JoinPath(records[i].path) != JoinPath(records[j].path)
    ensures |Index(records).keys| == |records|
    ensures forall i | 0 <= i < |records| ::
      && Index(records).keys[i] == Some(JoinPath(records[i].path))
      && Index(records).values[Some(JoinPath(records[i].path))] == records[i].hash
  {
    if records != [] {
      var init := records[..|records| - 1];
      forall i, j | 0 <= i < j < |init| ensures JoinPath(init[i].path) != JoinPath(init[j].path) {
        assert init[i] == records[i] && init[j] == records[j];
      }
      IndexOfDistinctPaths(init);
      IndexGrowsByNewPath(records);
    }
  }

  /** The step of IndexOfDistinctPaths: a path not seen before goes to the end. */
  lemma IndexGrowsByNewPath(records: seq<Record>)
    requires records != []
    requires forall i, j | 0 <= i < j < |records| :: JoinPath(records[i].path) != JoinPath(records[j].path)
    requires var init := records[..|records| - 1];
      && |Index(init).keys| == |init|
      && forall i | 0 <= i < |init| ::
        && Index(init).keys[i] == Some(JoinPath(init[i].path))
        && Index(init).values[Some(JoinPath(init[i].path))] == init[i].hash
    ensures |Index(records).keys| == |records|
    ensures forall i | 0 <= i < |records| ::
      && Index(records).keys[i] == Some(JoinPath(records[i].path))
      && Index(records).values[Some(JoinPath(records[i].path))] == records[i].hash
  {
    var init, r := records[..|records| - 1], records[|records| - 1];
    var prev, key := Index(init), Some(JoinPath(r.path));
    forall i | 0 <= i < |prev.keys| ensures prev.keys[i] != key {
      assert init[i] == records[i];
    }
    var next := Index(records);
    assert next == prev.Store(key, r.hash);
    StoreNewKey(prev, key, r.hash);
    forall i | 0 <= i < |records|
      ensures next.keys[i] == Some(JoinPath(records[i].path))
      ensures next.values[Some(JoinPath(records[i].path))] == records[i].hash
    {
      if i < |records| - 1 {
        assert init[i] == records[i];
      }
    }
  }
}
