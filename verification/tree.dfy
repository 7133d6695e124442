/** The directory tree the script walks: entries, the order Pathname sorts
    them in, the sort-then-partition visiting order, and path resolution. */
module Tree {
  import opened Wrappers
  import opened RubyText

  /** The manifest's name inside the fingerprinted directory. */
  const FINGERPRINTS_FILENAME := ".syncrb.fingerprints"
  /** The name the previous manifest is renamed to. */
  const FINGERPRINTS_BACKUP_FILENAME := ".syncrb.fingerprints.bak"

  /** The two names the walk skips at every depth. */
  predicate IsBookkeeping(name: string)
  {
    name == FINGERPRINTS_FILENAME || name == FINGERPRINTS_BACKUP_FILENAME
  }

  /** A directory entry: a regular file with its contents, or a directory
      with its entries in the order the operating system lists them. */
  datatype Node = File(name: string, contents: string) | Dir(name: string, children: seq<Node>)

  // ---------------------------------------------------------------------
  // Name order

  /** Byte-wise lexicographic order, a proper prefix first: what Pathname#<=>
      amounts to for two entries of the same directory. */
  predicate NameBefore(a: string, b: string)
  {
    if a == [] then b != []
    else b != [] && (a[0] < b[0] || (a[0] == b[0] && NameBefore(a[1..], b[1..])))
  }

  lemma {:induction false} NameBeforeIrreflexive(a: string)
    ensures !NameBefore(a, a)
  {
    if a != [] { NameBeforeIrreflexive(a[1..]); }
  }

  lemma {:induction false} NameBeforeTransitive(a: string, b: string, c: string)
    requires NameBefore(a, b) && NameBefore(b, c)
    ensures NameBefore(a, c)
  {
    if a != [] && a[0] == b[0] && b[0] == c[0] {
      NameBeforeTransitive(a[1..], b[1..], c[1..]);
    }
  }

  lemma {:induction false} NameBeforeTotal(a: string, b: string)
    ensures a == b || NameBefore(a, b) || NameBefore(b, a)
  {
    if a != [] && b != [] && a[0] == b[0] {
      NameBeforeTotal(a[1..], b[1..]);
      if a[1..] == b[1..] {
        assert a == [a[0]] + a[1..] && b == [b[0]] + b[1..];
      }
    }
  }

  /** No entry is strictly before an earlier one. */
  predicate SortedByName(s: seq<Node>)
  {
    forall i, j | 0 <= i < j < |s| :: !NameBefore(s[j].name, s[i].name)
  }

  lemma NameBeforeAsymmetric(a: string, b: string)
    requires NameBefore(a, b)
    ensures !NameBefore(b, a)
  {
    if NameBefore(b, a) {
      NameBeforeTransitive(a, b, a);
      NameBeforeIrreflexive(a);
    }
  }

  /** Insert x in front of the first entry that is not before it. */
  function Insert(x: Node, s: seq<Node>): (r: seq<Node>)
    ensures multiset(r) == multiset(s) + multiset{x}
  {
    if s == [] || !NameBefore(s[0].name, x.name) then [x] + s
    else
      assert s == [s[0]] + s[1..];
      [s[0]] + Insert(x, s[1..])
  }

  /** An entry that no entry of a sorted run comes before can go in front of it. */
  lemma ConsSorted(x: Node, t: seq<Node>)
    requires SortedByName(t)
    requires forall y | y in t :: !NameBefore(y.name, x.name)
    ensures SortedByName([x] + t)
  {
    var r := [x] + t;
    forall i, j | 0 <= i < j < |r| ensures !NameBefore(r[j].name, r[i].name) {
      assert r[j] == t[j - 1] && r[j] in t;
      if i > 0 { assert r[i] == t[i - 1]; }
    }
  }

  /** No entry of a sorted run comes before its first entry. */
  lemma SortedHeadFirst(s: seq<Node>)
    requires SortedByName(s) && s != []
    ensures forall y | y in s[1..] :: !NameBefore(y.name, s[0].name)
  {
    forall y | y in s[1..] ensures !NameBefore(y.name, s[0].name) {
      var idx :| 0 <= idx < |s[1..]| && s[1..][idx] == y;
      assert s[idx + 1] == y;
    }
  }

  lemma {:induction false} InsertKeepsOrder(x: Node, s: seq<Node>)
    requires SortedByName(s)
    ensures SortedByName(Insert(x, s))
  {
    if s == [] || !NameBefore(s[0].name, x.name) {
      forall y | y in s ensures !NameBefore(y.name, x.name) {
        if NameBefore(y.name, x.name) {
          var k :| 0 <= k < |s| && s[k] == y;
          NameBeforeTotal(s[0].name, y.name);
          if NameBefore(s[0].name, y.name) { NameBeforeTransitive(s[0].name, y.name, x.name); }
        }
      }
      ConsSorted(x, s);
    } else {
      var tail := Insert(x, s[1..]);
      InsertKeepsOrder(x, s[1..]);
      SortedHeadFirst(s);
      forall y | y in tail ensures !NameBefore(y.name, s[0].name) {
        assert y in multiset(tail);
        if y == x {
          NameBeforeAsymmetric(s[0].name, x.name);
        } else {
          assert y in multiset(s[1..]);
        }
      }
      ConsSorted(s[0], tail);
    }
  }

  /** Array#sort on the entries of one directory. */
  function SortByName(s: seq<Node>): (r: seq<Node>)
    ensures multiset(r) == multiset(s)
    ensures SortedByName(r)
  {
    if s == [] then [] else
      assert s == [s[0]] + s[1..];
      InsertKeepsOrder(s[0], SortByName(s[1..]));
      Insert(s[0], SortByName(s[1..]))
  }

  /** Enumerable#partition(&:directory?): the directories and the files. */
  function PartitionByDirectory(s: seq<Node>): (parts: (seq<Node>, seq<Node>))
    ensures multiset(parts.0) + multiset(parts.1) == multiset(s)
    ensures forall x | x in parts.0 :: x.Dir?
    ensures forall x | x in parts.1 :: x.File?
  {
    if s == [] then ([], []) else
      var rest := PartitionByDirectory(s[1..]);
      assert s == [s[0]] + s[1..];
      if s[0].Dir? then ([s[0]] + rest.0, rest.1) else (rest.0, [s[0]] + rest.1)
  }

  /** The partition is stable: both groups keep the order they had, so a
      sorted listing gives two sorted groups. */
  lemma {:induction false} PartitionKeepsOrder(s: seq<Node>)
    requires SortedByName(s)
    ensures SortedByName(PartitionByDirectory(s).0)
    ensures SortedByName(PartitionByDirectory(s).1)
  {
    if s != [] {
      var rest := PartitionByDirectory(s[1..]);
      PartitionKeepsOrder(s[1..]);
      SortedByNameTail(s);
      SortedHeadFirst(s);
      forall y | y in rest.0 || y in rest.1 ensures !NameBefore(y.name, s[0].name) {
        assert y in multiset(rest.0) + multiset(rest.1);
        assert y in multiset(s[1..]);
      }
      if s[0].Dir? {
        ConsSorted(s[0], rest.0);
      } else {
        ConsSorted(s[0], rest.1);
      }
    }
  }

  lemma SortedByNameTail(s: seq<Node>)
    requires SortedByName(s) && s != []
    ensures SortedByName(s[1..])
  {
    forall i, j | 0 <= i < j < |s| - 1 ensures !NameBefore(s[1..][j].name, s[1..][i].name) {
      assert s[1..][j] == s[j + 1] && s[1..][i] == s[i + 1];
    }
  }

  /** children.sort.partition(&:directory?).flatten: the order in which
      reindex_recursive visits the entries of a directory. */
  function VisitOrder(children: seq<Node>): (order: seq<Node>)
    ensures multiset(order) == multiset(children)
    ensures forall x | x in order :: x in children
  {
    var parts := PartitionByDirectory(SortByName(children));
    assert multiset(parts.0 + parts.1) == multiset(children);
    assert forall x | x in parts.0 + parts.1 :: x in multiset(parts.0 + parts.1);
    parts.0 + parts.1
  }

  /** Every directory before every file, each group in name order. */
  predicate DirectoriesThenFilesByName(order: seq<Node>)
  {
    forall i, j | 0 <= i < j < |order| ::
      && !(order[i].File? && order[j].Dir?)
      && (order[i].Dir? == order[j].Dir? ==> !NameBefore(order[j].name, order[i].name))
  }

  lemma GroupsInSequence(dirs: seq<Node>, files: seq<Node>)
    requires forall x | x in dirs :: x.Dir?
    requires forall x | x in files :: x.File?
    requires SortedByName(dirs) && SortedByName(files)
    ensures DirectoriesThenFilesByName(dirs + files)
  {
    var order := dirs + files;
    forall i, j | 0 <= i < j < |order|
      ensures !(order[i].File? && order[j].Dir?)
      ensures order[i].Dir? == order[j].Dir? ==> !NameBefore(order[j].name, order[i].name)
    {
      if j < |dirs| {
        assert order[i] == dirs[i] && order[j] == dirs[j] && order[i] in dirs && order[j] in dirs;
      } else if i >= |dirs| {
        assert order[i] == files[i - |dirs|] && order[j] == files[j - |dirs|] && order[i] in files && order[j] in files;
      } else {
        assert order[i] == dirs[i] && order[i] in dirs;
        assert order[j] == files[j - |dirs|] && order[j] in files;
      }
    }
  }

  /** The visiting order is a permutation of the listing that puts every
      directory before every file and keeps each group in name order. */
  lemma VisitOrderIsDirectoriesThenFilesByName(children: seq<Node>)
    ensures multiset(VisitOrder(children)) == multiset(children)
    ensures forall x :: x in VisitOrder(children) <==> x in children
    ensures DirectoriesThenFilesByName(VisitOrder(children))
  {
    var sorted := SortByName(children);
    var parts := PartitionByDirectory(sorted);
    PartitionKeepsOrder(sorted);
    GroupsInSequence(parts.0, parts.1);
    var order := parts.0 + parts.1;
    assert multiset(order) == multiset(children);
    forall x ensures x in order <==> x in children {
      assert x in order <==> x in multiset(order);
      assert x in children <==> x in multiset(children);
    }
  }

  // ---------------------------------------------------------------------
  // Lookup and resolution

  /** The entry with this name in a directory listing, if any. */
  function Lookup(listing: seq<Node>, name: string): (r: Option<Node>)
    ensures r.Some? ==> r.value in listing && r.value.name == name
    ensures r.None? <==> forall x | x in listing :: x.name != name
  {
    if listing == [] then None
    else if listing[0].name == name then Some(listing[0])
    else Lookup(listing[1..], name)
  }

  /** In a directory with distinct names, an entry is found by its name. */
  lemma {:induction false} LookupFindsEntry(listing: seq<Node>, x: Node)
    requires DistinctNames(listing) && x in listing
    ensures Lookup(listing, x.name) == Some(x)
  {
    if listing[0] != x {
      var k :| 0 <= k < |listing| && listing[k] == x;
      assert listing[0].name != x.name;
      assert x in listing[1..] by { assert listing[1..][k - 1] == x; }
      assert DistinctNames(listing[1..]) by {
        forall i, j | 0 <= i < j < |listing[1..]| ensures listing[1..][i].name != listing[1..][j].name {
          assert listing[1..][i] == listing[i + 1] && listing[1..][j] == listing[j + 1];
        }
      }
      LookupFindsEntry(listing[1..], x);
    }
  }

  /** What a path names, once the operating system has resolved it. */
  datatype Resolution = NotFound | Directory | RegularFile(contents: string)

  /** Resolve a sequence of components from a directory listing. A file in
      the middle of the path resolves to nothing. */
  function Resolve(listing: seq<Node>, components: seq<string>): Resolution
    decreases |components|
  {
    if components == [] then Directory
    else match Lookup(listing, components[0])
      case None => NotFound
      case Some(File(_, contents)) => if |components| == 1 then RegularFile(contents) else NotFound
      case Some(Dir(_, children)) => Resolve(children, components[1..])
  }

  // ---------------------------------------------------------------------
  // Relative paths

  /** Pathname#to_s of a relative path: the components joined by '/'. */
  function JoinPath(components: seq<string>): string
  {
    if components == [] then []
    else if |components| == 1 then components[0]
    else components[0] + "/" + JoinPath(components[1..])
  }

  /** The components the operating system reads in a relative path: the
      parts between slashes, empty parts dropped. */
  function Components(path: string): seq<string>
    decreases |path|
  {
    var k := FirstIndex(path, '/');
    var part := if k == 0 then [] else [path[..k]];
    if k == |path| then part else part + Components(path[k + 1..])
  }

  /** A path written with a slash at its end: the operating system then
      requires the last component to be a directory. */
  predicate HasTrailingSlash(path: string)
  {
    path != [] && path[|path| - 1] == '/'
  }

  /** A path joined from entry names ends with the last name, never with a slash. */
  lemma {:induction false} JoinPathHasNoTrailingSlash(components: seq<string>)
    requires components != [] && forall c | c in components :: IsEntryName(c)
    ensures JoinPath(components) != [] && !HasTrailingSlash(JoinPath(components))
  {
    assert components[0] in components;
    if |components| > 1 {
      JoinPathHasNoTrailingSlash(components[1..]);
      var rest := JoinPath(components[1..]);
      var path := components[0] + "/" + rest;
      assert JoinPath(components) == path;
      assert path[|path| - 1] == rest[|rest| - 1];
    } else {
      var c := components[0];
      assert c[|c| - 1] in c;
    }
  }

  /** A name the file system can hold in a directory. */
  predicate IsEntryName(name: string)
  {
    name != [] && '/' !in name
  }

  /** Joining names and reading the path back gives the same names. */
  lemma {:induction false} ComponentsOfJoinPath(components: seq<string>)
    requires forall c | c in components :: IsEntryName(c)
    ensures Components(JoinPath(components)) == components
  {
    if components != [] {
      var c := components[0];
      assert IsEntryName(c);
      if |components| == 1 {
        FirstIndexAfter(c, [], '/');
        assert c + [] == c && c[..|c|] == c;
      } else {
        var rest := JoinPath(components[1..]);
        var path := JoinPath(components);
        assert path == c + ("/" + rest);
        FirstIndexAfter(c, "/" + rest, '/');
        assert FirstIndex(path, '/') == |c|;
        assert path[..|c|] == c;
        assert path[|c| + 1..] == rest;
        ComponentsOfJoinPath(components[1..]);
        assert components == [c] + components[1..];
      }
    }
  }

  // ---------------------------------------------------------------------
  // Well-formed trees

  /** Entries of one directory have distinct names. */
  predicate DistinctNames(listing: seq<Node>)
  {
    forall i, j | 0 <= i < j < |listing| :: listing[i].name != listing[j].name
  }

  /** A tree a file system can hold: proper entry names, distinct in every directory. */
  ghost predicate WellFormed(n: Node)
    decreases n
  {
    && IsEntryName(n.name)
    && (n.Dir? ==> DistinctNames(n.children) && forall x | x in n.children :: WellFormed(x))
  }

  ghost predicate WellFormedListing(listing: seq<Node>)
  {
    DistinctNames(listing) && forall x | x in listing :: WellFormed(x)
  }

  lemma BookkeepingNamesAreEntryNames()
    ensures IsEntryName(FINGERPRINTS_FILENAME) && IsEntryName(FINGERPRINTS_BACKUP_FILENAME)
  {
    assert '/' !in FINGERPRINTS_FILENAME && '/' !in FINGERPRINTS_BACKUP_FILENAME;
  }

  /** The entries of a listing that the walk does not skip: all but the
      manifest and its backup, in listing order. */
  function Ordinary(listing: seq<Node>): (r: seq<Node>)
    ensures forall x | x in r :: x in listing && !IsBookkeeping(x.name)
    ensures forall x | x in listing && !IsBookkeeping(x.name) :: x in r
  {
    if listing == [] then []
    else (if IsBookkeeping(listing[0].name) then [] else [listing[0]]) + Ordinary(listing[1..])
  }
}
