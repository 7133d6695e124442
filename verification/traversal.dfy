/** The walk of reindex_recursive, as the sequence of records it writes, and
    what that sequence covers, skips, and in which order. */
module Traversal {
  import opened Wrappers
  import opened RubyText
  import opened Digests
  import opened Tree
  import opened Manifest

  /** The records written for one entry met in the directory at prefix:
      every one lies below the prefix, passing through the entry's name. */
  function NodeRecords(sha1: Sha1Function, prefix: seq<string>, n: Node): (records: seq<Record>)
    ensures forall r | r in records :: Below(prefix, r.path) && r.path[|prefix|] == n.name
    decreases n, 1
  {
    if IsBookkeeping(n.name) then []
    else match n
      case File(name, contents) =>
        assert (prefix + [name])[..|prefix|] == prefix;
        [Record(sha1(contents), prefix + [name])]
      case Dir(name, children) =>
        var records := ListRecords(sha1, prefix + [name], VisitOrder(children), n);
        BelowChildren(prefix, name, records);
        records
  }

  /** The records written for a run of entries of the directory parent, in
      the order given: every one lies below the prefix. */
  function ListRecords(sha1: Sha1Function, prefix: seq<string>, nodes: seq<Node>, ghost parent: Node): (records: seq<Record>)
    requires parent.Dir? && forall x | x in nodes :: x in parent.children
    ensures forall r | r in records :: Below(prefix, r.path)
    decreases parent, 0, |nodes|
  {
    if nodes == [] then []
    else
      var last := nodes[|nodes| - 1];
      assert last in parent.children;
      ListRecords(sha1, prefix, nodes[..|nodes| - 1], parent) + NodeRecords(sha1, prefix, last)
  }

  /** The directory whose listing is given, as the root of the walk (its own
      name never appears in a relative path). */
  function Root(listing: seq<Node>): Node
  {
    Dir([], listing)
  }

  /** reindex_recursive root, root: the records for the whole tree.
      Exclusion: no record has a bookkeeping name as any of its components,
      so neither file is fingerprinted at any depth and no directory so
      named is entered. */
  function Walk(sha1: Sha1Function, listing: seq<Node>): (records: seq<Record>)
    ensures forall r | r in records :: r.path != [] && forall k | 0 <= k < |r.path| :: !IsBookkeeping(r.path[k])
  {
    var records := ListRecords(sha1, [], VisitOrder(listing), Root(listing));
    assert forall r | r in records :: Below([], r.path);
    records
  }

  // ---------------------------------------------------------------------
  // Shape and exclusion

  /** Every path below prefix, with all components from the prefix on
      outside the bookkeeping names. */
  predicate Below(prefix: seq<string>, path: seq<string>)
  {
    && |path| > |prefix|
    && path[..|prefix|] == prefix
    && forall k | |prefix| <= k < |path| :: !IsBookkeeping(path[k])
  }

  lemma BelowChildren(prefix: seq<string>, name: string, records: seq<Record>)
    requires !IsBookkeeping(name) && forall r | r in records :: Below(prefix + [name], r.path)
    ensures forall r | r in records :: Below(prefix, r.path) && r.path[|prefix|] == name
  {
    forall r | r in records ensures Below(prefix, r.path) && r.path[|prefix|] == name {
      BelowChild(prefix, name, r.path);
    }
  }

  lemma BelowChild(prefix: seq<string>, name: string, path: seq<string>)
    requires Below(prefix + [name], path) && !IsBookkeeping(name)
    ensures Below(prefix, path) && path[|prefix|] == name && |path| > |prefix| + 1
  {
    var inner := prefix + [name];
    assert path[..|prefix|] == path[..|inner|][..|prefix|];
    assert path[|prefix|] == path[..|inner|][|prefix|];
  }

  /** A record for entry n is one component longer than the prefix exactly
      when n is a file. */
  lemma NodeRecordsShape(sha1: Sha1Function, prefix: seq<string>, n: Node)
    ensures forall r | r in NodeRecords(sha1, prefix, n) :: |r.path| == |prefix| + 1 <==> n.File?
  {
    if !IsBookkeeping(n.name) && n.Dir? {
      var inner := prefix + [n.name];
      assert forall r | r in NodeRecords(sha1, prefix, n) :: Below(inner, r.path);
    }
  }

  // ---------------------------------------------------------------------
  // Coverage

  /** Reference definition: the records of every file under n not reached
      through a bookkeeping name, with no order, summed in listing order. */
  function TreeRecords(sha1: Sha1Function, prefix: seq<string>, n: Node): multiset<Record>
    decreases n
  {
    if IsBookkeeping(n.name) then multiset{}
    else match n
      case File(name, contents) => multiset{Record(sha1(contents), prefix + [name])}
      case Dir(name, children) => ListingRecords(sha1, prefix + [name], children)
  }

  function ListingRecords(sha1: Sha1Function, prefix: seq<string>, listing: seq<Node>): multiset<Record>
    decreases listing
  {
    if listing == [] then multiset{}
    else TreeRecords(sha1, prefix, listing[0]) + ListingRecords(sha1, prefix, listing[1..])
  }

  lemma {:induction false} ListingRecordsAppend(sha1: Sha1Function, prefix: seq<string>, a: seq<Node>, b: seq<Node>)
    ensures ListingRecords(sha1, prefix, a + b) == ListingRecords(sha1, prefix, a) + ListingRecords(sha1, prefix, b)
  {
    if a == [] {
      assert a + b == b;
    } else {
      assert (a + b)[1..] == a[1..] + b;
      ListingRecordsAppend(sha1, prefix, a[1..], b);
    }
  }

  lemma RemoveOne(b: seq<Node>, i: nat)
    requires i < |b|
    ensures multiset(b[..i] + b[i + 1..]) == multiset(b) - multiset{b[i]}
  {
    assert b == b[..i] + [b[i]] + b[i + 1..];
    assert multiset(b) == multiset(b[..i]) + multiset{b[i]} + multiset(b[i + 1..]);
  }

  lemma ListingRecordsRemove(sha1: Sha1Function, prefix: seq<string>, b: seq<Node>, i: nat)
    requires i < |b|
    ensures ListingRecords(sha1, prefix, b)
      == TreeRecords(sha1, prefix, b[i]) + ListingRecords(sha1, prefix, b[..i] + b[i + 1..])
  {
    assert b == b[..i] + ([b[i]] + b[i + 1..]);
    ListingRecordsAppend(sha1, prefix, b[..i], [b[i]] + b[i + 1..]);
    assert ([b[i]] + b[i + 1..])[1..] == b[i + 1..];
    ListingRecordsAppend(sha1, prefix, b[..i], b[i + 1..]);
  }

  lemma PositionIn(b: seq<Node>, x: Node) returns (i: nat)
    requires x in multiset(b)
    ensures i < |b| && b[i] == x
  {
    i :| 0 <= i < |b| && b[i] == x;
  }

  /** Taking the same entry out of two permutations leaves permutations. */
  lemma RestIsPermutation(a: seq<Node>, b: seq<Node>, i: nat)
    requires multiset(a) == multiset(b) && a != [] && i < |b| && b[i] == a[0]
    ensures multiset(a[1..]) == multiset(b[..i] + b[i + 1..])
  {
    calc {
      multiset(a[1..]);
      { assert a[..0] + a[1..] == a[1..]; }
      multiset(a[..0] + a[1..]);
      { RemoveOne(a, 0); }
      multiset(a) - multiset{a[0]};
      multiset(b) - multiset{b[i]};
      { RemoveOne(b, i); }
      multiset(b[..i] + b[i + 1..]);
    }
  }

  /** The sum does not depend on the order of the listing. */
  lemma {:induction false} ListingRecordsOfPermutation(sha1: Sha1Function, prefix: seq<string>, a: seq<Node>, b: seq<Node>)
    requires multiset(a) == multiset(b)
    ensures ListingRecords(sha1, prefix, a) == ListingRecords(sha1, prefix, b)
    decreases |a|
  {
    if a != [] {
      assert a[0] in multiset(b) by {
        assert a[0] in multiset(a);
      }
      var i := PositionIn(b, a[0]);
      var rest := b[..i] + b[i + 1..];
      RestIsPermutation(a, b, i);
      ListingRecordsOfPermutation(sha1, prefix, a[1..], rest);
      assert ListingRecords(sha1, prefix, b) == TreeRecords(sha1, prefix, a[0]) + ListingRecords(sha1, prefix, rest) by {
        ListingRecordsRemove(sha1, prefix, b, i);
      }
    }
  }

  /** The manifest and its backup add no records, wherever they stand. */
  lemma {:induction false} ListingRecordsOfOrdinary(sha1: Sha1Function, prefix: seq<string>, listing: seq<Node>)
    ensures ListingRecords(sha1, prefix, listing) == ListingRecords(sha1, prefix, Ordinary(listing))
  {
    if listing != [] {
      ListingRecordsOfOrdinary(sha1, prefix, listing[1..]);
      var head := if IsBookkeeping(listing[0].name) then [] else [listing[0]];
      ListingRecordsAppend(sha1, prefix, head, Ordinary(listing[1..]));
      if head != [] {
        assert head[1..] == [];
      }
    }
  }

  lemma {:induction false} NodeRecordsCover(sha1: Sha1Function, prefix: seq<string>, n: Node)
    ensures multiset(NodeRecords(sha1, prefix, n)) == TreeRecords(sha1, prefix, n)
    decreases n, 1
  {
    if !IsBookkeeping(n.name) && n.Dir? {
      VisitOrderIsDirectoriesThenFilesByName(n.children);
      var order := VisitOrder(n.children);
      ListRecordsCover(sha1, prefix + [n.name], order, n);
      ListingRecordsOfPermutation(sha1, prefix + [n.name], order, n.children);
    }
  }

  lemma {:induction false} ListRecordsCover(sha1: Sha1Function, prefix: seq<string>, nodes: seq<Node>, parent: Node)
    requires parent.Dir? && forall x | x in nodes :: x in parent.children
    ensures multiset(ListRecords(sha1, prefix, nodes, parent)) == ListingRecords(sha1, prefix, nodes)
    decreases parent, 0, |nodes|
  {
    if nodes != [] {
      var init, last := nodes[..|nodes| - 1], nodes[|nodes| - 1];
      assert last in parent.children;
      ListRecordsCover(sha1, prefix, init, parent);
      NodeRecordsCover(sha1, prefix, last);
      ListingRecordsAppend(sha1, prefix, init, [last]);
      assert init + [last] == nodes;
      assert [last][1..] == [];
    }
  }

  /** Coverage: the walk writes exactly one record per file of the tree (with
      its relative path and the digest of its contents), counted with
      multiplicity, whatever order the directories list their entries in. */
  lemma WalkCoversEveryFile(sha1: Sha1Function, listing: seq<Node>)
    ensures multiset(Walk(sha1, listing)) == ListingRecords(sha1, [], listing)
  {
    VisitOrderIsDirectoriesThenFilesByName(listing);
    ListRecordsCover(sha1, [], VisitOrder(listing), Root(listing));
    ListingRecordsOfPermutation(sha1, [], VisitOrder(listing), listing);
  }

  // ---------------------------------------------------------------------
  // Order

  /** The order of two entries of one directory in the walk: a directory
      before a file, and within a kind, by name. */
  predicate EntryBefore(aIsDir: bool, a: string, bIsDir: bool, b: string)
  {
    (aIsDir && !bIsDir) || (aIsDir == bIsDir && NameBefore(a, b))
  }

  /** Path p is written before path q: at the first component where they part,
      p's entry comes first (an entry with components after it is a directory). */
  predicate PathBefore(p: seq<string>, q: seq<string>)
    decreases |p|
  {
    && p != [] && q != []
    && if p[0] == q[0] && |p| > 1 && |q| > 1 then PathBefore(p[1..], q[1..])
       else EntryBefore(|p| > 1, p[0], |q| > 1, q[0])
  }

  lemma {:induction false} PathBeforeIrreflexive(p: seq<string>)
    ensures !PathBefore(p, p)
    decreases |p|
  {
    if |p| > 1 {
      PathBeforeIrreflexive(p[1..]);
    } else if p != [] {
      NameBeforeIrreflexive(p[0]);
    }
  }

  lemma {:induction false} PathBeforeAsymmetric(p: seq<string>, q: seq<string>)
    requires PathBefore(p, q)
    ensures !PathBefore(q, p)
    decreases |p|
  {
    if p[0] == q[0] && |p| > 1 && |q| > 1 {
      PathBeforeAsymmetric(p[1..], q[1..]);
    } else if (|p| > 1) == (|q| > 1) {
      NameBeforeAsymmetric(p[0], q[0]);
    }
  }

  /** A common prefix does not change the order of two paths. */
  lemma {:induction false} PathBeforeUnderPrefix(prefix: seq<string>, p: seq<string>, q: seq<string>)
    requires p != [] && q != []
    ensures PathBefore(prefix + p, prefix + q) == PathBefore(p, q)
    decreases |prefix|
  {
    if prefix == [] {
      assert prefix + p == p && prefix + q == q;
    } else {
      assert (prefix + p)[0] == (prefix + q)[0] && |prefix + p| > 1 && |prefix + q| > 1;
      assert (prefix + p)[1..] == prefix[1..] + p;
      assert (prefix + q)[1..] == prefix[1..] + q;
      PathBeforeUnderPrefix(prefix[1..], p, q);
    }
  }

  /** Two paths below prefix that part right after it are ordered by the
      entries they pass through there. */
  lemma PathBeforeAtFork(prefix: seq<string>, p: seq<string>, q: seq<string>)
    requires Below(prefix, p) && Below(prefix, q) && p[|prefix|] != q[|prefix|]
    requires EntryBefore(|p| > |prefix| + 1, p[|prefix|], |q| > |prefix| + 1, q[|prefix|])
    ensures PathBefore(p, q)
  {
    var n := |prefix|;
    assert p == prefix + p[n..];
    assert q == prefix + q[n..];
    PathBeforeUnderPrefix(prefix, p[n..], q[n..]);
  }

  /** Records in the order the walk must write them. */
  predicate InWalkOrder(records: seq<Record>)
  {
    forall i, j | 0 <= i < j < |records| :: PathBefore(records[i].path, records[j].path)
  }

  lemma TailInWalkOrder(a: seq<Record>)
    requires InWalkOrder(a) && a != []
    ensures InWalkOrder(a[1..])
  {
    forall i, j | 0 <= i < j < |a| - 1 ensures PathBefore(a[1..][i].path, a[1..][j].path) {
      assert a[1..][i] == a[i + 1] && a[1..][j] == a[j + 1];
    }
  }

  /** The first record in walk order is the least one, so two orderings of
      the same records start alike. */
  lemma FirstInWalkOrder(a: seq<Record>, b: seq<Record>)
    requires InWalkOrder(a) && InWalkOrder(b) && multiset(a) == multiset(b) && a != [] && b != []
    ensures a[0] == b[0]
  {
    assert a[0] in multiset(b) && b[0] in multiset(a) by {
      assert a[0] in multiset(a) && b[0] in multiset(b);
    }
    var k :| 0 <= k < |b| && b[k] == a[0];
    var m :| 0 <= m < |a| && a[m] == b[0];
    if k > 0 && m > 0 {
      PathBeforeAsymmetric(b[0].path, b[k].path);
    }
  }

  /** Walk order fixes the sequence: two sequences in walk order holding the
      same records are the same sequence. */
  lemma {:induction false} InWalkOrderIsUnique(a: seq<Record>, b: seq<Record>)
    requires InWalkOrder(a) && InWalkOrder(b) && multiset(a) == multiset(b)
    ensures a == b
    decreases |a|
  {
    assert |a| == |multiset(a)| == |multiset(b)| == |b|;
    if a != [] {
      FirstInWalkOrder(a, b);
      assert multiset(a[1..]) == multiset(b[1..]) by {
        assert a == [a[0]] + a[1..] && b == [b[0]] + b[1..];
        assert multiset(a) == multiset{a[0]} + multiset(a[1..]);
        assert multiset(b) == multiset{a[0]} + multiset(b[1..]);
        forall x ensures multiset(a[1..])[x] == multiset(b[1..])[x] {
          assert multiset(a)[x] == multiset{a[0]}[x] + multiset(a[1..])[x];
          assert multiset(b)[x] == multiset{a[0]}[x] + multiset(b[1..])[x];
        }
      }
      TailInWalkOrder(a);
      TailInWalkOrder(b);
      InWalkOrderIsUnique(a[1..], b[1..]);
      assert a == [a[0]] + a[1..] && b == [b[0]] + b[1..];
    }
  }

  /** Entries of one directory in the order the walk must visit them. */
  predicate InVisitOrder(nodes: seq<Node>)
  {
    forall i, j | 0 <= i < j < |nodes| ::
      nodes[i].name != nodes[j].name && EntryBefore(nodes[i].Dir?, nodes[i].name, nodes[j].Dir?, nodes[j].name)
  }

  lemma {:induction false} DistinctNamesCountOnce(s: seq<Node>, x: Node)
    requires DistinctNames(s)
    ensures multiset(s)[x] <= 1
  {
    if s != [] {
      assert s == [s[0]] + s[1..];
      assert DistinctNames(s[1..]) by {
        forall i, j | 0 <= i < j < |s[1..]| ensures s[1..][i].name != s[1..][j].name {
          assert s[1..][i] == s[i + 1] && s[1..][j] == s[j + 1];
        }
      }
      DistinctNamesCountOnce(s[1..], x);
      if x == s[0] {
        assert x !in s[1..] by {
          forall k | 0 <= k < |s[1..]| ensures s[1..][k] != x {
            assert s[1..][k] == s[k + 1];
          }
        }
      }
    }
  }

  lemma DistinctNamesOfPermutation(a: seq<Node>, b: seq<Node>)
    requires multiset(a) == multiset(b) && DistinctNames(a)
    ensures DistinctNames(b)
  {
    forall i, j | 0 <= i < j < |b| ensures b[i].name != b[j].name {
      if b[i] == b[j] {
        CountsTwice(b, i, j);
        DistinctNamesCountOnce(a, b[i]);
        assert false;
      }
      DifferentEntriesDifferentNames(a, b, i, j);
    }
  }

  lemma CountsTwice(b: seq<Node>, i: nat, j: nat)
    requires i < j < |b| && b[i] == b[j]
    ensures multiset(b)[b[i]] >= 2
  {
    assert b == b[..i] + [b[i]] + b[i + 1..j] + [b[j]] + b[j + 1..];
  }

  lemma DifferentEntriesDifferentNames(a: seq<Node>, b: seq<Node>, i: nat, j: nat)
    requires multiset(a) == multiset(b) && DistinctNames(a)
    requires i < |b| && j < |b| && b[i] != b[j]
    ensures b[i].name != b[j].name
  {
    assert b[i] in multiset(a) && b[j] in multiset(a);
    var p :| 0 <= p < |a| && a[p] == b[i];
    var q :| 0 <= q < |a| && a[q] == b[j];
    if p < q { assert a[p].name != a[q].name; } else { assert a[q].name != a[p].name; }
  }

  /** In a directory with distinct names, the visiting order is strict. */
  lemma VisitOrderIsStrict(children: seq<Node>)
    requires DistinctNames(children)
    ensures InVisitOrder(VisitOrder(children))
  {
    var order := VisitOrder(children);
    VisitOrderIsDirectoriesThenFilesByName(children);
    DistinctNamesOfPermutation(children, order);
    forall i, j | 0 <= i < j < |order|
      ensures EntryBefore(order[i].Dir?, order[i].name, order[j].Dir?, order[j].name)
    {
      assert order[i].name != order[j].name;
      NameBeforeTotal(order[i].name, order[j].name);
    }
  }

  /** Every record of a run of entries is written before any record of an
      entry the whole run precedes. */
  lemma {:induction false} ListRecordsBefore(sha1: Sha1Function, prefix: seq<string>, nodes: seq<Node>, parent: Node,
                                             x: Node, q: seq<string>)
    requires parent.Dir? && forall m | m in nodes :: m in parent.children
    requires Below(prefix, q) && q[|prefix|] == x.name && (|q| == |prefix| + 1 <==> x.File?)
    requires forall m | m in nodes :: m.name != x.name && EntryBefore(m.Dir?, m.name, x.Dir?, x.name)
    ensures forall r | r in ListRecords(sha1, prefix, nodes, parent) :: PathBefore(r.path, q)
    decreases |nodes|
  {
    if nodes != [] {
      var last := nodes[|nodes| - 1];
      assert last in nodes;
      ListRecordsBefore(sha1, prefix, nodes[..|nodes| - 1], parent, x, q);
      NodeRecordsShape(sha1, prefix, last);
      forall r | r in NodeRecords(sha1, prefix, last) ensures PathBefore(r.path, q) {
        PathBeforeAtFork(prefix, r.path, q);
      }
    }
  }

  lemma {:induction false} NodeRecordsInOrder(sha1: Sha1Function, prefix: seq<string>, n: Node)
    requires WellFormed(n)
    ensures InWalkOrder(NodeRecords(sha1, prefix, n))
    decreases n, 1
  {
    if !IsBookkeeping(n.name) && n.Dir? {
      VisitOrderIsDirectoriesThenFilesByName(n.children);
      VisitOrderIsStrict(n.children);
      ListRecordsInOrder(sha1, prefix + [n.name], VisitOrder(n.children), n);
    }
  }

  lemma {:induction false} ListRecordsInOrder(sha1: Sha1Function, prefix: seq<string>, nodes: seq<Node>, parent: Node)
    requires parent.Dir? && forall x | x in nodes :: x in parent.children && WellFormed(x)
    requires InVisitOrder(nodes)
    ensures InWalkOrder(ListRecords(sha1, prefix, nodes, parent))
    decreases parent, 0, |nodes|
  {
    if nodes != [] {
      var init, last := nodes[..|nodes| - 1], nodes[|nodes| - 1];
      assert last in parent.children && last in nodes;
      assert InVisitOrder(init) by {
        forall i, j | 0 <= i < j < |init| ensures init[i] == nodes[i] && init[j] == nodes[j] { }
      }
      ListRecordsInOrder(sha1, prefix, init, parent);
      NodeRecordsInOrder(sha1, prefix, last);
      NodeRecordsShape(sha1, prefix, last);
      var left, right := ListRecords(sha1, prefix, init, parent), NodeRecords(sha1, prefix, last);
      forall m | m in init ensures m.name != last.name && EntryBefore(m.Dir?, m.name, last.Dir?, last.name) {
        var i :| 0 <= i < |init| && init[i] == m;
        assert nodes[i] == m;
      }
      forall j | 0 <= j < |right| ensures forall r | r in left :: PathBefore(r.path, right[j].path) {
        assert right[j] in right;
        ListRecordsBefore(sha1, prefix, init, parent, last, right[j].path);
      }
      ConcatInWalkOrder(left, right);
    }
  }

  /** Two runs in walk order, every path of the first before every path of
      the second, make one run in walk order. */
  lemma ConcatInWalkOrder(left: seq<Record>, right: seq<Record>)
    requires InWalkOrder(left) && InWalkOrder(right)
    requires forall j | 0 <= j < |right| :: forall r | r in left :: PathBefore(r.path, right[j].path)
    ensures InWalkOrder(left + right)
  {
    var all := left + right;
    forall i, j | 0 <= i < j < |all| ensures PathBefore(all[i].path, all[j].path) {
      if j < |left| {
        assert all[i] == left[i] && all[j] == left[j];
      } else if i >= |left| {
        assert all[i] == right[i - |left|] && all[j] == right[j - |left|];
      } else {
        assert all[i] == left[i] && left[i] in left;
        assert all[j] == right[j - |left|];
      }
    }
  }

  /** Order: in a tree with distinct names in every directory, the walk writes
      records in strictly increasing PathBefore order -- at every level
      directories first, then files, each group by name, and each
      directory's records as one block -- so no path is written twice. */
  lemma WalkIsInOrder(sha1: Sha1Function, listing: seq<Node>)
    requires WellFormedListing(listing)
    ensures InWalkOrder(Walk(sha1, listing))
    ensures forall i, j | 0 <= i < j < |Walk(sha1, listing)| :: Walk(sha1, listing)[i].path != Walk(sha1, listing)[j].path
  {
    VisitOrderIsDirectoriesThenFilesByName(listing);
    VisitOrderIsStrict(listing);
    ListRecordsInOrder(sha1, [], VisitOrder(listing), Root(listing));
    var w := Walk(sha1, listing);
    forall i, j | 0 <= i < j < |w| ensures w[i].path != w[j].path {
      PathBeforeIrreflexive(w[i].path);
    }
  }

  // ---------------------------------------------------------------------
  // Resolution

  /** path, read from the directory listing, names a regular file whose
      contents digest to hash. */
  predicate Locates(sha1: Sha1Function, listing: seq<Node>, path: seq<string>, hash: string)
  {
    var found := Resolve(listing, path);
    found.RegularFile? && sha1(found.contents) == hash
  }

  predicate AllEntryNames(path: seq<string>)
  {
    forall c | c in path :: IsEntryName(c)
  }

  lemma DirRecordResolves(sha1: Sha1Function, prefix: seq<string>, n: Node, path: seq<string>, hash: string)
    requires n.Dir? && IsEntryName(n.name)
    requires |path| > |prefix| + 1 && path[..|prefix| + 1] == prefix + [n.name]
    requires Locates(sha1, n.children, path[|prefix| + 1..], hash) && AllEntryNames(path[|prefix| + 1..])
    ensures path[..|prefix|] == prefix && path[|prefix|] == n.name
    ensures Locates(sha1, [n], path[|prefix|..], hash) && AllEntryNames(path[|prefix|..])
  {
    var inner := prefix + [n.name];
    assert path[..|prefix|] == path[..|inner|][..|prefix|];
    assert path[|prefix|] == path[..|inner|][|prefix|];
    var rest := path[|prefix|..];
    assert rest == [n.name] + path[|inner|..];
    assert Lookup([n], n.name) == Some(n);
  }

  lemma {:induction false} NodeRecordsResolve(sha1: Sha1Function, prefix: seq<string>, n: Node)
    requires WellFormed(n)
    ensures forall r | r in NodeRecords(sha1, prefix, n) ::
      && |r.path| > |prefix| && r.path[..|prefix|] == prefix && r.path[|prefix|] == n.name
      && Locates(sha1, [n], r.path[|prefix|..], r.hash) && AllEntryNames(r.path[|prefix|..])
    decreases n, 1
  {
    if IsBookkeeping(n.name) {
    } else if n.File? {
      FileRecordResolves(sha1, prefix, n);
    } else {
      VisitOrderIsDirectoriesThenFilesByName(n.children);
      var inner := prefix + [n.name];
      ListRecordsResolve(sha1, inner, VisitOrder(n.children), n);
      DirRecordsResolve(sha1, prefix, n, ListRecords(sha1, inner, VisitOrder(n.children), n));
    }
  }

  lemma FileRecordResolves(sha1: Sha1Function, prefix: seq<string>, n: Node)
    requires n.File? && !IsBookkeeping(n.name) && IsEntryName(n.name)
    ensures forall r | r in NodeRecords(sha1, prefix, n) ::
      && |r.path| > |prefix| && r.path[..|prefix|] == prefix && r.path[|prefix|] == n.name
      && Locates(sha1, [n], r.path[|prefix|..], r.hash) && AllEntryNames(r.path[|prefix|..])
  {
    var r := Record(sha1(n.contents), prefix + [n.name]);
    assert NodeRecords(sha1, prefix, n) == [r];
    assert r.path[..|prefix|] == prefix && r.path[|prefix|..] == [n.name];
    assert Lookup([n], n.name) == Some(n);
  }

  lemma DirRecordsResolve(sha1: Sha1Function, prefix: seq<string>, n: Node, records: seq<Record>)
    requires n.Dir? && IsEntryName(n.name)
    requires forall r | r in records ::
      && |r.path| > |prefix + [n.name]| && r.path[..|prefix + [n.name]|] == prefix + [n.name]
      && Locates(sha1, n.children, r.path[|prefix + [n.name]|..], r.hash) && AllEntryNames(r.path[|prefix + [n.name]|..])
    ensures forall r | r in records ::
      && |r.path| > |prefix| && r.path[..|prefix|] == prefix && r.path[|prefix|] == n.name
      && Locates(sha1, [n], r.path[|prefix|..], r.hash) && AllEntryNames(r.path[|prefix|..])
  {
    forall r | r in records
      ensures r.path[..|prefix|] == prefix && r.path[|prefix|] == n.name
      ensures Locates(sha1, [n], r.path[|prefix|..], r.hash) && AllEntryNames(r.path[|prefix|..])
    {
      DirRecordResolves(sha1, prefix, n, r.path, r.hash);
    }
  }

  lemma {:induction false} ListRecordsResolve(sha1: Sha1Function, prefix: seq<string>, nodes: seq<Node>, parent: Node)
    requires parent.Dir? && forall x | x in nodes :: x in parent.children
    requires DistinctNames(parent.children) && forall x | x in parent.children :: WellFormed(x)
    ensures forall r | r in ListRecords(sha1, prefix, nodes, parent) ::
      && |r.path| > |prefix| && r.path[..|prefix|] == prefix
      && Locates(sha1, parent.children, r.path[|prefix|..], r.hash) && AllEntryNames(r.path[|prefix|..])
    decreases parent, 0, |nodes|
  {
    if nodes != [] {
      var last := nodes[|nodes| - 1];
      assert last in parent.children;
      ListRecordsResolve(sha1, prefix, nodes[..|nodes| - 1], parent);
      NodeRecordsResolve(sha1, prefix, last);
      LookupFindsEntry(parent.children, last);
      assert Lookup([last], last.name) == Some(last);
    }
  }

  /** Every record the walk writes names, from the root, a regular file whose
      contents digest to the record's hash, through proper entry names. */
  lemma WalkRecordsResolve(sha1: Sha1Function, listing: seq<Node>)
    requires WellFormedListing(listing)
    ensures forall r | r in Walk(sha1, listing) :: Locates(sha1, listing, r.path, r.hash) && AllEntryNames(r.path)
  {
    VisitOrderIsDirectoriesThenFilesByName(listing);
    ListRecordsResolve(sha1, [], VisitOrder(listing), Root(listing));
    forall r | r in Walk(sha1, listing) ensures r.path[0..] == r.path { }
  }

  // ---------------------------------------------------------------------
  // Line safety

  /** A name that ends in a character String#strip would remove. */
  predicate HasCleanEnd(name: string)
  {
    name != [] && !IsStripSpace(name[|name| - 1])
  }

  /** A tree whose paths survive the manifest: no line feed in any name, and
      no file name ending in a character strip removes. */
  ghost predicate LineSafeTree(n: Node)
    decreases n
  {
    && '\n' !in n.name
    && (n.File? ==> HasCleanEnd(n.name))
    && (n.Dir? ==> forall x | x in n.children :: LineSafeTree(x))
  }

  predicate NoLineFeeds(path: seq<string>)
  {
    forall c | c in path :: '\n' !in c
  }

  lemma DirRecordIsLineSafe(prefix: seq<string>, n: Node, path: seq<string>)
    requires '\n' !in n.name
    requires |path| > |prefix| + 1 && path[..|prefix| + 1] == prefix + [n.name]
    requires NoLineFeeds(path[|prefix| + 1..])
    ensures path[..|prefix|] == prefix && NoLineFeeds(path[|prefix|..])
  {
    var inner := prefix + [n.name];
    assert path[..|prefix|] == path[..|inner|][..|prefix|];
    assert path[|prefix|] == path[..|inner|][|prefix|];
    assert path[|prefix|..] == [n.name] + path[|inner|..];
  }

  lemma {:induction false} NodeRecordsLineSafe(sha1: Sha1Function, prefix: seq<string>, n: Node)
    requires LineSafeTree(n)
    ensures forall r | r in NodeRecords(sha1, prefix, n) ::
      && |r.path| > |prefix| && r.path[..|prefix|] == prefix
      && NoLineFeeds(r.path[|prefix|..]) && HasCleanEnd(r.path[|r.path| - 1])
    decreases n, 1
  {
    if IsBookkeeping(n.name) {
    } else if n.File? {
      FileRecordIsLineSafe(sha1, prefix, n);
    } else {
      VisitOrderIsDirectoriesThenFilesByName(n.children);
      var inner := prefix + [n.name];
      ListRecordsLineSafe(sha1, inner, VisitOrder(n.children), n);
      DirRecordsAreLineSafe(prefix, n, ListRecords(sha1, inner, VisitOrder(n.children), n));
    }
  }

  lemma FileRecordIsLineSafe(sha1: Sha1Function, prefix: seq<string>, n: Node)
    requires n.File? && !IsBookkeeping(n.name) && LineSafeTree(n)
    ensures forall r | r in NodeRecords(sha1, prefix, n) ::
      && |r.path| > |prefix| && r.path[..|prefix|] == prefix
      && NoLineFeeds(r.path[|prefix|..]) && HasCleanEnd(r.path[|r.path| - 1])
  {
    var r := Record(sha1(n.contents), prefix + [n.name]);
    assert NodeRecords(sha1, prefix, n) == [r];
    assert r.path[..|prefix|] == prefix && r.path[|prefix|..] == [n.name];
    assert r.path[|r.path| - 1] == n.name;
    assert NoLineFeeds([n.name]);
  }

  lemma DirRecordsAreLineSafe(prefix: seq<string>, n: Node, records: seq<Record>)
    requires '\n' !in n.name
    requires forall r | r in records ::
      && |r.path| > |prefix + [n.name]| && r.path[..|prefix + [n.name]|] == prefix + [n.name]
      && NoLineFeeds(r.path[|prefix + [n.name]|..]) && HasCleanEnd(r.path[|r.path| - 1])
    ensures forall r | r in records ::
      && |r.path| > |prefix| && r.path[..|prefix|] == prefix
      && NoLineFeeds(r.path[|prefix|..]) && HasCleanEnd(r.path[|r.path| - 1])
  {
    forall r | r in records ensures r.path[..|prefix|] == prefix && NoLineFeeds(r.path[|prefix|..]) {
      DirRecordIsLineSafe(prefix, n, r.path);
    }
  }

  lemma {:induction false} ListRecordsLineSafe(sha1: Sha1Function, prefix: seq<string>, nodes: seq<Node>, parent: Node)
    requires parent.Dir? && forall x | x in nodes :: x in parent.children && LineSafeTree(x)
    ensures forall r | r in ListRecords(sha1, prefix, nodes, parent) ::
      && |r.path| > |prefix| && r.path[..|prefix|] == prefix
      && NoLineFeeds(r.path[|prefix|..]) && HasCleanEnd(r.path[|r.path| - 1])
    decreases parent, 0, |nodes|
  {
    if nodes != [] {
      var last := nodes[|nodes| - 1];
      assert last in parent.children && last in nodes;
      ListRecordsLineSafe(sha1, prefix, nodes[..|nodes| - 1], parent);
      NodeRecordsLineSafe(sha1, prefix, last);
    }
  }

  lemma PartsMakeLineSafe(r: Record)
    requires r.path != [] && AllEntryNames(r.path) && NoLineFeeds(r.path) && HasCleanEnd(r.path[|r.path| - 1])
    ensures IsLineSafe(r)
  {
  }

  /** In a well-formed, line-safe tree every record the walk writes is one
      whose line reads back as written. */
  lemma WalkRecordsAreLineSafe(sha1: Sha1Function, listing: seq<Node>)
    requires WellFormedListing(listing) && forall x | x in listing :: LineSafeTree(x)
    ensures forall r | r in Walk(sha1, listing) :: IsLineSafe(r)
  {
    var w := Walk(sha1, listing);
    assert forall r | r in w :: r.path != [] && NoLineFeeds(r.path) && HasCleanEnd(r.path[|r.path| - 1]) by {
      VisitOrderIsDirectoriesThenFilesByName(listing);
      ListRecordsLineSafe(sha1, [], VisitOrder(listing), Root(listing));
      forall r | r in w ensures r.path[0..] == r.path { }
    }
    assert forall r | r in w :: AllEntryNames(r.path) by {
      WalkRecordsResolve(sha1, listing);
    }
    forall r | r in w ensures IsLineSafe(r) {
      PartsMakeLineSafe(r);
    }
  }
}
