/**
 * The `TREE` extension (gitformat-index(5), "Cache tree"): one node per
 * directory with its tree ID and its number of entries.
 */
module CacheTrees {
  import opened Wrappers
  import opened Bytes
  import opened GitTypes
  import opened Decimals
  import Sorting

  const SPACE: Byte := 32
  const NEWLINE: Byte := 10

  datatype CacheTree = CacheTree(name: ByteString, oid: ObjectId, entries: U32, children: seq<CacheTree>)

  // ---------------------------------------------------------------------------
  // Order of subtrees
  // ---------------------------------------------------------------------------

  /** Git's order of subtrees: by length, and within a length by bytes. */
  predicate NameLess(a: ByteString, b: ByteString) {
    |a| < |b| || (|a| == |b| && Less(a, b))
  }

  predicate ByName(x: CacheTree, y: CacheTree) {
    !NameLess(y.name, x.name)
  }

  lemma NameLessTotal(a: ByteString, b: ByteString)
    ensures NameLess(a, b) || a == b || NameLess(b, a)
    ensures NameLess(a, b) ==> !NameLess(b, a) && a != b
  {
    LessTotal(a, b);
    if Less(a, b) { LessAsymmetric(a, b); }
    if Less(b, a) { LessAsymmetric(b, a); }
  }

  lemma NameLessTransitive(a: ByteString, b: ByteString, c: ByteString)
    requires NameLess(a, b) && NameLess(b, c)
    ensures NameLess(a, c)
  {
    if |a| == |b| == |c| { LessTransitive(a, b, c); }
  }

  lemma ByNamePreorder()
    ensures Sorting.TotalPreorder(ByName)
  {
    forall x, y ensures ByName(x, y) || ByName(y, x) { NameLessTotal(x.name, y.name); }
    forall x, y, z | ByName(x, y) && ByName(y, z) ensures ByName(x, z) {
      if NameLess(z.name, x.name) {
        NameLessTotal(x.name, y.name);
        NameLessTotal(y.name, z.name);
        if y.name != z.name { NameLessTransitive(y.name, z.name, x.name); }
      }
    }
  }

  /** Strictly increasing by the length of the name and, within a length, by its bytes. */
  predicate StrictByName(s: seq<CacheTree>) {
    forall i, j :: 0 <= i < j < |s| ==>
      |s[i].name| < |s[j].name| || (|s[i].name| == |s[j].name| && Less(s[i].name, s[j].name))
  }

  predicate NamesDiffer(s: seq<CacheTree>) {
    forall i, j :: 0 <= i < j < |s| ==> s[i].name != s[j].name
  }

  /** No level names a directory twice. */
  predicate DistinctNames(node: CacheTree) {
    NamesDiffer(node.children) && forall c <- node.children :: DistinctNames(c)
  }

  /** Every level in Git's order, no name twice. */
  predicate Ordered(node: CacheTree) {
    StrictByName(node.children) && forall c <- node.children :: Ordered(c)
  }

  /** The tree with every level sorted. */
  function SortedTree(node: CacheTree): (r: CacheTree)
    ensures r.name == node.name && r.oid == node.oid && r.entries == node.entries
    ensures |r.children| == |node.children|
    decreases node, 1
  {
    node.(children := Sorting.Sort(ByName, SortedTrees(node.children)))
  }

  function SortedTrees(nodes: seq<CacheTree>): (r: seq<CacheTree>)
    ensures |r| == |nodes| && forall i :: 0 <= i < |r| ==> r[i] == SortedTree(nodes[i])
    decreases nodes, 0
  {
    if |nodes| == 0 then [] else [SortedTree(nodes[0])] + SortedTrees(nodes[1..])
  }

  // ---------------------------------------------------------------------------
  // What a tree says, whatever the order of its levels
  // ---------------------------------------------------------------------------

  datatype Directory = Directory(prefix: ByteString, oid: ObjectId, entries: U32)

  function ChildPrefix(prefix: ByteString, name: ByteString): ByteString {
    prefix + name + [SLASH]
  }

  /** Every directory with its path prefix, tree ID and entry count. */
  function Directories(node: CacheTree, prefix: ByteString): multiset<Directory>
    decreases node, 1
  {
    multiset{Directory(prefix, node.oid, node.entries)} + DirectoriesBelow(node.children, prefix)
  }

  function DirectoriesBelow(nodes: seq<CacheTree>, prefix: ByteString): multiset<Directory>
    decreases nodes, 0
  {
    if |nodes| == 0 then multiset{}
    else Directories(nodes[0], ChildPrefix(prefix, nodes[0].name)) + DirectoriesBelow(nodes[1..], prefix)
  }

  lemma {:induction false} InsertKeepsDirectories(x: CacheTree, s: seq<CacheTree>, prefix: ByteString)
    ensures DirectoriesBelow(Sorting.Insert(ByName, x, s), prefix)
            == Directories(x, ChildPrefix(prefix, x.name)) + DirectoriesBelow(s, prefix)
  {
    var t := Sorting.Insert(ByName, x, s);
    if |s| == 0 || ByName(x, s[0]) {
      assert t[1..] == s;
    } else {
      assert t[1..] == Sorting.Insert(ByName, x, s[1..]);
      InsertKeepsDirectories(x, s[1..], prefix);
    }
  }

  lemma {:induction false} SortKeepsDirectoriesBelow(s: seq<CacheTree>, prefix: ByteString)
    ensures DirectoriesBelow(Sorting.Sort(ByName, s), prefix) == DirectoriesBelow(s, prefix)
  {
    if |s| > 0 {
      SortKeepsDirectoriesBelow(s[1..], prefix);
      InsertKeepsDirectories(s[0], Sorting.Sort(ByName, s[1..]), prefix);
    }
  }

  /** Sorting changes no directory, ID or count. */
  lemma {:induction false} SortedTreeSaysTheSame(node: CacheTree, prefix: ByteString)
    ensures Directories(SortedTree(node), prefix) == Directories(node, prefix)
    decreases node, 1
  {
    SortedTreesSayTheSame(node.children, prefix);
    SortKeepsDirectoriesBelow(SortedTrees(node.children), prefix);
  }

  lemma {:induction false} SortedTreesSayTheSame(nodes: seq<CacheTree>, prefix: ByteString)
    ensures DirectoriesBelow(SortedTrees(nodes), prefix) == DirectoriesBelow(nodes, prefix)
    decreases nodes, 0
  {
    if |nodes| > 0 {
      SortedTreeSaysTheSame(nodes[0], ChildPrefix(prefix, nodes[0].name));
      SortedTreesSayTheSame(nodes[1..], prefix);
      assert SortedTrees(nodes)[1..] == SortedTrees(nodes[1..]);
    }
  }

  // ---------------------------------------------------------------------------
  // Sorting every level
  // ---------------------------------------------------------------------------

  predicate NewName(x: CacheTree, s: seq<CacheTree>) {
    forall y <- s :: y.name != x.name
  }

  lemma DifferCons(x: CacheTree, s: seq<CacheTree>)
    ensures NamesDiffer([x] + s) <==> NewName(x, s) && NamesDiffer(s)
  {
    var t := [x] + s;
    if NamesDiffer(t) {
      forall y <- s ensures y.name != x.name {
        var k :| 0 <= k < |s| && s[k] == y;
        assert t[0] == x && t[k + 1] == y;
      }
      forall i, j | 0 <= i < j < |s| ensures s[i].name != s[j].name {
        assert t[i + 1] == s[i] && t[j + 1] == s[j];
      }
    }
  }

  lemma {:induction false} InsertDiffers(x: CacheTree, s: seq<CacheTree>)
    ensures NamesDiffer(Sorting.Insert(ByName, x, s)) <==> NewName(x, s) && NamesDiffer(s)
  {
    if |s| == 0 || ByName(x, s[0]) {
      DifferCons(x, s);
    } else {
      var t := Sorting.Insert(ByName, x, s[1..]);
      InsertDiffers(x, s[1..]);
      DifferCons(s[0], t);
      DifferCons(s[0], s[1..]);
      assert s == [s[0]] + s[1..];
      Sorting.InsertPermutes(ByName, x, s[1..]);
      assert forall y :: y in t <==> y in multiset(t);
      assert forall y :: y in t <==> y == x || y in s[1..];
    }
  }

  lemma {:induction false} SortDiffers(s: seq<CacheTree>)
    ensures NamesDiffer(Sorting.Sort(ByName, s)) <==> NamesDiffer(s)
  {
    if |s| > 0 {
      var t := Sorting.Sort(ByName, s[1..]);
      SortDiffers(s[1..]);
      InsertDiffers(s[0], t);
      assert s == [s[0]] + s[1..];
      DifferCons(s[0], s[1..]);
      assert NewName(s[0], t) <==> NewName(s[0], s[1..]) by {
        forall y ensures y in t <==> y in s[1..] { Sorting.SortMembers(ByName, s[1..], y); }
      }
    }
  }

  /** In sorted order, names that differ are strictly increasing. */
  lemma StrictWhenDiffering(s: seq<CacheTree>)
    ensures StrictByName(Sorting.Sort(ByName, s)) <==> NamesDiffer(s)
  {
    var t := Sorting.Sort(ByName, s);
    SortDiffers(s);
    ByNamePreorder();
    Sorting.SortSorts(ByName, s);
    forall i, j | 0 <= i < j < |t| ensures NameLess(t[i].name, t[j].name) <==> t[i].name != t[j].name {
      assert ByName(t[i], t[j]);
      NameLessTotal(t[i].name, t[j].name);
    }
  }

  lemma {:induction false} InsertCommutes(x: CacheTree, s: seq<CacheTree>)
    ensures SortedTrees(Sorting.Insert(ByName, x, s)) == Sorting.Insert(ByName, SortedTree(x), SortedTrees(s))
  {
    if |s| == 0 || ByName(x, s[0]) {
      assert ([x] + s)[1..] == s;
    } else {
      InsertCommutes(x, s[1..]);
      var t := Sorting.Insert(ByName, x, s);
      assert t[1..] == Sorting.Insert(ByName, x, s[1..]);
      assert SortedTrees(s)[1..] == SortedTrees(s[1..]);
    }
  }

  /** Sorting a level and then each child is sorting each child and then the level. */
  lemma {:induction false} SortCommutes(s: seq<CacheTree>)
    ensures SortedTrees(Sorting.Sort(ByName, s)) == Sorting.Sort(ByName, SortedTrees(s))
  {
    if |s| > 0 {
      SortCommutes(s[1..]);
      InsertCommutes(s[0], Sorting.Sort(ByName, s[1..]));
      assert SortedTrees(s)[1..] == SortedTrees(s[1..]);
    }
  }

  method SortLevel(children: seq<CacheTree>) returns (r: Result<seq<CacheTree>>)
    ensures r == if NamesDiffer(children) then Ok(Sorting.Sort(ByName, children)) else Err(DuplicateDirectory)
  {
    hide Sorting.Sort;
    hide NameLess;
    hide StrictByName;
    var sorted := Sorting.Sort(ByName, children);
    SortDiffers(children);
    StrictWhenDiffering(children);
    StrictMeans(sorted);
    var i := 0;
    while i + 1 < |sorted|
      invariant i == 0 || 0 < i < |sorted|
      invariant forall k :: 0 <= k < i ==> NameLess(sorted[k].name, sorted[k + 1].name)
    {
      if !NameLess(sorted[i].name, sorted[i + 1].name) {
        return Err(DuplicateDirectory);
      }
      i := i + 1;
    }
    forall i, j | 0 <= i < j < |sorted| ensures NameLess(sorted[i].name, sorted[j].name) {
      AdjacentStrict(sorted, i, j);
    }
    r := Ok(sorted);
  }

  lemma StrictMeans(s: seq<CacheTree>)
    ensures StrictByName(s) <==> forall i, j :: 0 <= i < j < |s| ==> NameLess(s[i].name, s[j].name)
  {
  }

  lemma {:induction false} AdjacentStrict(s: seq<CacheTree>, i: nat, j: nat)
    requires forall k :: 0 <= k < |s| - 1 ==> NameLess(s[k].name, s[k + 1].name)
    requires i < j < |s|
    ensures NameLess(s[i].name, s[j].name)
    decreases j
  {
    assert NameLess(s[j - 1].name, s[j - 1 + 1].name);
    if i < j - 1 {
      AdjacentStrict(s, i, j - 1);
      NameLessTransitive(s[i].name, s[j - 1].name, s[j].name);
    }
  }

  lemma SortedTreeUnfolds(node: CacheTree)
    ensures SortedTree(node) == node.(children := SortedTrees(Sorting.Sort(ByName, node.children)))
  {
    hide Sorting.Sort;
    hide SortedTrees;
    SortCommutes(node.children);
  }

  lemma SortedMembers(s: seq<CacheTree>, sorted: seq<CacheTree>)
    requires sorted == Sorting.Sort(ByName, s)
    ensures forall i :: 0 <= i < |sorted| ==> sorted[i] in s
    ensures forall i :: 0 <= i < |s| ==> s[i] in sorted
  {
    hide *;
    forall i | 0 <= i < |sorted| ensures sorted[i] in s {
      Sorting.SortMembers(ByName, s, sorted[i]);
    }
    forall i | 0 <= i < |s| ensures s[i] in sorted {
      Sorting.SortMembers(ByName, s, s[i]);
    }
  }

  lemma DistinctUnfolds(node: CacheTree, sorted: seq<CacheTree>)
    requires sorted == Sorting.Sort(ByName, node.children)
    ensures DistinctNames(node) <==> NamesDiffer(node.children) && forall i :: 0 <= i < |sorted| ==> DistinctNames(sorted[i])
  {
    hide Sorting.Sort;
    hide NamesDiffer;
    SortedMembers(node.children, sorted);
  }

  method SortCacheTree(node: CacheTree) returns (r: Result<CacheTree>)
    ensures r == if DistinctNames(node) then Ok(SortedTree(node)) else Err(DuplicateDirectory)
    decreases node
  {
    hide *;
    var level := SortLevel(node.children);
    SortedTreeUnfolds(node);
    DistinctUnfolds(node, Sorting.Sort(ByName, node.children));
    SortedMembers(node.children, Sorting.Sort(ByName, node.children));
    if level.Err? {
      return Err(level.error);
    }
    var sorted := level.value;
    var children: seq<CacheTree> := [];
    for i := 0 to |sorted|
      invariant |children| == i
      invariant forall k :: 0 <= k < i ==> DistinctNames(sorted[k]) && children[k] == SortedTree(sorted[k])
    {
      assert sorted[i] in node.children;
      var child := SortCacheTree(sorted[i]);
      if child.Err? {
        return Err(child.error);
      }
      children := children + [child.value];
    }
    assert children == SortedTrees(sorted);
    r := Ok(node.(children := children));
  }

  /** Sorting a tree without repeated names puts every level in Git's order. */
  lemma {:induction false} SortedTreeOrdered(node: CacheTree)
    requires DistinctNames(node)
    ensures Ordered(SortedTree(node))
    decreases node
  {
    SortCommutes(node.children);
    var sorted := Sorting.Sort(ByName, node.children);
    StrictWhenDiffering(node.children);
    var children := SortedTree(node).children;
    forall c <- children ensures Ordered(c) {
      var k :| 0 <= k < |children| && children[k] == c;
      Sorting.SortMembers(ByName, node.children, sorted[k]);
      SortedTreeOrdered(sorted[k]);
    }
  }

  // ---------------------------------------------------------------------------
  // Entry counts
  // ---------------------------------------------------------------------------

  /** How many paths lie under a prefix. */
  function CountUnder(paths: seq<ByteString>, prefix: ByteString): nat {
    if |paths| == 0 then 0
    else (if prefix <= paths[0] then 1 else 0) + CountUnder(paths[1..], prefix)
  }

  /** Every node counts exactly the paths under it. */
  predicate Accurate(node: CacheTree, prefix: ByteString, paths: seq<ByteString>)
    decreases node
  {
    && node.entries == CountUnder(paths, prefix)
    && forall c <- node.children :: Accurate(c, ChildPrefix(prefix, c.name), paths)
  }

  /** How many paths come before the first that is not below a prefix. */
  function LowerBound(paths: seq<ByteString>, prefix: ByteString): (n: nat)
    ensures n <= |paths|
    ensures forall i :: 0 <= i < n ==> Less(paths[i], prefix)
    ensures n < |paths| ==> !Less(paths[n], prefix)
  {
    if |paths| > 0 && Less(paths[0], prefix) then 1 + LowerBound(paths[1..], prefix) else 0
  }

  /** `take_while(starts_with).count()`. */
  function LeadingUnder(paths: seq<ByteString>, prefix: ByteString): (n: nat)
    ensures n <= |paths|
  {
    if |paths| > 0 && prefix <= paths[0] then 1 + LeadingUnder(paths[1..], prefix) else 0
  }

  /** Past the lower bound nothing is below the prefix any more, so the partition is real. */
  lemma PartitionPoint(paths: seq<ByteString>, prefix: ByteString, i: nat)
    requires StrictlySorted(paths) && LowerBound(paths, prefix) <= i < |paths|
    ensures !Less(paths[i], prefix)
  {
    var n := LowerBound(paths, prefix);
    if Less(paths[i], prefix) && n < i {
      LessTransitive(paths[n], paths[i], prefix);
    }
  }

  lemma {:induction false} NoneAfter(paths: seq<ByteString>, prefix: ByteString, first: ByteString)
    requires StrictlySorted(paths) && !(prefix <= first) && !Less(first, prefix)
    requires |paths| > 0 ==> Less(first, paths[0])
    ensures CountUnder(paths, prefix) == 0
  {
    if |paths| > 0 {
      if prefix <= paths[0] {
        LessTotal(first, prefix);
        assert Less(prefix, first);
        if prefix == paths[0] {
          LessAsymmetric(first, prefix);
        } else {
          PrefixContiguous(prefix, prefix, first, paths[0]);
        }
        assert false;
      }
      if Less(paths[0], prefix) {
        LessTransitive(first, paths[0], prefix);
        assert false;
      }
      NoneAfter(paths[1..], prefix, paths[0]);
    }
  }

  /** Under a prefix the paths form one run that starts at the lower bound. */
  lemma {:induction false} RunIsContiguous(paths: seq<ByteString>, prefix: ByteString)
    requires StrictlySorted(paths)
    ensures LeadingUnder(paths[LowerBound(paths, prefix)..], prefix) == CountUnder(paths, prefix)
  {
    if |paths| > 0 {
      PrefixLowerBound(prefix, paths[0], prefix);
      if Less(paths[0], prefix) {
        RunIsContiguous(paths[1..], prefix);
        assert paths[LowerBound(paths, prefix)..] == paths[1..][LowerBound(paths[1..], prefix)..];
      } else {
        assert paths[LowerBound(paths, prefix)..] == paths;
        RunFromStart(paths, prefix);
      }
    }
  }

  lemma {:induction false} RunFromStart(paths: seq<ByteString>, prefix: ByteString)
    requires StrictlySorted(paths) && (|paths| > 0 ==> !Less(paths[0], prefix))
    ensures LeadingUnder(paths, prefix) == CountUnder(paths, prefix)
  {
    if |paths| > 0 {
      if prefix <= paths[0] {
        if |paths| > 1 && Less(paths[1], prefix) {
          LessTransitive(paths[0], paths[1], prefix);
        }
        RunFromStart(paths[1..], prefix);
      } else {
        NoneAfter(paths[1..], prefix, paths[0]);
      }
    }
  }

  /** `partition_point` by bisection: sorted paths change from below the prefix to not below it once. */
  method FirstNotBelow(paths: seq<ByteString>, prefix: ByteString) returns (n: nat)
    requires StrictlySorted(paths)
    ensures n == LowerBound(paths, prefix)
  {
    n := 0;
    var end := |paths|;
    while n < end
      invariant n <= LowerBound(paths, prefix) <= end <= |paths|
    {
      var middle := n + (end - n) / 2;
      if LowerBound(paths, prefix) <= middle {
        PartitionPoint(paths, prefix, middle);
      }
      if Less(paths[middle], prefix) {
        n := middle + 1;
      } else {
        end := middle;
      }
    }
  }

  /** The check walks the tree with one prefix buffer, longer by a component inside each child. */
  method VerifyCacheTree(node: CacheTree, prefix: Vector<Byte>, paths: seq<ByteString>) returns (r: Result<()>)
    requires StrictlySorted(paths)
    modifies prefix
    ensures r == if Accurate(node, old(prefix.items), paths) then Ok(()) else Err(WrongCount)
    ensures r.Ok? ==> prefix.items == old(prefix.items)
    decreases node
  {
    var start := FirstNotBelow(paths, prefix.items);
    var covered := LeadingUnder(paths[start..], prefix.items);
    RunIsContiguous(paths, prefix.items);
    if covered != node.entries {
      return Err(WrongCount);
    }
    for i := 0 to |node.children|
      invariant prefix.items == old(prefix.items)
      invariant forall k :: 0 <= k < i ==>
                  Accurate(node.children[k], ChildPrefix(old(prefix.items), node.children[k].name), paths)
    {
      var child := node.children[i];
      var mark := |prefix.items|;
      prefix.items := prefix.items + child.name;
      prefix.items := prefix.items + [SLASH];
      r := VerifyCacheTree(child, prefix, paths);
      if r.Err? {
        return;
      }
      prefix.items := prefix.items[..mark];
    }
    r := Ok(());
  }

  /** The check gives one answer for a tree and for the same tree with its levels sorted. */
  lemma {:induction false} AccurateSorted(node: CacheTree, prefix: ByteString, paths: seq<ByteString>)
    ensures Accurate(SortedTree(node), prefix, paths) <==> Accurate(node, prefix, paths)
    decreases node
  {
    var sorted := Sorting.Sort(ByName, node.children);
    SortedTreeUnfolds(node);
    hide SortedTree;
    hide Sorting.Sort;
    hide ChildPrefix;
    forall c ensures c in sorted <==> c in node.children {
      Sorting.SortMembers(ByName, node.children, c);
    }
    forall i | 0 <= i < |sorted|
      ensures Accurate(SortedTree(sorted[i]), ChildPrefix(prefix, sorted[i].name), paths)
              <==> Accurate(sorted[i], ChildPrefix(prefix, sorted[i].name), paths)
    {
      assert sorted[i] in node.children;
      AccurateSorted(sorted[i], ChildPrefix(prefix, sorted[i].name), paths);
    }
    SameChildren(sorted, SortedTrees(sorted), prefix, paths);
  }

  lemma SameChildren(sorted: seq<CacheTree>, children: seq<CacheTree>, prefix: ByteString, paths: seq<ByteString>)
    requires |children| == |sorted|
    requires forall i :: 0 <= i < |sorted| ==>
      children[i].name == sorted[i].name
      && (Accurate(children[i], ChildPrefix(prefix, sorted[i].name), paths)
          <==> Accurate(sorted[i], ChildPrefix(prefix, sorted[i].name), paths))
    ensures (forall c <- children :: Accurate(c, ChildPrefix(prefix, c.name), paths))
            <==> (forall c <- sorted :: Accurate(c, ChildPrefix(prefix, c.name), paths))
  {
    hide *;
    if forall c <- children :: Accurate(c, ChildPrefix(prefix, c.name), paths) {
      forall c <- sorted ensures Accurate(c, ChildPrefix(prefix, c.name), paths) {
        var i :| 0 <= i < |sorted| && sorted[i] == c;
        assert children[i] in children;
      }
    }
    if forall c <- sorted :: Accurate(c, ChildPrefix(prefix, c.name), paths) {
      forall c <- children ensures Accurate(c, ChildPrefix(prefix, c.name), paths) {
        var i :| 0 <= i < |children| && children[i] == c;
        assert sorted[i] in sorted;
      }
    }
  }

  // ---------------------------------------------------------------------------
  // Writing and reading the extension
  // ---------------------------------------------------------------------------

  predicate AllSha1(node: CacheTree) {
    node.oid.algorithm == Sha1 && forall c <- node.children :: AllSha1(c)
  }

  /** A node's own line: path component, counts, tree ID. */
  function Line(node: CacheTree): ByteString {
    node.name + [NUL] + Decimal(node.entries) + [SPACE] + Decimal(|node.children|) + [NEWLINE] + node.oid.raw
  }

  function Body(node: CacheTree): ByteString
    decreases node, 1
  {
    Line(node) + Bodies(node.children)
  }

  function Bodies(nodes: seq<CacheTree>): ByteString
    decreases nodes, 0
  {
    if |nodes| == 0 then [] else Body(nodes[0]) + Bodies(nodes[1..])
  }

  lemma {:induction false} BodiesAppend(nodes: seq<CacheTree>, last: CacheTree)
    ensures Bodies(nodes + [last]) == Bodies(nodes) + Body(last)
  {
    if |nodes| == 0 {
      assert [last][1..] == [] && nodes + [last] == [last];
    } else {
      assert (nodes + [last])[1..] == nodes[1..] + [last];
      BodiesAppend(nodes[1..], last);
    }
  }

  lemma BodyUnfolds(node: CacheTree)
    ensures Body(node) == Line(node) + Bodies(node.children)
  {
  }

  method WriteLine(out: Vector<Byte>, node: CacheTree) returns (r: Result<()>)
    modifies out
    ensures r == if node.oid.algorithm == Sha1 then Ok(()) else Err(UnsupportedHash)
    ensures r.Ok? ==> out.items == old(out.items) + Line(node)
  {
    hide Decimal;
    out.items := out.items + node.name;
    out.items := out.items + [NUL];
    out.items := out.items + Decimal(node.entries);
    out.items := out.items + [SPACE];
    out.items := out.items + Decimal(|node.children|);
    out.items := out.items + [NEWLINE];
    if node.oid.algorithm != Sha1 {
      return Err(UnsupportedHash);
    }
    out.items := out.items + node.oid.raw;
    r := Ok(());
  }

  method WriteCacheTree(out: Vector<Byte>, node: CacheTree) returns (r: Result<()>)
    modifies out
    ensures r == if AllSha1(node) then Ok(()) else Err(UnsupportedHash)
    ensures r.Ok? ==> out.items == old(out.items) + Body(node)
    decreases node
  {
    hide Line;
    hide Body;
    BodyUnfolds(node);
    r := WriteLine(out, node);
    if r.Err? {
      return;
    }
    ghost var start, cs := out.items, node.children;
    for i := 0 to |node.children|
      invariant out.items == start + Bodies(cs[..i])
      invariant forall k :: 0 <= k < i ==> AllSha1(cs[k])
    {
      r := WriteCacheTree(out, node.children[i]);
      if r.Err? {
        return;
      }
      assert Bodies(cs[..i + 1]) == Bodies(cs[..i]) + Body(cs[i]) by {
        BodiesAppend(cs[..i], cs[i]);
        assert cs[..i + 1] == cs[..i] + [cs[i]];
      }
    }
    assert cs[..|cs|] == cs;
    r := Ok(());
  }

  datatype Read<+T> = Read(value: T, used: nat)

  /** A decimal field and the byte that ends it. */
  function ReadNumber(s: ByteString, end: Byte): (r: Option<Read<nat>>)
    ensures r.Some? ==> 0 < r.value.used <= |s|
  {
    match Position(s, end)
    case None => None
    case Some(k) =>
      match ParseI64(s[..k])
      case None => None
      case Some(n) => if n < 0 then None else Some(Read(n as nat, k + 1))
  }

  datatype Counts = Counts(entries: nat, children: nat)

  function ReadCounts(s: ByteString): (r: Option<Read<Counts>>)
    ensures r.Some? ==> 0 < r.value.used <= |s|
  {
    hide ReadNumber;
    match ReadNumber(s, SPACE)
    case None => None
    case Some(entries) =>
      match ReadNumber(s[entries.used..], NEWLINE)
      case None => None
      case Some(count) => Some(Read(Counts(entries.value, count.value), entries.used + count.used))
  }

  datatype NodeLine = NodeLine(name: ByteString, counts: Counts, oid: ByteString)

  function ReadLine(s: ByteString): (r: Option<Read<NodeLine>>)
    ensures r.Some? ==> 0 < r.value.used <= |s| && |r.value.value.oid| == 20
  {
    hide ReadCounts;
    hide Position;
    match Position(s, NUL)
    case None => None
    case Some(k) =>
      match ReadCounts(s[k + 1..])
      case None => None
      case Some(counts) =>
        var b := k + 1 + counts.used;
        if b + 20 > |s| then None else Some(Read(NodeLine(s[..k], counts.value, s[b..b + 20]), b + 20))
  }

  /** A reader of the extension: one node, then as many children as its line says. */
  function ReadTree(s: ByteString): (r: Option<Read<CacheTree>>)
    ensures r.Some? ==> 0 < r.value.used <= |s|
    decreases |s|, 1, 0
  {
    match ReadLine(s)
    case None => None
    case Some(line) =>
      var l := line.value;
      if l.counts.entries > U32_MAX then None
      else
        match ReadTrees(s[line.used..], l.counts.children)
        case None => None
        case Some(children) =>
          Some(Read(CacheTree(l.name, ObjectId(Sha1, l.oid), l.counts.entries, children.value), line.used + children.used))
  }

  function ReadTrees(s: ByteString, n: nat): (r: Option<Read<seq<CacheTree>>>)
    ensures r.Some? ==> r.value.used <= |s|
    decreases |s|, 2, n
  {
    if n == 0 then Some(Read([], 0))
    else
      match ReadTree(s)
      case None => None
      case Some(first) =>
        match ReadTrees(s[first.used..], n - 1)
        case None => None
        case Some(rest) => Some(Read([first.value] + rest.value, first.used + rest.used))
  }

  /** Names a reader can find the end of. */
  predicate NulFreeNames(node: CacheTree) {
    NUL !in node.name && |node.children| <= I64_MAX && forall c <- node.children :: NulFreeNames(c)
  }

  lemma ReadNumberInverts(n: nat, end: Byte, rest: ByteString)
    requires n <= I64_MAX && !(48 <= end < 58)
    ensures ReadNumber(Decimal(n) + [end] + rest, end) == Some(Read(n, |Decimal(n)| + 1))
  {
    var d := Decimal(n);
    var s := d + [end] + rest;
    assert s[|d|] == end && s[..|d|] == d;
    PositionUnique(s, end, |d|);
    ParseDecimal(n);
  }

  function CountsText(node: CacheTree): ByteString {
    Decimal(node.entries) + [SPACE] + Decimal(|node.children|) + [NEWLINE]
  }

  lemma ReadCountsInverts(node: CacheTree, rest: ByteString)
    requires |node.children| <= I64_MAX
    ensures ReadCounts(CountsText(node) + rest)
            == Some(Read(Counts(node.entries, |node.children|), |CountsText(node)|))
  {
    hide Decimal;
    hide ReadNumber;
    var entries, count := Decimal(node.entries), Decimal(|node.children|);
    var s, tail := CountsText(node) + rest, count + [NEWLINE] + rest;
    assert s == entries + [SPACE] + tail;
    ReadNumberInverts(node.entries, SPACE, tail);
    assert s[|entries| + 1..] == tail;
    ReadNumberInverts(|node.children|, NEWLINE, rest);
  }

  lemma LineParts(node: CacheTree, rest: ByteString)
    requires NUL !in node.name && node.oid.algorithm == Sha1
    ensures var s, k, b := Line(node) + rest, |node.name|, |node.name| + 1 + |CountsText(node)|;
            && b + 20 == |Line(node)|
            && s[..k] == node.name && Position(s, NUL) == Some(k)
            && s[k + 1..] == CountsText(node) + (node.oid.raw + rest)
            && s[b..b + 20] == node.oid.raw
  {
    hide Decimal;
    hide Position;
    var s, k := Line(node) + rest, |node.name|;
    var counts := CountsText(node);
    assert Line(node) == node.name + [NUL] + counts + node.oid.raw;
    hide CountsText;
    hide Line;
    assert s[..k] == node.name && s[k] == NUL;
    PositionUnique(s, NUL, k);
  }

  lemma ReadLineInverts(node: CacheTree, rest: ByteString)
    requires NUL !in node.name && |node.children| <= I64_MAX && node.oid.algorithm == Sha1
    ensures ReadLine(Line(node) + rest)
            == Some(Read(NodeLine(node.name, Counts(node.entries, |node.children|), node.oid.raw), |Line(node)|))
  {
    hide ReadCounts;
    hide Position;
    hide CountsText;
    hide Line;
    LineParts(node, rest);
    ReadCountsInverts(node, node.oid.raw + rest);
  }

  /** Reading back what was written gives the tree, whatever follows it. */
  lemma {:induction false} ReadTreeInverts(node: CacheTree, rest: ByteString)
    requires AllSha1(node) && NulFreeNames(node)
    ensures ReadTree(Body(node) + rest) == Some(Read(node, |Body(node)|))
    decreases node, 1
  {
    hide ReadLine;
    hide Line;
    assert Body(node) + rest == Line(node) + (Bodies(node.children) + rest);
    ReadLineInverts(node, Bodies(node.children) + rest);
    assert (Body(node) + rest)[|Line(node)|..] == Bodies(node.children) + rest;
    ReadTreesInvert(node.children, rest);
  }

  lemma {:induction false} ReadTreesInvert(nodes: seq<CacheTree>, rest: ByteString)
    requires forall c <- nodes :: AllSha1(c) && NulFreeNames(c)
    ensures ReadTrees(Bodies(nodes) + rest, |nodes|) == Some(Read(nodes, |Bodies(nodes)|))
    decreases nodes, 0
  {
    hide Body;
    hide ReadTree;
    if |nodes| > 0 {
      var tail := Bodies(nodes[1..]) + rest;
      assert Bodies(nodes) + rest == Body(nodes[0]) + tail;
      ReadTreeInverts(nodes[0], tail);
      assert (Body(nodes[0]) + tail)[|Body(nodes[0])|..] == tail;
      ReadTreesInvert(nodes[1..], rest);
      assert nodes == [nodes[0]] + nodes[1..];
      hide AllSha1;
      hide NulFreeNames;
    }
  }
}
