/**
 * The preorder stream of the untracked cache (gitformat-index(5), "Untracked
 * cache"): parents before children, siblings in byte order, each directory with
 * the number of its children.
 */
module DirectoryTrees {
  import opened Wrappers
  import opened Bytes
  import opened IndexFormat
  import opened Components
  import opened DirectoryTables
  import Sorting
  import Varint

  // ---------------------------------------------------------------------------
  // Tables as forests
  // ---------------------------------------------------------------------------

  /** The table holds exactly the directories of `list`, each under its parent, whatever the order of siblings. */
  ghost predicate Represents(table: seq<Dir>, list: seq<DirPath>) {
    && |table| == |list| && |list| > 0 && list[0] == [] && Distinct(list) && ParentsFirst(list)
    && (forall k :: 0 <= k < |table| ==> table[k].name == NameOf(list[k]))
    && (forall k :: 0 <= k < |table| ==> multiset(table[k].children) == multiset(ChildrenOf(list, list[k])))
  }

  /** Children come after their parent. */
  predicate Shaped(table: seq<Dir>) {
    forall k :: 0 <= k < |table| ==> Within(table, k, table[k].children)
  }

  predicate Within(table: seq<Dir>, lo: nat, cs: seq<nat>) {
    forall i :: 0 <= i < |cs| ==> lo < cs[i] < |table|
  }

  lemma ChildMeaning(table: seq<Dir>, list: seq<DirPath>, k: nat, c: nat)
    requires Represents(table, list) && k < |table|
    ensures c in table[k].children <==> c < |list| && IsChild(list[c], list[k])
    ensures multiset(table[k].children)[c] <= 1
  {
    assert c in table[k].children <==> c in multiset(table[k].children);
    assert c in ChildrenOf(list, list[k]) <==> c in multiset(ChildrenOf(list, list[k]));
    ChildrenOnce(list, list[k], c);
  }

  lemma {:induction false} ChildrenOnce(list: seq<DirPath>, parent: DirPath, c: nat)
    ensures multiset(ChildrenOf(list, parent))[c] <= 1
    ensures multiset(ChildrenOf(list, parent))[c] == 1 <==> c < |list| && IsChild(list[c], parent)
  {
    if |list| > 0 {
      ChildrenOnce(list[..|list| - 1], parent, c);
    }
  }

  lemma SamePosition(list: seq<DirPath>, a: nat, b: nat)
    requires Distinct(list) && a < |list| && b < |list| && list[a] == list[b]
    ensures a == b
  {
  }

  lemma ChildAfterParent(list: seq<DirPath>, k: nat, c: nat)
    requires Distinct(list) && ParentsFirst(list) && k < |list| && c < |list| && IsChild(list[c], list[k])
    ensures k < c
  {
    var p :| 0 <= p < c && list[p] == Parent(list[c]);
    SamePosition(list, p, k);
  }

  lemma RepresentsIsShaped(table: seq<Dir>, list: seq<DirPath>)
    requires Represents(table, list)
    ensures Shaped(table)
  {
    RepresentsFacts(table, list);
    hide Represents;
    forall k, i | 0 <= k < |table| && 0 <= i < |table[k].children| ensures k < table[k].children[i] < |table| {
      var c := table[k].children[i];
      ChildMeaning(table, list, k, c);
      hide Distinct;
      hide ParentsFirst;
      ChildAfterParent(list, k, c);
    }
  }

  lemma TableRepresents(items: seq<Item>)
    requires StrictlySorted(PathsOf(items))
    ensures Represents(TableOf(items), DirList(PathsOf(items)))
  {
    CreatesEachOnce(PathsOf(items));
    ParentsComeFirst(PathsOf(items));
  }

  // ---------------------------------------------------------------------------
  // Siblings in byte order
  // ---------------------------------------------------------------------------

  function NameAt(table: seq<Dir>, k: nat): Name {
    if k < |table| then table[k].name else []
  }

  function SiblingOrder(table: seq<Dir>): (nat, nat) -> bool {
    (a: nat, b: nat) => !Less(NameAt(table, b), NameAt(table, a))
  }

  function SortedRow(table: seq<Dir>, k: nat): Dir
    requires k < |table|
  {
    table[k].(children := Sorting.Sort(SiblingOrder(table), table[k].children))
  }

  function SortedTable(table: seq<Dir>): (r: seq<Dir>)
    ensures |r| == |table|
  {
    seq(|table|, k requires 0 <= k < |table| => SortedRow(table, k))
  }

  lemma SiblingPreorder(table: seq<Dir>)
    ensures Sorting.TotalPreorder(SiblingOrder(table))
  {
    var leq := SiblingOrder(table);
    forall x: nat, y: nat ensures leq(x, y) || leq(y, x) {
      if Less(NameAt(table, x), NameAt(table, y)) { LessAsymmetric(NameAt(table, x), NameAt(table, y)); }
    }
    forall x: nat, y: nat, z: nat | leq(x, y) && leq(y, z) ensures leq(x, z) {
      var a, b, c := NameAt(table, x), NameAt(table, y), NameAt(table, z);
      LessTotal(a, b);
      if Less(c, a) && Less(a, b) { LessTransitive(c, a, b); }
    }
  }

  lemma SortedRepresents(table: seq<Dir>, list: seq<DirPath>)
    requires Represents(table, list)
    ensures Represents(SortedTable(table), list)
  {
    hide Sorting.Sort;
    hide ChildrenOf;
    hide Distinct;
    hide ParentsFirst;
    hide NameOf;
    forall k | 0 <= k < |table|
      ensures multiset(SortedTable(table)[k].children) == multiset(ChildrenOf(list, list[k]))
    {
      Sorting.SortPermutes(SiblingOrder(table), table[k].children);
    }
  }

  /** Two directories with one parent and one name are the same. */
  lemma SiblingsDiffer(list: seq<DirPath>, parent: DirPath, a: nat, b: nat)
    requires Distinct(list) && a < |list| && b < |list| && a != b
    requires IsChild(list[a], parent) && IsChild(list[b], parent)
    ensures NameOf(list[a]) != NameOf(list[b])
  {
    assert list[a] == Parent(list[a]) + [NameOf(list[a])];
    assert list[b] == Parent(list[b]) + [NameOf(list[b])];
    assert list[a] != list[b];
  }

  /** In the sorted table siblings are strictly increasing by name. */
  lemma SiblingsIncrease(table: seq<Dir>, list: seq<DirPath>, k: nat, i: nat, j: nat)
    requires Represents(table, list) && k < |table| && i < j < |SortedTable(table)[k].children|
    ensures var cs := SortedTable(table)[k].children;
            cs[i] < |table| && cs[j] < |table| && Less(table[cs[i]].name, table[cs[j]].name)
  {
    SortedRepresents(table, list);
    var cs := SortedTable(table)[k].children;
    SiblingPreorder(table);
    Sorting.SortSorts(SiblingOrder(table), table[k].children);
    assert SiblingOrder(table)(cs[i], cs[j]);
    ChildMeaning(SortedTable(table), list, k, cs[i]);
    ChildMeaning(SortedTable(table), list, k, cs[j]);
    assert cs[i] != cs[j] by {
      TwiceAt(cs, i, j);
    }
    SiblingsDiffer(list, list[k], cs[i], cs[j]);
    LessTotal(table[cs[i]].name, table[cs[j]].name);
  }

  // ---------------------------------------------------------------------------
  // Preorder
  // ---------------------------------------------------------------------------

  function Preorder(table: seq<Dir>, i: nat): seq<nat>
    requires Shaped(table) && i < |table|
    decreases |table| - i, 1, 0
  {
    [i] + PreorderAll(table, i, table[i].children)
  }

  function PreorderAll(table: seq<Dir>, lo: nat, cs: seq<nat>): seq<nat>
    requires Shaped(table) && lo < |table| && Within(table, lo, cs)
    decreases |table| - lo, 0, |cs|
  {
    if |cs| == 0 then [] else Preorder(table, cs[0]) + PreorderAll(table, lo, cs[1..])
  }

  predicate InRange(cs: seq<nat>, n: nat) {
    forall i :: 0 <= i < |cs| ==> cs[i] < n
  }

  /** The path of each directory in preorder. */
  function PathsAt(list: seq<DirPath>, order: seq<nat>): (r: seq<DirPath>)
    requires InRange(order, |list|)
    ensures |r| == |order|
  {
    seq(|order|, i requires 0 <= i < |order| => list[order[i]])
  }

  /** How many of `cs` contain `list[j]`. */
  function Containing(list: seq<DirPath>, cs: seq<nat>, j: nat): nat
    requires j < |list| && InRange(cs, |list|)
  {
    if |cs| == 0 then 0
    else (if list[cs[0]] <= list[j] then 1 else 0) + Containing(list, cs[1..], j)
  }

  /** All of `cs` are directly inside `list[i]`. */
  predicate ChildrenAt(list: seq<DirPath>, cs: seq<nat>, i: nat) {
    i < |list| && InRange(cs, |list|) && forall k :: 0 <= k < |cs| ==> IsChild(list[cs[k]], list[i])
  }

  lemma RowChildren(table: seq<Dir>, list: seq<DirPath>, i: nat)
    requires Represents(table, list) && i < |table|
    ensures ChildrenAt(list, table[i].children, i)
  {
    var cs := table[i].children;
    forall k | 0 <= k < |cs| ensures cs[k] < |list| && IsChild(list[cs[k]], list[i]) {
      ChildMeaning(table, list, i, cs[k]);
    }
  }

  /** Preorder from `i` visits each directory under `i` exactly once and nothing else. */
  lemma {:induction false} PreorderCount(table: seq<Dir>, list: seq<DirPath>, i: nat, j: nat)
    requires Represents(table, list) && Shaped(table) && i < |table| && j < |table|
    ensures multiset(Preorder(table, i))[j] == if list[i] <= list[j] then 1 else 0
    decreases |table| - i, 1, 0
  {
    hide Represents;
    hide PreorderAll;
    hide ParentsFirst;
    hide Containing;
    var cs := table[i].children;
    RepresentsFacts(table, list);
    RowChildren(table, list, i);
    PreorderAllCount(table, list, i, cs, j);
    if list[i] == list[j] {
      SamePosition(list, i, j);
      NoneContaining(list, cs, i, j);
    } else if list[i] <= list[j] {
      var c := ChildToward(list, i, j);
      ChildMeaning(table, list, i, c);
      OneContaining(list, cs, i, j, c);
    } else {
      NoneContaining(list, cs, i, j);
    }
  }

  lemma RepresentsFacts(table: seq<Dir>, list: seq<DirPath>)
    requires Represents(table, list)
    ensures |table| == |list| && |list| > 0 && list[0] == [] && Distinct(list) && ParentsFirst(list)
    ensures forall k :: 0 <= k < |table| ==> table[k].name == NameOf(list[k])
  {
  }

  lemma {:induction false} PreorderAllCount(table: seq<Dir>, list: seq<DirPath>, lo: nat, cs: seq<nat>, j: nat)
    requires Represents(table, list) && |table| == |list| && Shaped(table)
    requires lo < |table| && Within(table, lo, cs) && j < |table| && InRange(cs, |list|)
    ensures multiset(PreorderAll(table, lo, cs))[j] == Containing(list, cs, j)
    decreases |table| - lo, 0, |cs|
  {
    hide Represents;
    if |cs| > 0 {
      PreorderCount(table, list, cs[0], j);
      PreorderAllCount(table, list, lo, cs[1..], j);
    }
  }

  lemma {:induction false} NoneContaining(list: seq<DirPath>, cs: seq<nat>, i: nat, j: nat)
    requires ChildrenAt(list, cs, i) && j < |list|
    requires list[i] == list[j] || !(list[i] <= list[j])
    ensures Containing(list, cs, j) == 0
  {
    if |cs| > 0 {
      assert list[i] == list[cs[0]][..|list[i]|] && |list[i]| < |list[cs[0]]|;
      NoneContaining(list, cs[1..], i, j);
    }
  }

  /** The child of `list[i]` on the way to `list[j]`. */
  lemma {:induction false} ChildToward(list: seq<DirPath>, i: nat, j: nat) returns (c: nat)
    requires Distinct(list) && ParentsFirst(list) && i < |list| && j < |list| && list[i] < list[j]
    ensures c < |list| && IsChild(list[c], list[i]) && list[c] <= list[j]
    decreases |list[j]|
  {
    if |list[j]| == |list[i]| + 1 {
      c := j;
    } else {
      var p :| 0 <= p < j && list[p] == Parent(list[j]);
      c := ChildToward(list, i, p);
    }
  }

  lemma {:induction false} OneContaining(list: seq<DirPath>, cs: seq<nat>, i: nat, j: nat, c: nat)
    requires ChildrenAt(list, cs, i) && Distinct(list) && j < |list| && c < |list|
    requires IsChild(list[c], list[i]) && list[c] <= list[j]
    ensures Containing(list, cs, j) == multiset(cs)[c]
  {
    if |cs| > 0 {
      var x := cs[0];
      if list[x] <= list[j] {
        assert list[x] == list[j][..|list[i]| + 1] == list[c];
        SamePosition(list, x, c);
      }
      OneContaining(list, cs[1..], i, j, c);
      assert cs == [x] + cs[1..];
    }
  }

  lemma {:induction false} PreorderInRange(table: seq<Dir>, i: nat)
    requires Shaped(table) && i < |table|
    ensures InRange(Preorder(table, i), |table|)
    decreases |table| - i, 1, 0
  {
    PreorderAllInRange(table, i, table[i].children);
  }

  lemma {:induction false} PreorderAllInRange(table: seq<Dir>, lo: nat, cs: seq<nat>)
    requires Shaped(table) && lo < |table| && Within(table, lo, cs)
    ensures InRange(PreorderAll(table, lo, cs), |table|)
    decreases |table| - lo, 0, |cs|
  {
    if |cs| > 0 {
      PreorderInRange(table, cs[0]);
      PreorderAllInRange(table, lo, cs[1..]);
    }
  }

  lemma {:induction false} IndexesCount(n: nat, j: nat)
    ensures multiset(Indexes(n))[j] == if j < n then 1 else 0
  {
    if n > 0 {
      assert Indexes(n) == Indexes(n - 1) + [n - 1];
      IndexesCount(n - 1, j);
    }
  }

  lemma NotIn(s: seq<nat>, n: nat, j: nat)
    requires InRange(s, n) && j >= n
    ensures multiset(s)[j] == 0
  {
    assert j !in s;
  }

  /** The walk from the root is a permutation of the table: every directory once. */
  lemma PreorderPermutes(table: seq<Dir>, list: seq<DirPath>)
    requires Represents(table, list) && |table| == |list| && |table| > 0 && list[0] == [] && Shaped(table)
    ensures multiset(Preorder(table, 0)) == multiset(Indexes(|table|))
    ensures |Preorder(table, 0)| == |table|
  {
    hide *;
    var order: seq<nat>, n: nat := Preorder(table, 0), |table|;
    PreorderInRange(table, 0);
    forall j: nat ensures multiset(order)[j] == multiset(Indexes(n))[j] {
      IndexesCount(n, j);
      if j < n {
        PreorderCount(table, list, 0, j);
        assert list[0] <= list[j];
      } else {
        NotIn(order, n, j);
      }
    }
    assert multiset(order) == multiset(Indexes(n));
    assert |multiset(order)| == |order| && |multiset(Indexes(n))| == n;
  }

  lemma {:induction false} FewChildren(list: seq<DirPath>, parent: DirPath)
    ensures |ChildrenOf(list, parent)| <= |list|
  {
    if |list| > 0 {
      FewChildren(list[..|list| - 1], parent);
    }
  }

  lemma RowsBounded(table: seq<Dir>, list: seq<DirPath>)
    requires Represents(table, list)
    ensures forall k :: 0 <= k < |table| ==> |table[k].children| <= |list|
  {
    forall k | 0 <= k < |table| ensures |table[k].children| <= |list| {
      FewChildren(list, list[k]);
      assert |multiset(table[k].children)| == |multiset(ChildrenOf(list, list[k]))|;
    }
  }

  // ---------------------------------------------------------------------------
  // The tree a table stands for, and its stream
  // ---------------------------------------------------------------------------

  datatype DirTree = DirTree(name: Name, children: seq<DirTree>)

  function TreeAt(table: seq<Dir>, i: nat): DirTree
    requires Shaped(table) && i < |table|
    decreases |table| - i, 1, 0
  {
    DirTree(table[i].name, TreesAt(table, i, table[i].children))
  }

  function TreesAt(table: seq<Dir>, lo: nat, cs: seq<nat>): (r: seq<DirTree>)
    requires Shaped(table) && lo < |table| && Within(table, lo, cs)
    ensures |r| == |cs| && forall k :: 0 <= k < |r| ==> r[k].name == table[cs[k]].name
    decreases |table| - lo, 0, |cs|
  {
    if |cs| == 0 then [] else [TreeAt(table, cs[0])] + TreesAt(table, lo, cs[1..])
  }

  /** The directories of a tree in preorder, by path. */
  function PathsIn(tree: DirTree, at: DirPath): seq<DirPath>
    decreases tree, 1
  {
    [at] + PathsInAll(tree.children, at)
  }

  function PathsInAll(trees: seq<DirTree>, at: DirPath): seq<DirPath>
    decreases trees, 0
  {
    if |trees| == 0 then [] else PathsIn(trees[0], at + [trees[0].name]) + PathsInAll(trees[1..], at)
  }

  /** The tree has the paths the table lists, in the same order. */
  lemma {:induction false} TreePaths(table: seq<Dir>, list: seq<DirPath>, i: nat)
    requires Represents(table, list) && |table| == |list| && Shaped(table) && i < |table| && InRange(Preorder(table, i), |list|)
    ensures PathsIn(TreeAt(table, i), list[i]) == PathsAt(list, Preorder(table, i))
    decreases |table| - i, 1, 0
  {
    hide Represents;
    var cs := table[i].children;
    RowChildren(table, list, i);
    PreorderAllInRange(table, i, cs);
    TreesPaths(table, list, i, cs);
    hide PathsInAll;
    hide PreorderAll;
    assert PathsAt(list, [i] + PreorderAll(table, i, cs)) == [list[i]] + PathsAt(list, PreorderAll(table, i, cs));
  }

  lemma {:induction false} TreesPaths(table: seq<Dir>, list: seq<DirPath>, lo: nat, cs: seq<nat>)
    requires Represents(table, list) && |table| == |list| && Shaped(table) && lo < |table|
    requires Within(table, lo, cs) && ChildrenAt(list, cs, lo) && InRange(PreorderAll(table, lo, cs), |list|)
    ensures PathsInAll(TreesAt(table, lo, cs), list[lo]) == PathsAt(list, PreorderAll(table, lo, cs))
    decreases |table| - lo, 0, |cs|
  {
    if |cs| > 0 {
      var c, rest := cs[0], cs[1..];
      RepresentsFacts(table, list);
      ForestCons(table, lo, cs);
      ChildName(list, cs, lo);
      assert table[c].name == NameOf(list[c]);
      hide *;
      PreorderInRange(table, c);
      PreorderAllInRange(table, lo, rest);
      TreePaths(table, list, c);
      TreesPaths(table, list, lo, rest);
      PathsInCons(TreeAt(table, c), TreesAt(table, lo, rest), list[lo]);
      PathsAtConcat(list, Preorder(table, c), PreorderAll(table, lo, rest));
      TreeName(table, c);
    }
  }

  lemma TreeName(table: seq<Dir>, i: nat)
    requires Shaped(table) && i < |table|
    ensures TreeAt(table, i).name == table[i].name
  {
  }

  lemma ForestCons(table: seq<Dir>, lo: nat, cs: seq<nat>)
    requires Shaped(table) && lo < |table| && Within(table, lo, cs) && |cs| > 0
    ensures lo < cs[0] < |table| && Within(table, lo, cs[1..])
    ensures PreorderAll(table, lo, cs) == Preorder(table, cs[0]) + PreorderAll(table, lo, cs[1..])
    ensures TreesAt(table, lo, cs) == [TreeAt(table, cs[0])] + TreesAt(table, lo, cs[1..])
  {
  }

  lemma ChildName(list: seq<DirPath>, cs: seq<nat>, i: nat)
    requires ChildrenAt(list, cs, i) && |cs| > 0
    ensures ChildrenAt(list, cs[1..], i) && cs[0] < |list|
    ensures list[cs[0]] == list[i] + [NameOf(list[cs[0]])]
  {
    assert IsChild(list[cs[0]], list[i]);
  }

  lemma PathsInCons(tree: DirTree, trees: seq<DirTree>, at: DirPath)
    ensures PathsInAll([tree] + trees, at) == PathsIn(tree, at + [tree.name]) + PathsInAll(trees, at)
  {
    assert ([tree] + trees)[1..] == trees;
  }

  lemma PathsAtConcat(list: seq<DirPath>, a: seq<nat>, b: seq<nat>)
    requires InRange(a, |list|) && InRange(b, |list|)
    ensures InRange(a + b, |list|) && PathsAt(list, a + b) == PathsAt(list, a) + PathsAt(list, b)
  {
  }

  /** No untracked entries, the number of children, the name. */
  function DirLine(name: Name, children: nat): ByteString {
    Varint.Encode(0) + Varint.Encode(children) + name + [NUL]
  }

  function StreamOf(tree: DirTree): ByteString
    decreases tree, 1
  {
    DirLine(tree.name, |tree.children|) + StreamsOf(tree.children)
  }

  function StreamsOf(trees: seq<DirTree>): ByteString
    decreases trees, 0
  {
    if |trees| == 0 then [] else StreamOf(trees[0]) + StreamsOf(trees[1..])
  }

  /** The lines of the directories in a given order. */
  function Lines(table: seq<Dir>, order: seq<nat>): ByteString
    requires InRange(order, |table|)
  {
    if |order| == 0 then []
    else DirLine(table[order[0]].name, |table[order[0]].children|) + Lines(table, order[1..])
  }

  lemma {:induction false} LinesConcat(table: seq<Dir>, a: seq<nat>, b: seq<nat>)
    requires InRange(a, |table|) && InRange(b, |table|)
    ensures InRange(a + b, |table|) && Lines(table, a + b) == Lines(table, a) + Lines(table, b)
  {
    hide DirLine;
    if |a| == 0 {
      assert a + b == b;
    } else {
      assert (a + b)[1..] == a[1..] + b;
      LinesConcat(table, a[1..], b);
    }
  }

  /** Printing the lines in preorder prints the tree. */
  lemma {:induction false} LinesAreStream(table: seq<Dir>, i: nat)
    requires Shaped(table) && i < |table| && InRange(Preorder(table, i), |table|)
    ensures Lines(table, Preorder(table, i)) == StreamOf(TreeAt(table, i))
    decreases |table| - i, 1, 0
  {
    hide DirLine;
    var cs := table[i].children;
    PreorderAllInRange(table, i, cs);
    assert ([i] + PreorderAll(table, i, cs))[1..] == PreorderAll(table, i, cs);
    LinesAreStreams(table, i, cs);
    hide StreamsOf;
  }

  lemma {:induction false} LinesAreStreams(table: seq<Dir>, lo: nat, cs: seq<nat>)
    requires Shaped(table) && lo < |table| && Within(table, lo, cs) && InRange(PreorderAll(table, lo, cs), |table|)
    ensures Lines(table, PreorderAll(table, lo, cs)) == StreamsOf(TreesAt(table, lo, cs))
    decreases |table| - lo, 0, |cs|
  {
    if |cs| > 0 {
      PreorderInRange(table, cs[0]);
      PreorderAllInRange(table, lo, cs[1..]);
      LinesAreStream(table, cs[0]);
      LinesAreStreams(table, lo, cs[1..]);
      assert TreesAt(table, lo, cs)[1..] == TreesAt(table, lo, cs[1..]);
      hide Lines;
      LinesConcat(table, Preorder(table, cs[0]), PreorderAll(table, lo, cs[1..]));
    }
  }

  // ---------------------------------------------------------------------------
  // Reading the stream
  // ---------------------------------------------------------------------------

  datatype Parsed<+T> = Parsed(value: T, used: nat)

  datatype LineRead = LineRead(untracked: nat, children: nat, name: Name)

  function ReadLine(s: ByteString): (r: Option<Parsed<LineRead>>)
    ensures r.Some? ==> 0 < r.value.used <= |s|
  {
    hide Position;
    match Varint.DecodeWrapping(s, 0)
    case None => None
    case Some(untracked) =>
      match Varint.DecodeWrapping(s[untracked.used..], 0)
      case None => None
      case Some(children) =>
        var a := untracked.used + children.used;
        match Position(s[a..], NUL)
        case None => None
        case Some(n) => Some(Parsed(LineRead(untracked.value, children.value, s[a..a + n]), a + n + 1))
  }

  /** A reader of the stream; this writer records no untracked names, so one with names is not its own. */
  function ReadTree(s: ByteString): (r: Option<Parsed<DirTree>>)
    ensures r.Some? ==> 0 < r.value.used <= |s|
    decreases |s|, 1, 0
  {
    match ReadLine(s)
    case None => None
    case Some(line) =>
      if line.value.untracked != 0 then None
      else
        match ReadTrees(s[line.used..], line.value.children)
        case None => None
        case Some(children) => Some(Parsed(DirTree(line.value.name, children.value), line.used + children.used))
  }

  function ReadTrees(s: ByteString, n: nat): (r: Option<Parsed<seq<DirTree>>>)
    ensures r.Some? ==> r.value.used <= |s|
    decreases |s|, 2, n
  {
    if n == 0 then Some(Parsed([], 0))
    else
      match ReadTree(s)
      case None => None
      case Some(first) =>
        match ReadTrees(s[first.used..], n - 1)
        case None => None
        case Some(rest) => Some(Parsed([first.value] + rest.value, first.used + rest.used))
  }

  predicate Printable(tree: DirTree) {
    NUL !in tree.name && |tree.children| <= U64_MAX && forall c <- tree.children :: Printable(c)
  }

  lemma ReadLineInverts(name: Name, children: nat, rest: ByteString)
    requires NUL !in name && children <= U64_MAX
    ensures ReadLine(DirLine(name, children) + rest) == Some(Parsed(LineRead(0, children, name), |DirLine(name, children)|))
  {
    hide *;
    LineFields(name, children, rest);
    ReadLineAt(DirLine(name, children) + rest, |Varint.Encode(0)|, |Varint.Encode(children)|, name, children);
  }

  /** The fields of a printed line, each read at its place. */
  lemma LineFields(name: Name, children: nat, rest: ByteString)
    requires NUL !in name && children <= U64_MAX
    ensures var s, z, c := DirLine(name, children) + rest, |Varint.Encode(0)|, |Varint.Encode(children)|;
            && z + c + |name| + 1 == |DirLine(name, children)|
            && Varint.DecodeWrapping(s, 0) == Some(Varint.Decoded(0, z))
            && Varint.DecodeWrapping(s[z..], 0) == Some(Varint.Decoded(children, c))
            && Position(s[z + c..], NUL) == Some(|name|) && s[z + c..z + c + |name|] == name
  {
    hide Varint.Encode;
    hide Varint.DecodeWrapping;
    hide Position;
    var zero, count, tail := Varint.Encode(0), Varint.Encode(children), name + [NUL] + rest;
    CutLine(zero, count, name, rest);
    Varint.WrappingRoundTrip(0, count + tail);
    Varint.WrappingRoundTrip(children, tail);
    PositionUnique(tail, NUL, |name|);
  }

  lemma CutLine(zero: ByteString, count: ByteString, name: Name, rest: ByteString)
    ensures var s, tail, a := zero + count + name + [NUL] + rest, name + [NUL] + rest, |zero| + |count|;
            && s == zero + (count + tail) && s[|zero|..] == count + tail && s[a..] == tail
            && tail[|name|] == NUL && tail[..|name|] == name && s[a..a + |name|] == name
  {
  }

  lemma ReadLineAt(s: ByteString, z: nat, c: nat, name: Name, children: nat)
    requires z <= |s| && z + c + |name| <= |s|
    requires Varint.DecodeWrapping(s, 0) == Some(Varint.Decoded(0, z))
    requires Varint.DecodeWrapping(s[z..], 0) == Some(Varint.Decoded(children, c))
    requires Position(s[z + c..], NUL) == Some(|name|) && s[z + c..z + c + |name|] == name
    ensures ReadLine(s) == Some(Parsed(LineRead(0, children, name), z + c + |name| + 1))
  {
    hide Varint.DecodeWrapping;
    hide Position;
  }

  /** The stream decodes to exactly the tree it was printed from. */
  lemma {:induction false} StreamDecodes(tree: DirTree, rest: ByteString)
    requires Printable(tree)
    ensures ReadTree(StreamOf(tree) + rest) == Some(Parsed(tree, |StreamOf(tree)|))
    decreases tree, 1
  {
    hide ReadLine;
    hide DirLine;
    var line := DirLine(tree.name, |tree.children|);
    assert StreamOf(tree) + rest == line + (StreamsOf(tree.children) + rest);
    ReadLineInverts(tree.name, |tree.children|, StreamsOf(tree.children) + rest);
    assert (StreamOf(tree) + rest)[|line|..] == StreamsOf(tree.children) + rest;
    StreamsDecode(tree.children, rest);
  }

  lemma {:induction false} StreamsDecode(trees: seq<DirTree>, rest: ByteString)
    requires forall t <- trees :: Printable(t)
    ensures ReadTrees(StreamsOf(trees) + rest, |trees|) == Some(Parsed(trees, |StreamsOf(trees)|))
    decreases trees, 0
  {
    hide StreamOf;
    hide ReadTree;
    if |trees| > 0 {
      var s := StreamsOf(trees) + rest;
      assert s == StreamOf(trees[0]) + (StreamsOf(trees[1..]) + rest);
      StreamDecodes(trees[0], StreamsOf(trees[1..]) + rest);
      assert s[|StreamOf(trees[0])|..] == StreamsOf(trees[1..]) + rest;
      StreamsDecode(trees[1..], rest);
      assert trees == [trees[0]] + trees[1..];
    }
  }
}
