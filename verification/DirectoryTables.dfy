/**
 * The directory table of an index: one pass over the entries with the chain of
 * open directories, because everything under a directory is contiguous.
 */
module DirectoryTables {
  import opened Wrappers
  import opened Bytes
  import opened GitTypes
  import opened IndexFormat
  import opened Components

  type DirPath = seq<Name>

  datatype Dir = Dir(name: Name, children: seq<nat>, gitignore: Option<Digest>)

  function GitignoreName(): ByteString {
    Ascii(".gitignore")
  }

  // ---------------------------------------------------------------------------
  // Which directories the pass creates, in order
  // ---------------------------------------------------------------------------

  /** How many leading components two directories share. */
  function Common(a: DirPath, b: DirPath): (n: nat)
    ensures n <= |a| && n <= |b| && a[..n] == b[..n]
    ensures n < |a| && n < |b| ==> a[n] != b[n]
  {
    if |a| > 0 && |b| > 0 && a[0] == b[0] then
      var n := Common(a[1..], b[1..]);
      assert a[..n + 1] == [a[0]] + a[1..][..n] && b[..n + 1] == [b[0]] + b[1..][..n];
      n + 1
    else 0
  }

  function PathsOf(items: seq<Item>): (r: seq<ByteString>)
    ensures |r| == |items| && forall i :: 0 <= i < |r| ==> r[i] == items[i].path
  {
    seq(|items|, i requires 0 <= i < |items| => items[i].path)
  }

  /** The directory of the last path. */
  function LastDir(paths: seq<ByteString>): DirPath {
    if |paths| == 0 then [] else DirOf(paths[|paths| - 1])
  }

  /** The prefixes of `current` longer than what it shares with `previous`. */
  function NewDirs(previous: DirPath, current: DirPath): (r: seq<DirPath>)
    ensures |r| == |current| - Common(previous, current)
  {
    var kept := Common(previous, current);
    seq(|current| - kept, i requires 0 <= i < |current| - kept => current[..kept + 1 + i])
  }

  /** The directories after the entries so far, the root first. */
  function DirList(paths: seq<ByteString>): (r: seq<DirPath>)
    ensures |r| > 0 && r[0] == []
  {
    if |paths| == 0 then [[]]
    else
      var before := paths[..|paths| - 1];
      DirList(before) + NewDirs(LastDir(before), DirOf(paths[|paths| - 1]))
  }

  ghost predicate Ancestor(d: DirPath, paths: seq<ByteString>) {
    exists i :: 0 <= i < |paths| && d <= DirOf(paths[i])
  }

  lemma NewDirsMembers(previous: DirPath, current: DirPath, d: DirPath)
    ensures d in NewDirs(previous, current) <==> Common(previous, current) < |d| && d <= current
  {
    hide Common;
    var kept := Common(previous, current);
    if kept < |d| && d <= current {
      assert NewDirs(previous, current)[|d| - kept - 1] == current[..|d|] == d;
    }
  }

  lemma AncestorSnoc(paths: seq<ByteString>, d: DirPath)
    requires |paths| > 0
    ensures Ancestor(d, paths) <==> Ancestor(d, paths[..|paths| - 1]) || d <= DirOf(paths[|paths| - 1])
  {
    hide DirOf;
    var n := |paths| - 1;
    if i :| 0 <= i < |paths| && d <= DirOf(paths[i]) {
      if i < n { assert paths[..n][i] == paths[i]; }
    }
    if i :| 0 <= i < n && d <= DirOf(paths[..n][i]) {
      assert d <= DirOf(paths[i]);
    }
  }

  /** The pass creates exactly the directories that contain an entry, and the root. */
  lemma {:induction false} CreatesEveryAncestor(paths: seq<ByteString>, d: DirPath)
    ensures d in DirList(paths) <==> d == [] || Ancestor(d, paths)
  {
    if |paths| > 0 {
      var before, current := paths[..|paths| - 1], DirOf(paths[|paths| - 1]);
      var previous := LastDir(before);
      CreatesEveryAncestor(before, d);
      NewDirsMembers(previous, current, d);
      AncestorSnoc(paths, d);
      if |d| > 0 && d <= current && |d| <= Common(previous, current) {
        assert d == current[..Common(previous, current)][..|d|] == previous[..Common(previous, current)][..|d|];
        assert d <= DirOf(before[|before| - 1]);
        assert Ancestor(d, before);
      }
      hide *;
      assert DirList(paths) == DirList(before) + NewDirs(previous, current) by { DirListSnoc(paths); }
    }
  }

  lemma DirListSnoc(paths: seq<ByteString>)
    requires |paths| > 0
    ensures var before := paths[..|paths| - 1];
            DirList(paths) == DirList(before) + NewDirs(LastDir(before), DirOf(paths[|paths| - 1]))
  {
  }

  /** A directory the last entry opens was not there before. */
  lemma NewDirIsNew(paths: seq<ByteString>, d: DirPath)
    requires StrictlySorted(paths) && |paths| > 0
    requires d in NewDirs(LastDir(paths[..|paths| - 1]), DirOf(paths[|paths| - 1]))
    ensures d !in DirList(paths[..|paths| - 1])
  {
    hide DirOf;
    hide DirList;
    hide NewDirs;
    hide Common;
    var n := |paths| - 1;
    var before := paths[..n];
    NewDirsMembers(LastDir(before), DirOf(paths[n]), d);
    CreatesEveryAncestor(before, d);
    if Ancestor(d, before) {
      var i :| 0 <= i < |before| && d <= DirOf(before[i]);
      if i < n - 1 {
        assert SlashFree(d) by { assert d == DirOf(paths[n])[..|d|]; DirSlashFree(paths[n]); }
        DirectoryContiguous(paths, d, i, n - 1, n);
      }
      CommonIsLongest(LastDir(before), DirOf(paths[n]), d);
      assert false;
    }
  }

  lemma DirSlashFree(path: ByteString)
    ensures SlashFree(DirOf(path))
  {
  }

  lemma CommonIsLongest(a: DirPath, b: DirPath, d: DirPath)
    requires d <= a && d <= b
    ensures |d| <= Common(a, b)
  {
  }

  /** Over sorted entries every directory is created once. */
  lemma {:induction false} CreatesEachOnce(paths: seq<ByteString>)
    requires StrictlySorted(paths)
    ensures Distinct(DirList(paths))
  {
    hide *;
    if |paths| == 0 {
      OneRoot(paths);
    } else {
      var n := |paths| - 1;
      var before := paths[..n];
      var old_, new_ := DirList(before), NewDirs(LastDir(before), DirOf(paths[n]));
      SortedBefore(paths);
      CreatesEachOnce(before);
      DirListSnoc(paths);
      NewDirsDistinct(LastDir(before), DirOf(paths[n]));
      forall d <- new_ ensures d !in old_ {
        NewDirIsNew(paths, d);
      }
      DistinctJoin(old_, new_);
    }
  }

  lemma OneRoot(paths: seq<ByteString>)
    requires |paths| == 0
    ensures Distinct(DirList(paths))
  {
  }

  lemma SortedBefore(paths: seq<ByteString>)
    requires StrictlySorted(paths) && |paths| > 0
    ensures StrictlySorted(paths[..|paths| - 1])
  {
    hide Less;
  }

  lemma DistinctJoin(a: seq<DirPath>, b: seq<DirPath>)
    requires Distinct(a) && Distinct(b) && forall d <- b :: d !in a
    ensures Distinct(a + b)
  {
    forall i, j | 0 <= i < j < |a + b| ensures (a + b)[i] != (a + b)[j] {
      if i < |a| <= j {
        assert b[j - |a|] in b;
      }
    }
  }

  lemma NewDirsDistinct(previous: DirPath, current: DirPath)
    ensures Distinct(NewDirs(previous, current))
  {
    NewDirsLengths(previous, current);
    hide NewDirs;
    hide Common;
  }

  lemma NewDirsLengths(previous: DirPath, current: DirPath)
    ensures var kept := Common(previous, current);
            forall i :: 0 <= i < |NewDirs(previous, current)| ==> |NewDirs(previous, current)[i]| == kept + 1 + i
  {
  }

  function Parent(d: DirPath): DirPath
    requires |d| > 0
  {
    d[..|d| - 1]
  }

  /** Every directory but the root comes after its parent. */
  ghost predicate ParentsFirst(list: seq<DirPath>) {
    forall j :: 0 <= j < |list| && |list[j]| > 0 ==> exists i :: 0 <= i < j && list[i] == Parent(list[j])
  }

  lemma {:induction false} ParentsComeFirst(paths: seq<ByteString>)
    ensures ParentsFirst(DirList(paths))
  {
    if |paths| > 0 {
      var before, current := paths[..|paths| - 1], DirOf(paths[|paths| - 1]);
      ParentsComeFirst(before);
      var n, fresh_ := |DirList(before)|, NewDirs(LastDir(before), current);
      forall k | 0 <= k <= |fresh_| ensures ParentsFirst(DirList(before) + fresh_[..k]) {
        ParentsFirstGrow(paths, k);
      }
      assert fresh_[..|fresh_|] == fresh_;
    }
  }

  /** Where the parent of the `k`-th new directory is: the one opened before it, or an older one. */
  lemma ParentOfNew(paths: seq<ByteString>, k: nat)
    requires |paths| > 0
    requires k < |NewDirs(LastDir(paths[..|paths| - 1]), DirOf(paths[|paths| - 1]))|
    ensures var before := paths[..|paths| - 1];
            var new_ := NewDirs(LastDir(before), DirOf(paths[|paths| - 1]));
            && |new_[k]| > 0
            && (k > 0 ==> Parent(new_[k]) == new_[k - 1])
            && (k == 0 ==> Parent(new_[k]) in DirList(before))
  {
    var before, current := paths[..|paths| - 1], DirOf(paths[|paths| - 1]);
    var previous := LastDir(before);
    var kept := Common(previous, current);
    var new_ := NewDirs(previous, current);
    assert new_[k] == current[..kept + 1 + k];
    assert Parent(new_[k]) == current[..kept + k];
    if k == 0 {
      CreatesEveryAncestor(before, current[..kept]);
      if kept > 0 {
        assert current[..kept] == previous[..kept];
        assert current[..kept] <= DirOf(before[|before| - 1]);
        assert Ancestor(current[..kept], before);
      }
    }
  }

  lemma {:induction false} ParentsFirstGrow(paths: seq<ByteString>, k: nat)
    requires |paths| > 0 && ParentsFirst(DirList(paths[..|paths| - 1]))
    requires k <= |NewDirs(LastDir(paths[..|paths| - 1]), DirOf(paths[|paths| - 1]))|
    ensures ParentsFirst(DirList(paths[..|paths| - 1])
                         + NewDirs(LastDir(paths[..|paths| - 1]), DirOf(paths[|paths| - 1]))[..k])
  {
    hide DirList;
    hide DirOf;
    hide NewDirs;
    hide LastDir;
    hide Common;
    var before := paths[..|paths| - 1];
    var old_, new_ := DirList(before), NewDirs(LastDir(before), DirOf(paths[|paths| - 1]));
    var list := old_ + new_[..k];
    forall j | 0 <= j < |list| && |list[j]| > 0 ensures exists i :: 0 <= i < j && list[i] == Parent(list[j]) {
      if j < |old_| {
        var i :| 0 <= i < j && old_[i] == Parent(old_[j]);
        assert list[i] == old_[i];
      } else {
        var m := j - |old_|;
        ParentOfNew(paths, m);
        if m > 0 {
          assert list[j - 1] == new_[m - 1];
        } else {
          var i :| 0 <= i < |old_| && old_[i] == Parent(new_[0]);
          assert list[i] == old_[i];
        }
      }
    }
  }

  // ---------------------------------------------------------------------------
  // What the table holds
  // ---------------------------------------------------------------------------

  function NameOf(d: DirPath): Name {
    if |d| == 0 then [] else d[|d| - 1]
  }

  predicate IsChild(d: DirPath, parent: DirPath) {
    |d| > 0 && Parent(d) == parent
  }

  /** The indexes of the directories directly inside `parent`, in order. */
  function ChildrenOf(list: seq<DirPath>, parent: DirPath): (r: seq<nat>)
    ensures forall k <- r :: k < |list| && IsChild(list[k], parent)
    ensures forall k :: 0 <= k < |list| && IsChild(list[k], parent) ==> k in r
  {
    if |list| == 0 then []
    else
      var n := |list| - 1;
      ChildrenOf(list[..n], parent) + (if IsChild(list[n], parent) then [n] else [])
  }

  predicate IsGitignore(item: Item, d: DirPath) {
    && DirOf(item.path) == d && FileOf(item.path) == GitignoreName()
    && (item.staged.mode == MODE_REGULAR || item.staged.mode == MODE_EXECUTABLE)
  }

  /** The object ID of the directory's `.gitignore`, when it has one that is a file. */
  function GitignoreOf(items: seq<Item>, d: DirPath): Option<Digest> {
    if |items| == 0 then None
    else
      var n := |items| - 1;
      if IsGitignore(items[n], d) then Some(items[n].staged.oid) else GitignoreOf(items[..n], d)
  }

  function Table(list: seq<DirPath>, items: seq<Item>): (r: seq<Dir>)
    ensures |r| == |list|
  {
    seq(|list|, k requires 0 <= k < |list| =>
          Dir(NameOf(list[k]), ChildrenOf(list, list[k]), GitignoreOf(items, list[k])))
  }

  function TableOf(items: seq<Item>): seq<Dir> {
    Table(DirList(PathsOf(items)), items)
  }

  /** The chain of open directories leads to `d`. */
  predicate Opens(open: seq<nat>, list: seq<DirPath>, d: DirPath) {
    && |open| == |d|
    && forall k :: 0 <= k < |open| ==> open[k] < |list| && list[open[k]] == d[..k + 1]
  }

  lemma NoChildrenYet(list: seq<DirPath>, d: DirPath)
    requires ParentsFirst(list)
    ensures d in list || ChildrenOf(list, d) == []
  {
    hide ChildrenOf;
    var children := ChildrenOf(list, d);
    if |children| > 0 {
      var k := children[0];
      assert k in children;
      var i :| 0 <= i < k && list[i] == Parent(list[k]);
      assert list[i] in list;
    }
  }

  lemma ChildrenSnoc(list: seq<DirPath>, d: DirPath, parent: DirPath)
    ensures ChildrenOf(list + [d], parent) == ChildrenOf(list, parent) + (if IsChild(d, parent) then [|list|] else [])
  {
    assert (list + [d])[..|list|] == list;
  }

  /** Adding a directory below `list[parent]` changes its parent's children and nothing else. */
  lemma TableGrows(list: seq<DirPath>, items: seq<Item>, parent: nat, d: DirPath)
    requires Distinct(list) && ParentsFirst(list) && d !in list
    requires parent < |list| && |d| > 0 && Parent(d) == list[parent]
    requires GitignoreOf(items, d) == None
    ensures var table := Table(list, items) + [Dir(NameOf(d), [], None)];
            Table(list + [d], items)
            == table[parent := table[parent].(children := table[parent].children + [|list|])]
  {
    hide ChildrenOf;
    hide GitignoreOf;
    hide ParentsFirst;
    hide NameOf;
    var table := Table(list, items) + [Dir(NameOf(d), [], None)];
    var expected := table[parent := table[parent].(children := table[parent].children + [|list|])];
    forall k | 0 <= k < |list| + 1 ensures Table(list + [d], items)[k] == expected[k] {
      if k == |list| {
        ChildrenSnoc(list, d, d);
        NoChildrenYet(list, d);
      } else {
        ChildrenSnoc(list, d, list[k]);
        assert k != parent ==> list[k] != list[parent];
      }
    }
  }

  lemma NoGitignoreYet(items: seq<Item>, d: DirPath)
    requires d !in DirList(PathsOf(items))
    ensures GitignoreOf(items, d) == None
  {
    if GitignoreOf(items, d) != None {
      var i := GitignoreFrom(items, d);
      assert d <= DirOf(PathsOf(items)[i]);
      CreatesEveryAncestor(PathsOf(items), d);
    }
  }

  lemma {:induction false} GitignoreFrom(items: seq<Item>, d: DirPath) returns (i: nat)
    requires GitignoreOf(items, d).Some?
    ensures i < |items| && IsGitignore(items[i], d) && GitignoreOf(items, d) == Some(items[i].staged.oid)
  {
    var n := |items| - 1;
    if IsGitignore(items[n], d) {
      i := n;
    } else {
      i := GitignoreFrom(items[..n], d);
    }
  }

  /** Over distinct paths a directory's ID is that of its one `.gitignore` entry, and there is none without it. */
  lemma {:induction false} GitignoreExact(items: seq<Item>, d: DirPath, i: nat)
    requires StrictlySorted(PathsOf(items)) && i < |items| && IsGitignore(items[i], d)
    ensures GitignoreOf(items, d) == Some(items[i].staged.oid)
  {
    var j := SomeGitignore(items, d, i);
    FlatSplit(items[i].path);
    FlatSplit(items[j].path);
    if i != j {
      var a, b := if i < j then i else j, if i < j then j else i;
      assert Less(PathsOf(items)[a], PathsOf(items)[b]);
      LessIrreflexive(items[i].path);
    }
  }

  lemma {:induction false} SomeGitignore(items: seq<Item>, d: DirPath, i: nat) returns (j: nat)
    requires i < |items| && IsGitignore(items[i], d)
    ensures j < |items| && IsGitignore(items[j], d) && GitignoreOf(items, d) == Some(items[j].staged.oid)
  {
    var n := |items| - 1;
    if IsGitignore(items[n], d) {
      j := n;
    } else {
      j := SomeGitignore(items[..n], d, i);
    }
  }

  // ---------------------------------------------------------------------------
  // The pass, for entries in any order
  // ---------------------------------------------------------------------------

  predicate OpenIn(open: seq<nat>, n: nat) {
    forall k :: 0 <= k < |open| ==> open[k] < n
  }

  /** How many open directories the entry's directory shares: `zip`, `take_while`, `count`. */
  function Kept(dirs: seq<Dir>, open: seq<nat>, components: seq<Name>): (n: nat)
    requires OpenIn(open, |dirs|)
    ensures n <= |open| && n <= |components|
    ensures forall k :: 0 <= k < n ==> dirs[open[k]].name == components[k]
    ensures n < |open| && n < |components| ==> dirs[open[n]].name != components[n]
  {
    if |open| == 0 || |components| == 0 || dirs[open[0]].name != components[0] then 0
    else 1 + Kept(dirs, open[1..], components[1..])
  }

  function Top(open: seq<nat>): nat {
    if |open| == 0 then 0 else open[|open| - 1]
  }

  /** A new directory below `parent`. */
  function Grown(dirs: seq<Dir>, parent: nat, name: Name): (r: seq<Dir>)
    requires parent < |dirs|
    ensures |r| == |dirs| + 1
  {
    var pushed := dirs + [Dir(name, [], None)];
    pushed[parent := pushed[parent].(children := pushed[parent].children + [|dirs|])]
  }

  /** Opening directories one below another. */
  function Opened(dirs: seq<Dir>, open: seq<nat>, names: seq<Name>): (r: (seq<Dir>, seq<nat>))
    requires |dirs| > 0 && OpenIn(open, |dirs|)
    ensures |r.0| > 0 && OpenIn(r.1, |r.0|)
    decreases |names|
  {
    if |names| == 0 then (dirs, open)
    else Opened(Grown(dirs, Top(open), names[0]), open + [|dirs|], names[1..])
  }

  /** One entry of the pass. */
  function PassEntry(dirs: seq<Dir>, open: seq<nat>, item: Item): (r: (seq<Dir>, seq<nat>))
    requires |dirs| > 0 && OpenIn(open, |dirs|)
    ensures |r.0| > 0 && OpenIn(r.1, |r.0|)
  {
    var components := DirOf(item.path);
    var kept := Kept(dirs, open, components);
    var grown := Opened(dirs, open[..kept], components[kept..]);
    var target := Top(grown.1);
    if FileOf(item.path) == GitignoreName() && (item.staged.mode == MODE_REGULAR || item.staged.mode == MODE_EXECUTABLE) then
      (grown.0[target := grown.0[target].(gitignore := Some(item.staged.oid))], grown.1)
    else grown
  }

  /** The table and the open directories after some entries. */
  function Pass(items: seq<Item>): (r: (seq<Dir>, seq<nat>))
    ensures |r.0| > 0 && OpenIn(r.1, |r.0|)
  {
    if |items| == 0 then ([Dir([], [], None)], [])
    else
      var before := Pass(items[..|items| - 1]);
      PassEntry(before.0, before.1, items[|items| - 1])
  }

  method KeptOpen(dirs: seq<Dir>, open: seq<nat>, components: seq<Name>) returns (kept: nat)
    requires OpenIn(open, |dirs|)
    ensures kept == Kept(dirs, open, components)
  {
    kept := 0;
    while kept < |open| && kept < |components| && dirs[open[kept]].name == components[kept]
      invariant kept <= |open| && kept <= |components|
      invariant kept + Kept(dirs, open[kept..], components[kept..]) == Kept(dirs, open, components)
    {
      assert open[kept..][1..] == open[kept + 1..] && components[kept..][1..] == components[kept + 1..];
      kept := kept + 1;
    }
  }

  /** The part of the pass that opens directories for one entry. */
  method OpenDirectories(dirs0: seq<Dir>, open0: seq<nat>, names: seq<Name>) returns (dirs: seq<Dir>, open: seq<nat>)
    requires |dirs0| > 0 && OpenIn(open0, |dirs0|)
    ensures (dirs, open) == Opened(dirs0, open0, names)
  {
    dirs, open := dirs0, open0;
    WholeSlices(names);
    for i := 0 to |names|
      invariant |dirs| > 0 && OpenIn(open, |dirs|)
      invariant Opened(dirs, open, names[i..]) == Opened(dirs0, open0, names)
    {
      assert names[i..][1..] == names[i + 1..];
      var parent := if |open| == 0 then 0 else open[|open| - 1];
      var child := |dirs|;
      dirs := dirs + [Dir(names[i], [], None)];
      dirs := dirs[parent := dirs[parent].(children := dirs[parent].children + [child])];
      open := open + [child];
    }
  }

  /** The whole pass for one entry. */
  method AddEntry(dirs0: seq<Dir>, open0: seq<nat>, item: Item) returns (dirs: seq<Dir>, open: seq<nat>)
    requires |dirs0| > 0 && OpenIn(open0, |dirs0|)
    ensures (dirs, open) == PassEntry(dirs0, open0, item)
  {
    hide Kept;
    hide Opened;
    hide DirOf;
    hide FileOf;
    hide GitignoreName;
    var components := DirOf(item.path);
    var file := FileOf(item.path);
    var kept := KeptOpen(dirs0, open0, components);
    dirs, open := OpenDirectories(dirs0, open0[..kept], components[kept..]);
    if file == GitignoreName() && (item.staged.mode == MODE_REGULAR || item.staged.mode == MODE_EXECUTABLE) {
      var target := if |open| == 0 then 0 else open[|open| - 1];
      dirs := dirs[target := dirs[target].(gitignore := Some(item.staged.oid))];
    }
  }

  // ---------------------------------------------------------------------------
  // The pass over sorted entries
  // ---------------------------------------------------------------------------

  lemma CommonUnique(a: DirPath, b: DirPath, n: nat)
    requires n <= |a| && n <= |b| && a[..n] == b[..n]
    requires n < |a| && n < |b| ==> a[n] != b[n]
    ensures n == Common(a, b)
  {
    var c := Common(a, b);
    assert c <= n ==> a[..n][..c] == a[..c];
  }

  /** The list with the first `k` directories the last entry opens. */
  function Partial(paths: seq<ByteString>, k: nat): (r: seq<DirPath>)
    requires |paths| > 0
    requires k <= |NewDirs(LastDir(paths[..|paths| - 1]), DirOf(paths[|paths| - 1]))|
  {
    var before := paths[..|paths| - 1];
    DirList(before) + NewDirs(LastDir(before), DirOf(paths[|paths| - 1]))[..k]
  }

  lemma PartialDistinct(paths: seq<ByteString>, k: nat)
    requires |paths| > 0 && StrictlySorted(paths)
    requires k <= |NewDirs(LastDir(paths[..|paths| - 1]), DirOf(paths[|paths| - 1]))|
    ensures Distinct(Partial(paths, k))
  {
    CreatesEachOnce(paths);
    DirListSnoc(paths);
    var list, whole := Partial(paths, k), DirList(paths);
    assert forall i :: 0 <= i < |list| ==> list[i] == whole[i];
  }

  lemma NewDirNotPartial(paths: seq<ByteString>, k: nat)
    requires |paths| > 0 && StrictlySorted(paths)
    requires k < |NewDirs(LastDir(paths[..|paths| - 1]), DirOf(paths[|paths| - 1]))|
    ensures NewDirs(LastDir(paths[..|paths| - 1]), DirOf(paths[|paths| - 1]))[k] !in Partial(paths, k)
    ensures NewDirs(LastDir(paths[..|paths| - 1]), DirOf(paths[|paths| - 1]))[k] !in DirList(paths[..|paths| - 1])
  {
    hide DirList;
    hide NewDirs;
    hide DirOf;
    hide LastDir;
    hide StrictlySorted;
    PartialDistinct(paths, k + 1);
    var before := paths[..|paths| - 1];
    var new_ := NewDirs(LastDir(before), DirOf(paths[|paths| - 1]));
    assert Partial(paths, k + 1) == Partial(paths, k) + [new_[k]];
    var list, n := Partial(paths, k + 1), |Partial(paths, k)|;
    forall i | 0 <= i < n ensures Partial(paths, k)[i] != new_[k] {
      assert list[i] != list[n];
    }
    NewDirIsNew(paths, new_[k]);
  }

  /** What the pass relies on when it opens the `k`-th new directory. */
  lemma PartialStep(paths: seq<ByteString>, items: seq<Item>, k: nat, list: seq<DirPath>, d: DirPath)
    requires |paths| > 0 && StrictlySorted(paths) && PathsOf(items) == paths[..|paths| - 1]
    requires k < |NewDirs(LastDir(paths[..|paths| - 1]), DirOf(paths[|paths| - 1]))|
    requires list == Partial(paths, k)
    requires d == DirOf(paths[|paths| - 1])[..Common(LastDir(paths[..|paths| - 1]), DirOf(paths[|paths| - 1])) + 1 + k]
    ensures Partial(paths, k + 1) == list + [d]
    ensures Distinct(list) && ParentsFirst(list) && d !in list && GitignoreOf(items, d) == None
  {
    hide DirList;
    hide Common;
    hide DirOf;
    hide LastDir;
    hide GitignoreOf;
    hide ParentsFirst;
    hide Distinct;
    var before := paths[..|paths| - 1];
    assert d == NewDirs(LastDir(before), DirOf(paths[|paths| - 1]))[k];
    PartialDistinct(paths, k);
    NewDirNotPartial(paths, k);
    NoGitignoreYet(items, d);
    ParentsComeFirst(before);
    ParentsFirstGrow(paths, k);
  }

  lemma PartialRoot(paths: seq<ByteString>, k: nat)
    requires |paths| > 0 && k <= |NewDirs(LastDir(paths[..|paths| - 1]), DirOf(paths[|paths| - 1]))|
    ensures |Partial(paths, k)| > 0 && Partial(paths, k)[0] == []
  {
  }

  lemma TableLength(list: seq<DirPath>, items: seq<Item>)
    ensures |Table(list, items)| == |list|
  {
  }

  lemma GrownIs(dirs: seq<Dir>, parent: nat, name: Name)
    requires parent < |dirs|
    ensures var pushed := dirs + [Dir(name, [], None)];
            Grown(dirs, parent, name) == pushed[parent := pushed[parent].(children := pushed[parent].children + [|dirs|])]
  {
  }

  /** Opening the next directory of the last entry. */
  lemma OpenOne(paths: seq<ByteString>, items: seq<Item>, list: seq<DirPath>, dirs: seq<Dir>, open: seq<nat>, components: seq<Name>, i: nat)
    requires |paths| > 0 && StrictlySorted(paths) && PathsOf(items) == paths[..|paths| - 1]
    requires components == DirOf(paths[|paths| - 1]) && i < |components|
    requires Common(LastDir(paths[..|paths| - 1]), components) <= i
    requires list == Partial(paths, i - Common(LastDir(paths[..|paths| - 1]), components))
    requires dirs == Table(list, items) && Opens(open, list, components[..i])
    ensures Top(open) < |dirs| && |list| == |dirs|
    ensures Table(list + [components[..i + 1]], items) == Grown(dirs, Top(open), components[i])
    ensures Opens(open + [|dirs|], list + [components[..i + 1]], components[..i + 1])
    ensures list + [components[..i + 1]] == Partial(paths, i + 1 - Common(LastDir(paths[..|paths| - 1]), components))
  {
    hide *;
    var d := components[..i + 1];
    PartialRoot(paths, i - Common(LastDir(paths[..|paths| - 1]), components));
    TableLength(list, items);
    PartialStep(paths, items, i - Common(LastDir(paths[..|paths| - 1]), components), list, d);
    ParentOpen(open, list, components, i);
    TableGrows(list, items, Top(open), d);
    GrownIs(dirs, Top(open), components[i]);
    OpensMore(open, list, components, i);
  }

  lemma TableNames(list: seq<DirPath>, items: seq<Item>)
    ensures forall k :: 0 <= k < |list| ==> Table(list, items)[k].name == NameOf(list[k])
  {
  }

  lemma PartialNone(paths: seq<ByteString>)
    requires |paths| > 0
    ensures Partial(paths, 0) == DirList(paths[..|paths| - 1])
  {
  }

  lemma PartialAll(paths: seq<ByteString>)
    requires |paths| > 0
    ensures var previous, current := LastDir(paths[..|paths| - 1]), DirOf(paths[|paths| - 1]);
            Partial(paths, |current| - Common(previous, current)) == DirList(paths)
  {
    hide DirOf;
    hide Common;
    var new_ := NewDirs(LastDir(paths[..|paths| - 1]), DirOf(paths[|paths| - 1]));
    assert new_[..|new_|] == new_;
  }

  lemma StillOpen(open: seq<nat>, list: seq<DirPath>, previous: DirPath, current: DirPath)
    requires Opens(open, list, previous)
    ensures Opens(open[..Common(previous, current)], list, current[..Common(previous, current)])
  {
    var n := Common(previous, current);
    hide Common;
    forall k | 0 <= k < n ensures list[open[..n][k]] == current[..n][..k + 1] {
      assert previous[..n][..k + 1] == previous[..k + 1];
    }
  }

  lemma ParentOpen(open: seq<nat>, list: seq<DirPath>, components: seq<Name>, i: nat)
    requires i < |components| && |list| > 0 && list[0] == [] && Opens(open, list, components[..i])
    ensures var parent := Top(open);
            var d := components[..i + 1];
            parent < |list| && |d| > 0 && Parent(d) == list[parent] && NameOf(d) == components[i]
  {
    assert Parent(components[..i + 1]) == components[..i];
    assert components[..i][..i] == components[..i];
  }

  lemma OpensMore(open: seq<nat>, list: seq<DirPath>, components: seq<Name>, i: nat)
    requires i < |components| && Opens(open, list, components[..i])
    ensures Opens(open + [|list|], list + [components[..i + 1]], components[..i + 1])
  {
    forall k | 0 <= k <= i
      ensures (open + [|list|])[k] < |list| + 1
      ensures (list + [components[..i + 1]])[(open + [|list|])[k]] == components[..i + 1][..k + 1]
    {
      assert components[..i + 1][..k + 1] == components[..k + 1];
      if k < i { assert components[..i][..k + 1] == components[..k + 1]; }
    }
  }

  /** Recording a `.gitignore` touches its directory's row and no other. */
  lemma GitignoreUpdate(list: seq<DirPath>, items: seq<Item>, item: Item, target: nat)
    requires Distinct(list) && target < |list| && list[target] == DirOf(item.path)
    ensures var table := Table(list, items);
            Table(list, items + [item]) ==
            if IsGitignore(item, list[target]) then table[target := table[target].(gitignore := Some(item.staged.oid))] else table
  {
    hide ChildrenOf;
    hide DirOf;
    hide NameOf;
    assert (items + [item])[..|items|] == items;
    var table, updated := Table(list, items), Table(list, items + [item]);
    forall k | 0 <= k < |list|
      ensures updated[k] == if k == target && IsGitignore(item, list[k]) then table[k].(gitignore := Some(item.staged.oid)) else table[k]
    {
      assert k != target ==> list[k] != list[target];
    }
  }

  /** With names that match, what stays open is what the directories share. */
  lemma KeptIsCommon(dirs: seq<Dir>, open: seq<nat>, components: seq<Name>, list: seq<DirPath>, previous: DirPath)
    requires Opens(open, list, previous) && |dirs| == |list|
    requires forall k :: 0 <= k < |dirs| ==> dirs[k].name == NameOf(list[k])
    ensures OpenIn(open, |dirs|) && Kept(dirs, open, components) == Common(previous, components)
  {
    hide Common;
    var n := Kept(dirs, open, components);
    hide Kept;
    forall k | 0 <= k < |open| ensures dirs[open[k]].name == previous[k] {
      assert list[open[k]] == previous[..k + 1];
    }
    assert previous[..n] == components[..n];
    CommonUnique(previous, components, n);
  }

  /** Opening an entry's new directories adds exactly the next directories of the list. */
  lemma {:induction false} OpenedIsTable(paths: seq<ByteString>, items: seq<Item>, list: seq<DirPath>, dirs: seq<Dir>, open: seq<nat>,
                                         components: seq<Name>, i: nat)
    requires |paths| > 0 && StrictlySorted(paths) && PathsOf(items) == paths[..|paths| - 1]
    requires components == DirOf(paths[|paths| - 1]) && i <= |components|
    requires Common(LastDir(paths[..|paths| - 1]), components) <= i
    requires list == Partial(paths, i - Common(LastDir(paths[..|paths| - 1]), components))
    requires dirs == Table(list, items) && Opens(open, list, components[..i])
    requires |dirs| > 0 && OpenIn(open, |dirs|)
    ensures var (dirs', open') := Opened(dirs, open, components[i..]);
            dirs' == Table(DirList(paths), items) && Opens(open', DirList(paths), components)
    decreases |components| - i
  {
    hide *;
    if i == |components| {
      PartialAll(paths);
      OpenedNone(dirs, open);
      assert components[..i] == components && components[i..] == [];
    } else {
      OpenOne(paths, items, list, dirs, open, components, i);
      OpenedMore(dirs, open, components[i..]);
      assert components[i..][0] == components[i] && components[i..][1..] == components[i + 1..];
      OpenedIsTable(paths, items, list + [components[..i + 1]], Grown(dirs, Top(open), components[i]), open + [|dirs|], components, i + 1);
    }
  }

  lemma OpenedNone(dirs: seq<Dir>, open: seq<nat>)
    requires |dirs| > 0 && OpenIn(open, |dirs|)
    ensures Opened(dirs, open, []) == (dirs, open)
  {
  }

  lemma OpenedMore(dirs: seq<Dir>, open: seq<nat>, names: seq<Name>)
    requires |dirs| > 0 && OpenIn(open, |dirs|) && |names| > 0
    ensures Top(open) < |dirs| && |Grown(dirs, Top(open), names[0])| > 0
    ensures OpenIn(open + [|dirs|], |Grown(dirs, Top(open), names[0])|)
    ensures Opened(dirs, open, names) == Opened(Grown(dirs, Top(open), names[0]), open + [|dirs|], names[1..])
  {
  }

  /** Over strictly sorted entries the pass builds the table the entries determine, and its open chain leads to the last entry's directory. */
  lemma {:induction false} PassIsTable(items: seq<Item>)
    requires StrictlySorted(PathsOf(items))
    ensures Pass(items).0 == TableOf(items)
    ensures Opens(Pass(items).1, DirList(PathsOf(items)), LastDir(PathsOf(items)))
  {
    hide *;
    if |items| == 0 {
      TableOfNothing();
      PassNothing(items);
    } else {
      var before, item := items[..|items| - 1], items[|items| - 1];
      FirstSorted(items);
      PassIsTable(before);
      PassMore(items);
      assert before + [item] == items;
      PassEntryIsTable(before, item, Pass(before).0, Pass(before).1);
    }
  }

  lemma FirstSorted(items: seq<Item>)
    requires StrictlySorted(PathsOf(items)) && |items| > 0
    ensures StrictlySorted(PathsOf(items[..|items| - 1]))
  {
    var all, before := PathsOf(items), PathsOf(items[..|items| - 1]);
    assert forall i :: 0 <= i < |before| ==> before[i] == all[i];
  }

  lemma PassNothing(items: seq<Item>)
    requires |items| == 0
    ensures items == [] && Pass(items) == ([Dir([], [], None)], [])
  {
  }

  lemma PassMore(items: seq<Item>)
    requires |items| > 0
    ensures var before := Pass(items[..|items| - 1]);
            && |before.0| > 0 && OpenIn(before.1, |before.0|)
            && Pass(items) == PassEntry(before.0, before.1, items[|items| - 1])
  {
    hide PassEntry;
  }

  lemma PassEntryIsTable(items: seq<Item>, item: Item, dirs: seq<Dir>, open: seq<nat>)
    requires StrictlySorted(PathsOf(items + [item]))
    requires dirs == TableOf(items) && Opens(open, DirList(PathsOf(items)), LastDir(PathsOf(items)))
    requires |dirs| > 0 && OpenIn(open, |dirs|)
    ensures var (dirs', open') := PassEntry(dirs, open, item);
            && dirs' == TableOf(items + [item])
            && Opens(open', DirList(PathsOf(items + [item])), LastDir(PathsOf(items + [item])))
  {
    hide *;
    var paths, before := PathsOf(items + [item]), PathsOf(items);
    var components := DirOf(item.path);
    SplitLast(items, item);
    TableIs(items);
    TableNames(DirList(before), items);
    KeptIsCommon(dirs, open, components, DirList(before), LastDir(before));
    var kept := Kept(dirs, open, components);
    StillOpen(open, DirList(before), LastDir(before), components);
    PartialNone(paths);
    KeepIn(open, |dirs|, kept);
    OpenedIsTable(paths, items, DirList(before), dirs, open[..kept], components, kept);
    var grown := Opened(dirs, open[..kept], components[kept..]);
    CreatesEachOnce(paths);
    RootFirst(paths);
    OpenTarget(grown.1, DirList(paths), components);
    GitignoreUpdate(DirList(paths), items, item, Top(grown.1));
    IsGitignoreFile(item, components);
    LastOf(items, item);
    PassEntryIs(dirs, open, item);
  }

  lemma SplitLast(items: seq<Item>, item: Item)
    ensures var paths := PathsOf(items + [item]);
            |paths| > 0 && paths[..|paths| - 1] == PathsOf(items) && paths[|paths| - 1] == item.path
  {
    assert PathsOf(items + [item])[..|items|] == PathsOf(items);
  }

  lemma TableIs(items: seq<Item>)
    ensures TableOf(items) == Table(DirList(PathsOf(items)), items)
    ensures |TableOf(items)| == |DirList(PathsOf(items))|
  {
    hide Table;
  }

  lemma KeepIn(open: seq<nat>, n: nat, kept: nat)
    requires OpenIn(open, n) && kept <= |open|
    ensures OpenIn(open[..kept], n)
  {
  }

  lemma RootFirst(paths: seq<ByteString>)
    ensures |DirList(paths)| > 0 && DirList(paths)[0] == []
  {
  }

  lemma PassEntryIs(dirs: seq<Dir>, open: seq<nat>, item: Item)
    requires |dirs| > 0 && OpenIn(open, |dirs|)
    ensures var components := DirOf(item.path);
            var kept := Kept(dirs, open, components);
            && kept <= |open| && kept <= |components| && OpenIn(open[..kept], |dirs|)
            && var grown := Opened(dirs, open[..kept], components[kept..]);
               var target := Top(grown.1);
               && target < |grown.0|
               && PassEntry(dirs, open, item) ==
                  if FileOf(item.path) == GitignoreName() && (item.staged.mode == MODE_REGULAR || item.staged.mode == MODE_EXECUTABLE) then
                    (grown.0[target := grown.0[target].(gitignore := Some(item.staged.oid))], grown.1)
                  else grown
  {
    hide Kept;
    hide Opened;
    hide DirOf;
    hide FileOf;
    hide GitignoreName;
  }

  lemma OpenTarget(open: seq<nat>, list: seq<DirPath>, d: DirPath)
    requires Opens(open, list, d) && |list| > 0 && list[0] == []
    ensures Top(open) < |list| && list[Top(open)] == d
  {
    assert d[..|d|] == d;
  }

  lemma IsGitignoreFile(item: Item, d: DirPath)
    requires d == DirOf(item.path)
    ensures IsGitignore(item, d) <==>
            FileOf(item.path) == GitignoreName() && (item.staged.mode == MODE_REGULAR || item.staged.mode == MODE_EXECUTABLE)
  {
  }

  lemma LastOf(items: seq<Item>, item: Item)
    ensures LastDir(PathsOf(items + [item])) == DirOf(item.path)
    ensures TableOf(items + [item]) == Table(DirList(PathsOf(items + [item])), items + [item])
  {
  }

  lemma TableOfNothing()
    ensures TableOf([]) == [Dir([], [], None)]
    ensures Opens([], DirList(PathsOf([])), LastDir(PathsOf([])))
  {
    var list := DirList(PathsOf([]));
    assert list[..0] == [];
    assert ChildrenOf(list, []) == [];
  }
}
