/** The recursive listing of a commit's directories in pages a client resumes by naming a directory. */
module TreeListing {
  import opened Wrappers
  import opened Bytes
  import opened GitTypes
  import opened Components
  import opened Trees
  import opened TreeWalk
  import opened BlobStore

  const MAX_TREE_PAGE_ENTRIES: nat := 100_000

  /** A directory to list: its tree, or nothing for a gitlink. */
  datatype Listed = Listed(path: ByteString, node: Option<Tree>)

  datatype TreePage = TreePage(entries: seq<File>, directories: seq<ByteString>, next: Option<ByteString>)

  function Info(e: TreeEntry, path: ByteString): File {
    File(Join(path, e.name), e.Mode(), e.Oid())
  }

  function Infos(es: seq<TreeEntry>, path: ByteString): (r: seq<File>)
    ensures |r| == |es|
  {
    seq(|es|, i requires 0 <= i < |es| => Info(es[i], path))
  }

  /** The entries a listing shows for a directory. */
  function Children(d: Listed): seq<File> {
    if d.node.None? then [] else Infos(d.node.value.entries, d.path)
  }

  predicate IsListed(e: TreeEntry) {
    e.Sub? || e.leafMode == MODE_GITLINK
  }

  function ListedEntry(e: TreeEntry, path: ByteString): Listed {
    Listed(Join(path, e.name), if e.Sub? then Some(e.tree) else None)
  }

  /** The directories and gitlinks in a directory, in tree order. */
  function Frames(es: seq<TreeEntry>, path: ByteString): seq<Listed> {
    if |es| == 0 then []
    else (if IsListed(es[0]) then [ListedEntry(es[0], path)] else []) + Frames(es[1..], path)
  }

  /** A directory, then what it lists below each of its own in tree order. */
  function Preorder(d: Listed): (r: seq<Listed>)
    ensures |r| > 0 && r[0] == d
    decreases d, 1
  {
    [d] + if d.node.None? then [] else PreorderOf(d.node.value.entries, d.path)
  }

  function PreorderOf(es: seq<TreeEntry>, path: ByteString): seq<Listed>
    decreases es, 0
  {
    if |es| == 0 then []
    else
      (if es[0].Sub? then [ListedEntry(es[0], path)] + PreorderOf(es[0].tree.entries, Join(path, es[0].name))
       else if IsListed(es[0]) then [ListedEntry(es[0], path)]
       else [])
      + PreorderOf(es[1..], path)
  }

  function PathsOf(ds: seq<Listed>): (r: seq<ByteString>)
    ensures |r| == |ds| && forall i :: 0 <= i < |r| ==> r[i] == ds[i].path
  {
    seq(|ds|, i requires 0 <= i < |ds| => ds[i].path)
  }

  function AllChildren(ds: seq<Listed>): seq<File> {
    if |ds| == 0 then [] else Children(ds[0]) + AllChildren(ds[1..])
  }

  // ---------------------------------------------------------------------------
  // Pages
  // ---------------------------------------------------------------------------

  /** Where a listing resumes: at the named directory, or past the end when there is none of that name. */
  function Resume(ds: seq<Listed>, after: Option<ByteString>): (k: nat)
    ensures k <= |ds|
  {
    if |ds| == 0 || after.None? || ds[0].path == after.value then 0 else 1 + Resume(ds[1..], after)
  }

  /** How many directories a page takes: as long as fewer than `max` entries are shown, whole directories only. */
  function Fill(ds: seq<Listed>, shown: nat, max: nat): (m: nat)
    ensures m <= |ds|
  {
    if |ds| == 0 || (shown > 0 && shown >= max) then 0 else 1 + Fill(ds[1..], shown + |Children(ds[0])|, max)
  }

  /** The page of a listing `ds` from `after`. */
  function PageFrom(ds: seq<Listed>, after: Option<ByteString>, max: nat): TreePage {
    var k := Resume(ds, after);
    var m := Fill(ds[k..], 0, max);
    TreePage(AllChildren(ds[k..k + m]), PathsOf(ds[k..k + m]), if k + m < |ds| then Some(ds[k + m].path) else None)
  }

  /** The walk's own reading of the same list, one directory at a time, with what it has collected so far. */
  function Continue(ds: seq<Listed>, emitting: bool, after: Option<ByteString>, page: TreePage, max: nat): TreePage {
    if |ds| == 0 then page
    else
      var d := ds[0];
      var now := emitting || Some(d.path) == after;
      if now && |page.entries| > 0 && |page.entries| >= max then page.(next := Some(d.path))
      else if now then Continue(ds[1..], now, after, page.(entries := page.entries + Children(d), directories := page.directories + [d.path]), max)
      else Continue(ds[1..], now, after, page, max)
  }

  lemma {:induction false} ContinueEmitting(ds: seq<Listed>, after: Option<ByteString>, page: TreePage, max: nat)
    requires page.next == None
    ensures Continue(ds, true, after, page, max) == Extended(page, ds, Fill(ds, |page.entries|, max))
    decreases |ds|
  {
    hide *;
    var m := Fill(ds, |page.entries|, max);
    ContinueStep(ds, after, page, max);
    if m == 0 {
      ExtendedByNone(page, ds);
    } else {
      var next := Shown(page, ds[0]);
      ContinueEmitting(ds[1..], after, next, max);
      ExtendedStep(page, ds, m);
    }
  }

  /** The page once one more directory is shown. */
  function Shown(page: TreePage, d: Listed): (r: TreePage)
    ensures r.next == page.next
  {
    page.(entries := page.entries + Children(d), directories := page.directories + [d.path])
  }

  lemma ContinueStep(ds: seq<Listed>, after: Option<ByteString>, page: TreePage, max: nat)
    requires page.next == None
    ensures var m := Fill(ds, |page.entries|, max);
            && (m == 0 ==> Continue(ds, true, after, page, max) == if |ds| == 0 then page else page.(next := Some(ds[0].path)))
            && (m > 0 ==>
                  && |ds| > 0 && Continue(ds, true, after, page, max) == Continue(ds[1..], true, after, Shown(page, ds[0]), max)
                  && m == 1 + Fill(ds[1..], |Shown(page, ds[0]).entries|, max))
  {
    hide Children;
  }

  /** A page with `m` more directories. */
  function Extended(page: TreePage, ds: seq<Listed>, m: nat): TreePage
    requires m <= |ds|
  {
    TreePage(page.entries + AllChildren(ds[..m]), page.directories + PathsOf(ds[..m]), if m < |ds| then Some(ds[m].path) else None)
  }

  lemma ExtendedStep(page: TreePage, ds: seq<Listed>, m: nat)
    requires 0 < m <= |ds|
    ensures Extended(page, ds, m) ==
            Extended(Shown(page, ds[0]), ds[1..], m - 1)
  {
    hide Children;
    var fewer := ds[1..][..m - 1];
    assert ds[..m][1..] == fewer && ds[..m][0] == ds[0];
    Assoc(page.entries, Children(ds[0]), AllChildren(fewer));
    assert PathsOf(ds[..m]) == [ds[0].path] + PathsOf(fewer);
    Assoc(page.directories, [ds[0].path], PathsOf(fewer));
  }

  lemma ExtendedByNone(page: TreePage, ds: seq<Listed>)
    requires page.next == None
    ensures Extended(page, ds, 0) == if |ds| == 0 then page else page.(next := Some(ds[0].path))
  {
    hide Children;
    assert ds[..0] == [] && PathsOf([]) == [];
  }

  lemma PageStarts(ds: seq<Listed>, after: Option<ByteString>, max: nat)
    requires Resume(ds, after) == 0
    ensures Continue(ds, after.None?, after, TreePage([], [], None), max) == PageFrom(ds, after, max)
  {
    var empty := TreePage([], [], None);
    assert Continue(ds, after.None?, after, empty, max) == Continue(ds, true, after, empty, max);
    ContinueEmitting(ds, after, empty, max);
    var m := Fill(ds, 0, max);
    assert Extended(empty, ds, m) ==
           TreePage([] + AllChildren(ds[..m]), [] + PathsOf(ds[..m]), if m < |ds| then Some(ds[m].path) else None);
    hide *;
    WholeSlices(ds);
    PageUnfolds(ds, after, max);
    assert [] + AllChildren(ds[..m]) == AllChildren(ds[..m]) && [] + PathsOf(ds[..m]) == PathsOf(ds[..m]);
  }

  lemma PageUnfolds(ds: seq<Listed>, after: Option<ByteString>, max: nat)
    ensures var k := Resume(ds, after);
            var m := Fill(ds[k..], 0, max);
            PageFrom(ds, after, max) ==
            TreePage(AllChildren(ds[k..][..m]), PathsOf(ds[k..][..m]), if m < |ds[k..]| then Some(ds[k..][m].path) else None)
  {
    hide Resume;
    hide Fill;
    hide AllChildren;
    hide PathsOf;
    var k := Resume(ds, after);
    var m := Fill(ds[k..], 0, max);
    assert ds[k..][..m] == ds[k..k + m];
  }

  lemma PageSkips(ds: seq<Listed>, after: Option<ByteString>, max: nat)
    requires |ds| > 0 && Resume(ds, after) > 0
    ensures PageFrom(ds, after, max) == PageFrom(ds[1..], after, max)
  {
    var k := Resume(ds, after);
    assert Resume(ds[1..], after) == k - 1;
    hide *;
    PageUnfolds(ds, after, max);
    PageUnfolds(ds[1..], after, max);
    assert ds[1..][k - 1..] == ds[k..];
  }

  /** Walking the list one directory at a time with an `emitting` flag gives the page. */
  lemma {:induction false} ContinueIsPage(ds: seq<Listed>, after: Option<ByteString>, max: nat)
    ensures Continue(ds, after.None?, after, TreePage([], [], None), max) == PageFrom(ds, after, max)
    decreases |ds|
  {
    if Resume(ds, after) == 0 {
      PageStarts(ds, after, max);
    } else {
      ContinueIsPage(ds[1..], after, max);
      PageSkips(ds, after, max);
    }
  }

  // ---------------------------------------------------------------------------
  // The walk
  // ---------------------------------------------------------------------------

  /** What popping a stack of directories to the end lists; the top is the last. */
  function Drain(stack: seq<Listed>): seq<Listed> {
    if |stack| == 0 then [] else Preorder(stack[|stack| - 1]) + Drain(stack[..|stack| - 1])
  }

  lemma PushListed(stack: seq<Listed>, d: Listed)
    ensures Drain(stack + [d]) == Preorder(d) + Drain(stack)
  {
    hide Preorder;
    assert (stack + [d])[..|stack|] == stack;
  }

  lemma FirstFrame(es: seq<TreeEntry>, path: ByteString)
    requires |es| > 0
    ensures Frames(es, path) == (if IsListed(es[0]) then [ListedEntry(es[0], path)] else []) + Frames(es[1..], path)
  {
    hide ListedEntry;
    hide IsListed;
  }

  lemma ReverseCons<T>(x: T, s: seq<T>)
    ensures Reverse([x] + s) == Reverse(s) + [x]
  {
    assert ([x] + s)[1..] == s;
  }

  lemma FirstBelow(es: seq<TreeEntry>, path: ByteString)
    requires |es| > 0
    ensures PreorderOf(es, path) ==
            (if es[0].Sub? then [ListedEntry(es[0], path)] + PreorderOf(es[0].tree.entries, Join(path, es[0].name))
             else if IsListed(es[0]) then [ListedEntry(es[0], path)]
             else [])
            + PreorderOf(es[1..], path)
  {
    hide Join;
    hide ListedEntry;
    hide IsListed;
  }

  lemma ListedPreorder(e: TreeEntry, path: ByteString)
    ensures Preorder(ListedEntry(e, path)) ==
            [ListedEntry(e, path)] + if e.Sub? then PreorderOf(e.tree.entries, Join(path, e.name)) else []
    ensures e.Sub? ==> IsListed(e)
  {
    hide PreorderOf;
    hide Join;
  }

  lemma FirstListed(es: seq<TreeEntry>, path: ByteString)
    requires |es| > 0
    ensures IsListed(es[0]) ==>
              && Reverse(Frames(es, path)) == Reverse(Frames(es[1..], path)) + [ListedEntry(es[0], path)]
              && PreorderOf(es, path) == Preorder(ListedEntry(es[0], path)) + PreorderOf(es[1..], path)
    ensures !IsListed(es[0]) ==>
              && Frames(es, path) == Frames(es[1..], path)
              && PreorderOf(es, path) == PreorderOf(es[1..], path)
  {
    hide *;
    var d := ListedEntry(es[0], path);
    FirstFrame(es, path);
    FirstBelow(es, path);
    ListedPreorder(es[0], path);
    if IsListed(es[0]) {
      ReverseCons(d, Frames(es[1..], path));
      assert [d] + [] == [d];
    } else {
      assert [] + Frames(es[1..], path) == Frames(es[1..], path);
      assert [] + PreorderOf(es[1..], path) == PreorderOf(es[1..], path);
    }
  }

  lemma {:induction false} DrainFrames(stack: seq<Listed>, es: seq<TreeEntry>, path: ByteString)
    ensures Drain(stack + Reverse(Frames(es, path))) == PreorderOf(es, path) + Drain(stack)
  {
    if |es| == 0 {
      assert stack + [] == stack;
    } else {
      FirstListed(es, path);
      DrainFrames(stack, es[1..], path);
      hide *;
      if IsListed(es[0]) {
        var d, rest := ListedEntry(es[0], path), Reverse(Frames(es[1..], path));
        PushListed(stack + rest, d);
        Assoc(stack, rest, [d]);
        Assoc(Preorder(d), PreorderOf(es[1..], path), Drain(stack));
      }
    }
  }

  /** A stacked path that resolves to the directory it stands for. */
  ghost predicate Resolves(t: Tree, d: Listed) {
    && DirectoryTree(t, d.path) == Ok(d.node)
    && (d.node.Some? ==> Descended(t, PathComponents(d.path)) == d.node && GitTree(d.node.value))
  }

  /** The listing's root resolves as every directory below it does. */
  lemma RootResolves(t: Tree, root: ByteString)
    requires GitTree(t) && DirectoryTree(t, root).Ok?
    ensures Resolves(t, Listed(root, DirectoryTree(t, root).value))
  {
    var names := PathComponents(root);
    if |root| == 0 {
      NoComponents();
    } else if DirectoryTree(t, root).value.Some? {
      var parents := names[..|names| - 1];
      var name: Name := names[|names| - 1];
      assert names == parents + [name];
      DescendedAppend(t, parents, name);
      DescendedGit(t, parents);
      var parent := Descended(t, parents).value;
      var rest: seq<Name> := [name][1..];
      assert rest == [];
      assert Find(parent.entries, name).value in parent.entries;
    }
  }

  lemma {:induction false} DescendedGit(t: Tree, names: seq<Name>)
    requires GitTree(t)
    ensures Descended(t, names).Some? ==> GitTree(Descended(t, names).value)
    decreases |names|
  {
    if |names| > 0 {
      var e := Find(t.entries, names[0]);
      if e.Some? && e.value.Sub? {
        DescendedGit(e.value.tree, names[1..]);
      }
    }
  }

  lemma ChildResolves(t: Tree, d: Listed, i: nat)
    requires Resolves(t, d) && d.node.Some? && i < |d.node.value.entries| && IsListed(d.node.value.entries[i])
    ensures Resolves(t, ListedEntry(d.node.value.entries[i], d.path))
  {
    var e := d.node.value.entries[i];
    DescendedJoin(t, d.path, d.node.value, i);
    BaseOfJoin(d.path, e.name);
  }

  lemma {:induction false} FramesAre(es: seq<TreeEntry>, path: ByteString)
    ensures forall d <- Frames(es, path) :: exists i :: 0 <= i < |es| && IsListed(es[i]) && d == ListedEntry(es[i], path)
  {
    if |es| > 0 {
      FramesAre(es[1..], path);
      forall d <- Frames(es, path) ensures exists i :: 0 <= i < |es| && IsListed(es[i]) && d == ListedEntry(es[i], path) {
        if d in Frames(es[1..], path) {
          var i :| 0 <= i < |es[1..]| && IsListed(es[1..][i]) && d == ListedEntry(es[1..][i], path);
          assert es[i + 1] == es[1..][i];
        } else {
          assert d == ListedEntry(es[0], path);
        }
      }
    }
  }

  lemma ChildrenResolve(t: Tree, d: Listed)
    requires Resolves(t, d) && d.node.Some?
    ensures forall c <- Frames(d.node.value.entries, d.path) :: Resolves(t, c)
  {
    var es := d.node.value.entries;
    FramesAre(es, d.path);
    forall c <- Frames(es, d.path) ensures Resolves(t, c) {
      var i :| 0 <= i < |es| && IsListed(es[i]) && c == ListedEntry(es[i], d.path);
      ChildResolves(t, d, i);
    }
  }

  method FindDirectory(t: Tree, path: ByteString) returns (r: Result<Option<Tree>>)
    ensures r == DirectoryTree(t, path)
  {
    if |path| == 0 {
      return Ok(Some(t));
    }
    var parent := WalkToParent(t, path);
    if parent.None? {
      return Err(NoSuchDirectory);
    }
    var entry := Find(parent.value.0.entries, parent.value.1);
    if entry.None? {
      return Err(NoSuchDirectory);
    }
    if entry.value.Sub? {
      return Ok(Some(entry.value.tree));
    }
    r := if entry.value.leafMode == MODE_GITLINK then Ok(None) else Err(NotADirectory);
  }

  lemma {:induction false} FramesAppend(es: seq<TreeEntry>, e: TreeEntry, path: ByteString)
    ensures Frames(es + [e], path) == Frames(es, path) + if IsListed(e) then [ListedEntry(e, path)] else []
  {
    NoFrames([], path);
    hide *;
    FirstFrame(es + [e], path);
    if |es| == 0 {
      assert es + [e] == [e] && (es + [e])[1..] == [] && es == [];
    } else {
      assert (es + [e])[0] == es[0] && (es + [e])[1..] == es[1..] + [e];
      FirstFrame(es, path);
      FramesAppend(es[1..], e, path);
    }
  }

  lemma NoFrames(es: seq<TreeEntry>, path: ByteString)
    requires |es| == 0
    ensures Frames(es, path) == []
  {
  }

  // ---------------------------------------------------------------------------
  // Rows
  // ---------------------------------------------------------------------------

  /** What a listing says of an entry; an expanded file has the key and the size it expands to. */
  datatype Row = Row(path: ByteString, mode: U32, key: ObjectId, size: nat, target: Option<ByteString>)

  datatype RowPage = RowPage(rows: seq<Row>, directories: seq<ByteString>, next: Option<ByteString>)

  function RowOf(store: Store, f: File): Result<Row> {
    if f.mode == MODE_SYMLINK then
      match store.content(f.oid)
      case None => Err(NoSuchBlob)
      case Some(target) => Ok(Row(f.path, f.mode, f.oid, |target|, Some(target)))
    else if HasContent(f) then
      match store.sizeOf(f.oid)
      case None => Err(NoSuchBlob)
      case Some(size) =>
        match Expanded(store, f, size)
        case Err(e) => Err(e)
        case Ok(pointer) => Ok(Row(f.path, f.mode, pointer.key, pointer.size, None))
    else Ok(Row(f.path, f.mode, f.oid, 0, None))
  }

  /** A link's row has its target and the target's length; a directory's, a gitlink's and any other mode's has neither size nor target. */
  lemma LinkRows(store: Store, f: File)
    ensures f.mode == MODE_SYMLINK ==>
            RowOf(store, f) == if store.content(f.oid).None? then Err(NoSuchBlob)
                               else Ok(Row(f.path, f.mode, f.oid, |store.content(f.oid).value|, store.content(f.oid)))
    ensures f.mode != MODE_SYMLINK && f.mode != MODE_REGULAR && f.mode != MODE_EXECUTABLE ==>
            RowOf(store, f) == Ok(Row(f.path, f.mode, f.oid, 0, None))
  {
  }

  /** A file's row has its ID and size, unless it is small, not empty, and a pointer that expands: then the key and size it names. */
  lemma FileRows(store: Store, f: File)
    requires f.mode == MODE_REGULAR || f.mode == MODE_EXECUTABLE
    ensures store.sizeOf(f.oid).None? ==> RowOf(store, f) == Err(NoSuchBlob)
    ensures store.sizeOf(f.oid).Some? ==>
            var size := store.sizeOf(f.oid).value;
            var asked := store.pointerOf.Some? && 1 <= size <= 1024;
            && (asked && store.pointerOf.value(f).Err? ==> RowOf(store, f) == Err(store.pointerOf.value(f).error))
            && (asked && store.pointerOf.value(f).Ok? && store.pointerOf.value(f).value.Some? ==>
                  var pointer := store.pointerOf.value(f).value.value;
                  RowOf(store, f) == Ok(Row(f.path, f.mode, pointer.key, pointer.size, None)))
            && (!asked || store.pointerOf.value(f) == Ok(None) ==> RowOf(store, f) == Ok(Row(f.path, f.mode, f.oid, size, None)))
  {
  }

  /** A row for each entry, or the first failure. */
  function Rows(store: Store, fs: seq<File>): (r: Result<seq<Row>>)
    ensures r.Ok? ==> |r.value| == |fs| && forall i :: 0 <= i < |fs| ==> RowOf(store, fs[i]) == Ok(r.value[i])
    ensures r.Err? ==> exists i :: 0 <= i < |fs| && RowOf(store, fs[i]) == Err(r.error)
  {
    if |fs| == 0 then Ok([])
    else
      match RowOf(store, fs[0])
      case Err(e) => Err(e)
      case Ok(row) =>
        match Rows(store, fs[1..])
        case Err(e) =>
          var i :| 0 <= i < |fs[1..]| && RowOf(store, fs[1..][i]) == Err(e);
          assert RowOf(store, fs[i + 1]) == Err(e);
          Err(e)
        case Ok(rows) => Ok([row] + rows)
  }

  lemma {:induction false} RowsAppend(store: Store, a: seq<File>, b: seq<File>)
    ensures Rows(store, a).Err? ==> Rows(store, a + b) == Rows(store, a)
    ensures Rows(store, a).Ok? && Rows(store, b).Err? ==> Rows(store, a + b) == Rows(store, b)
    ensures Rows(store, a).Ok? && Rows(store, b).Ok? ==> Rows(store, a + b) == Ok(Rows(store, a).value + Rows(store, b).value)
  {
    hide RowOf;
    if |a| == 0 {
      assert a + b == b;
      if Rows(store, b).Ok? {
        assert [] + Rows(store, b).value == Rows(store, b).value;
      }
    } else {
      assert (a + b)[1..] == a[1..] + b;
      RowsAppend(store, a[1..], b);
      if RowOf(store, a[0]).Ok? && Rows(store, a[1..]).Ok? && Rows(store, b).Ok? {
        Assoc([RowOf(store, a[0]).value], Rows(store, a[1..]).value, Rows(store, b).value);
      }
    }
  }

  lemma RowsOne(store: Store, f: File)
    ensures RowOf(store, f).Ok? ==> Rows(store, [f]) == Ok([RowOf(store, f).value])
    ensures RowOf(store, f).Err? ==> Rows(store, [f]) == Err(RowOf(store, f).error)
  {
    hide RowOf;
    assert [f][1..] == [];
    if RowOf(store, f).Ok? {
      assert [RowOf(store, f).value] + [] == [RowOf(store, f).value];
    }
  }

  lemma RowsNone(store: Store)
    ensures Rows(store, []) == Ok([])
  {
  }

  /** What a page has collected is where the page it becomes starts, so a failure in it is that page's. */
  lemma {:induction false} FailureStays(store: Store, ds: seq<Listed>, emitting: bool, after: Option<ByteString>, page: TreePage, max: nat)
    requires Rows(store, page.entries).Err?
    ensures Rows(store, Continue(ds, emitting, after, page, max).entries) == Rows(store, page.entries)
    decreases |ds|
  {
    hide Rows;
    hide Children;
    if |ds| > 0 {
      RowsAppend(store, page.entries, Children(ds[0]));
      var now := emitting || Some(ds[0].path) == after;
      FailureStays(store, ds[1..], now, after, page, max);
      FailureStays(store, ds[1..], now, after, page.(entries := page.entries + Children(ds[0]), directories := page.directories + [ds[0].path]), max);
    }
  }

  lemma NextRow(store: Store, es: seq<TreeEntry>, dir: ByteString, i: nat)
    requires i < |es| && Rows(store, Infos(es[..i], dir)).Ok?
    ensures var done, row := Rows(store, Infos(es[..i], dir)), RowOf(store, Info(es[i], dir));
            && (row.Ok? ==> Rows(store, Infos(es[..i + 1], dir)) == Ok(done.value + [row.value]))
            && (row.Err? ==> Rows(store, Infos(es, dir)) == Err(row.error))
  {
    hide Rows;
    hide RowOf;
    hide Info;
    assert Infos(es[..i + 1], dir) == Infos(es[..i], dir) + [Info(es[i], dir)];
    assert Infos(es, dir) == Infos(es[..i + 1], dir) + Infos(es[i + 1..], dir);
    RowsOne(store, Info(es[i], dir));
    RowsAppend(store, Infos(es[..i], dir), [Info(es[i], dir)]);
    RowsAppend(store, Infos(es[..i + 1], dir), Infos(es[i + 1..], dir));
  }

  lemma NextChild(es: seq<TreeEntry>, dir: ByteString, i: nat)
    requires i < |es| && GitEntries(es)
    ensures PathsOf(Frames(es[..i + 1], dir)) == PathsOf(Frames(es[..i], dir)) +
            if es[i].Mode() == MODE_DIRECTORY || es[i].Mode() == MODE_GITLINK then [Join(dir, es[i].name)] else []
    ensures Info(es[i], dir) == File(Join(dir, es[i].name), es[i].Mode(), es[i].Oid())
  {
    assert es[..i + 1] == es[..i] + [es[i]];
    FramesAppend(es[..i], es[i], dir);
    hide Frames;
    hide Join;
  }

  lemma NoEntries(store: Store, es: seq<TreeEntry>, dir: ByteString)
    ensures Rows(store, Infos(es[..0], dir)) == Ok([]) && PathsOf(Frames(es[..0], dir)) == []
    ensures es[..|es|] == es
  {
  }

  /** One directory: a row for each entry when the page has started, its subdirectories returned. */
  method ShowEntries(store: Store, tree: Tree, dir: ByteString, emitting: bool, shown: Vector<Row>) returns (r: Result<seq<ByteString>>)
    requires GitEntries(tree.entries)
    modifies shown
    ensures r.Ok? ==> r.value == PathsOf(Frames(tree.entries, dir))
    ensures r.Ok? && !emitting ==> shown.items == old(shown.items)
    ensures r.Ok? && emitting ==>
              Rows(store, Infos(tree.entries, dir)).Ok?
              && shown.items == old(shown.items) + Rows(store, Infos(tree.entries, dir)).value
    ensures r.Err? ==> emitting && Rows(store, Infos(tree.entries, dir)) == Err(r.error)
  {
    hide *;
    var es := tree.entries;
    var children: seq<ByteString> := [];
    NoEntries(store, es, dir);
    ghost var rows: seq<Row> := [];
    for i := 0 to |es|
      invariant emitting ==> Rows(store, Infos(es[..i], dir)) == Ok(rows)
      invariant shown.items == old(shown.items) + if emitting then rows else []
      invariant children == PathsOf(Frames(es[..i], dir))
    {
      var path := Join(dir, es[i].name);
      NextChild(es, dir, i);
      if es[i].Mode() == MODE_DIRECTORY || es[i].Mode() == MODE_GITLINK {
        children := children + [path];
      }
      if emitting {
        NextRow(store, es, dir, i);
        var row := RowOf(store, File(path, es[i].Mode(), es[i].Oid()));
        if row.Err? {
          return Err(row.error);
        }
        Assoc(old(shown.items), rows, [row.value]);
        shown.items := shown.items + [row.value];
        rows := rows + [row.value];
      }
    }
    r := Ok(children);
  }

  function Clamp(n: nat): nat {
    if n < 1 then 1 else if n > MAX_TREE_PAGE_ENTRIES then MAX_TREE_PAGE_ENTRIES else n
  }

  /** A page limit is taken as it is from 1 to 100000, and as the nearer of the two otherwise. */
  lemma ClampIs(n: nat)
    ensures 1 <= n <= 100_000 ==> Clamp(n) == n
    ensures n == 0 ==> Clamp(n) == 1
    ensures n > 100_000 ==> Clamp(n) == 100_000
  {
  }

  /** The whole listing under a root. */
  function Listing(t: Tree, root: ByteString): Result<seq<Listed>> {
    match DirectoryTree(t, root)
    case Err(e) => Err(e)
    case Ok(node) => Ok(Preorder(Listed(root, node)))
  }

  /** The stacked frames stand for the stacked paths, and resolve. */
  ghost predicate Stands(t: Tree, stack: seq<ByteString>, frames: seq<Listed>) {
    stack == PathsOf(frames) && forall i :: 0 <= i < |frames| ==> Resolves(t, frames[i])
  }

  /**
   * A page of the listing: the walk replays from the root, starts showing at `after`, and fails at the first entry shown
   * that has no row.
   */
  method ListTree(t: Tree, store: Store, root: ByteString, after: Option<ByteString>, maxEntries: nat) returns (r: Result<RowPage>)
    requires GitTree(t)
    ensures Listing(t, root).Err? ==> r == Err(Listing(t, root).error)
    ensures Listing(t, root).Ok? ==>
              var page := PageFrom(Listing(t, root).value, after, Clamp(maxEntries));
              var rows := Rows(store, page.entries);
              && (rows.Err? ==> r == Err(rows.error))
              && (rows.Ok? ==> r == Ok(RowPage(rows.value, page.directories, page.next)))
  {
    var max := Clamp(maxEntries);
    hide *;
    var first := FindDirectory(t, root);
    var shown := new Vector<Row>();
    ghost var files: seq<File> := [];
    var directories: seq<ByteString> := [];
    var stack := [root];
    var emitting := after.None?;
    if first.Err? {
      RefusedListing(t, root);
      return Err(first.error);
    }
    ghost var frames := [Listed(root, first.value)];
    ghost var whole := PageFrom(Preorder(frames[0]), after, max);
    StartListing(t, root, after, max);
    RowsNone(store);
    while |stack| > 0
      invariant Stands(t, stack, frames)
      invariant Rows(store, files) == Ok(shown.items)
      invariant Continue(Drain(frames), emitting, after, TreePage(files, directories, None), max) == whole
      decreases |Drain(frames)|
    {
      StackTop(t, stack, frames);
      ghost var top, rest := frames[|frames| - 1], frames[..|frames| - 1];
      var dir := stack[|stack| - 1];
      StepListing(top, Drain(rest), emitting, after, TreePage(files, directories, None), max);
      if !emitting && Some(dir) == after {
        emitting := true;
      }
      if emitting && |shown.items| > 0 && |shown.items| >= max {
        return Ok(RowPage(shown.items, directories, Some(dir)));
      }
      stack := stack[..|stack| - 1];
      var tree := FindDirectory(t, dir);
      if tree.value.None? {
        if emitting {
          directories := directories + [dir];
        }
        frames := rest;
        continue;
      }
      ghost var infos := Infos(tree.value.value.entries, dir);
      RowsAppend(store, files, infos);
      PushAll(t, top, stack, rest);
      var children := ShowEntries(store, tree.value.value, dir, emitting, shown);
      if children.Err? {
        FailureStays(store, PreorderOf(tree.value.value.entries, dir) + Drain(rest), true, after,
                     TreePage(files + infos, directories + [dir], None), max);
        return Err(children.error);
      }
      if emitting {
        directories := directories + [dir];
        files := files + infos;
      }
      stack := stack + Reverse(children.value);
      frames := rest + Reverse(Frames(tree.value.value.entries, dir));
    }
    EndListing(t, stack, frames, emitting, after, TreePage(files, directories, None), max);
    r := Ok(RowPage(shown.items, directories, None));
  }

  lemma RefusedListing(t: Tree, root: ByteString)
    ensures DirectoryTree(t, root).Err? ==> Listing(t, root) == Err(DirectoryTree(t, root).error)
  {
  }

  lemma StartListing(t: Tree, root: ByteString, after: Option<ByteString>, max: nat)
    requires GitTree(t) && DirectoryTree(t, root).Ok?
    ensures var d := Listed(root, DirectoryTree(t, root).value);
            && Listing(t, root) == Ok(Preorder(d)) && Stands(t, [root], [d])
            && Continue(Drain([d]), after.None?, after, TreePage([], [], None), max) == PageFrom(Preorder(d), after, max)
  {
    var d := Listed(root, DirectoryTree(t, root).value);
    RootResolves(t, root);
    ContinueIsPage(Preorder(d), after, max);
    hide Preorder;
    hide Resolves;
    hide Continue;
    assert [d][..0] == [];
    assert Drain([d]) == Preorder(d) + [];
    assert Preorder(d) + [] == Preorder(d);
  }

  lemma StackTop(t: Tree, stack: seq<ByteString>, frames: seq<Listed>)
    requires Stands(t, stack, frames) && |stack| > 0
    ensures |frames| == |stack|
    ensures var top, rest := frames[|frames| - 1], frames[..|frames| - 1];
            && stack[|stack| - 1] == top.path && Stands(t, stack[..|stack| - 1], rest)
            && DirectoryTree(t, top.path) == Ok(top.node) && Resolves(t, top)
            && (top.node.Some? ==> GitEntries(top.node.value.entries))
            && Drain(frames) == Preorder(top) + Drain(rest)
  {
    hide DirectoryTree;
    hide Preorder;
  }

  /** What one round of the loop does to the page, by the cases of its branches. */
  lemma StepListing(d: Listed, rest: seq<Listed>, emitting: bool, after: Option<ByteString>, page: TreePage, max: nat)
    ensures var below := if d.node.None? then [] else PreorderOf(d.node.value.entries, d.path);
            var now := emitting || Some(d.path) == after;
            && |Preorder(d) + rest| == 1 + |below + rest|
            && Continue(Preorder(d) + rest, emitting, after, page, max) ==
               if now && |page.entries| > 0 && |page.entries| >= max then page.(next := Some(d.path))
               else if now then
                 Continue(below + rest, true, after, page.(entries := page.entries + Children(d), directories := page.directories + [d.path]), max)
               else Continue(below + rest, false, after, page, max)
    ensures d.node.None? ==> Children(d) == []
    ensures [] + rest == rest
    ensures d.node.Some? ==> Children(d) == Infos(d.node.value.entries, d.path)
    ensures page.entries + [] == page.entries
  {
    var below := if d.node.None? then [] else PreorderOf(d.node.value.entries, d.path);
    assert Preorder(d) == [d] + below;
    hide Preorder;
    hide PreorderOf;
    hide Children;
    hide Infos;
    assert d.node.None? ==> Children(d) == [] by { NoChildren(d); }
    assert d.node.Some? ==> Children(d) == Infos(d.node.value.entries, d.path) by { NoChildren(d); }
    hide *;
    Assoc([d], below, rest);
    ContinueUnfolds([d] + (below + rest), emitting, after, page, max);
    assert ([d] + (below + rest))[1..] == below + rest;
    ShownIs(page, d);
  }

  lemma NoChildren(d: Listed)
    ensures Children(d) == if d.node.None? then [] else Infos(d.node.value.entries, d.path)
  {
  }

  lemma ShownIs(page: TreePage, d: Listed)
    ensures Shown(page, d) == page.(entries := page.entries + Children(d), directories := page.directories + [d.path])
  {
  }

  lemma ContinueUnfolds(ds: seq<Listed>, emitting: bool, after: Option<ByteString>, page: TreePage, max: nat)
    requires |ds| > 0
    ensures var now := emitting || Some(ds[0].path) == after;
            Continue(ds, emitting, after, page, max) ==
            if now && |page.entries| > 0 && |page.entries| >= max then page.(next := Some(ds[0].path))
            else if now then Continue(ds[1..], true, after, Shown(page, ds[0]), max)
            else Continue(ds[1..], false, after, page, max)
  {
    hide Children;
  }

  lemma PushAll(t: Tree, d: Listed, stack: seq<ByteString>, rest: seq<Listed>)
    requires Stands(t, stack, rest) && Resolves(t, d) && d.node.Some?
    ensures var fs := Frames(d.node.value.entries, d.path);
            && Stands(t, stack + Reverse(PathsOf(fs)), rest + Reverse(fs))
            && Drain(rest + Reverse(fs)) == PreorderOf(d.node.value.entries, d.path) + Drain(rest)
  {
    var fs := Frames(d.node.value.entries, d.path);
    ChildrenResolve(t, d);
    DrainFrames(rest, d.node.value.entries, d.path);
    hide *;
    ReversedStands(t, fs);
    StandsJoin(t, stack, rest, Reverse(PathsOf(fs)), Reverse(fs));
  }

  lemma ReversedStands(t: Tree, fs: seq<Listed>)
    requires forall d <- fs :: Resolves(t, d)
    ensures Stands(t, Reverse(PathsOf(fs)), Reverse(fs))
  {
    hide Resolves;
    ReversedPaths(fs);
    ReversedMembers(fs);
    var all := Reverse(fs);
    forall i | 0 <= i < |all| ensures Resolves(t, all[i]) {
      assert all[i] in all;
    }
  }

  lemma StandsJoin(t: Tree, a: seq<ByteString>, fa: seq<Listed>, b: seq<ByteString>, fb: seq<Listed>)
    requires Stands(t, a, fa) && Stands(t, b, fb)
    ensures Stands(t, a + b, fa + fb)
  {
    hide Resolves;
    assert PathsOf(fa + fb) == PathsOf(fa) + PathsOf(fb);
  }

  lemma {:induction false} ReversedPaths(fs: seq<Listed>)
    ensures Reverse(PathsOf(fs)) == PathsOf(Reverse(fs))
  {
    if |fs| > 0 {
      ReversedPaths(fs[1..]);
      assert PathsOf(fs)[1..] == PathsOf(fs[1..]);
    }
  }

  lemma {:induction false} ReversedMembers(fs: seq<Listed>)
    ensures forall d <- Reverse(fs) :: d in fs
  {
    if |fs| > 0 {
      ReversedMembers(fs[1..]);
    }
  }

  lemma EndListing(t: Tree, stack: seq<ByteString>, frames: seq<Listed>, emitting: bool, after: Option<ByteString>, page: TreePage, max: nat)
    requires |stack| == 0 && Stands(t, stack, frames)
    ensures Continue(Drain(frames), emitting, after, page, max) == page
  {
  }
}
