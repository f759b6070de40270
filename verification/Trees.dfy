/** Git trees as finite values, the paths below them, and walking to a path. */
module Trees {
  import opened Wrappers
  import opened Bytes
  import opened GitTypes
  import opened Components
  import opened DecodedTrees

  datatype Tree = Tree(oid: ObjectId, entries: seq<TreeEntry>)

  /** A directory holds its tree; everything else, a gitlink included, is a leaf with its mode and ID. */
  datatype TreeEntry = Leaf(name: ByteString, leafMode: U32, leafOid: ObjectId) | Sub(name: ByteString, tree: Tree) {
    function Mode(): U32 {
      if Sub? then MODE_DIRECTORY else leafMode
    }

    function Oid(): ObjectId {
      if Sub? then tree.oid else leafOid
    }

    function Key(): ByteString {
      SortKey(name, Mode())
    }
  }

  predicate GitName(name: ByteString) {
    |name| > 0 && SLASH !in name && NUL !in name
  }

  /** One tree object as a decoder presents it: valid names, each once, in `SortKey` order. */
  predicate GitEntries(es: seq<TreeEntry>) {
    && (forall i :: 0 <= i < |es| ==> GitName(es[i].name))
    && (forall i, j :: 0 <= i < j < |es| ==> es[i].name != es[j].name)
    && (forall i, j :: 0 <= i < j < |es| ==> Less(es[i].Key(), es[j].Key()))
    && (forall i :: 0 <= i < |es| && es[i].Leaf? ==> es[i].leafMode != MODE_DIRECTORY)
  }

  predicate GitTree(t: Tree) {
    GitEntries(t.entries) && forall e <- t.entries :: e.Sub? ==> GitTree(e.tree)
  }

  /** The rest of a directory is a directory. */
  lemma GitRest(es: seq<TreeEntry>)
    requires GitEntries(es) && |es| > 0
    ensures GitEntries(es[1..])
  {
  }

  // ---------------------------------------------------------------------------
  // Paths
  // ---------------------------------------------------------------------------

  /** What precedes a child's name in its path. */
  function Base(path: ByteString): (r: ByteString)
    ensures path <= r
  {
    if |path| > 0 && path[|path| - 1] != SLASH then path + [SLASH] else path
  }

  /** `BytePath::join`. */
  function Join(path: ByteString, name: ByteString): ByteString {
    Base(path) + name
  }

  /** A name joins a path with one slash, unless the path is empty or ends in one. */
  lemma JoinIs(path: ByteString, name: ByteString)
    ensures Join([], name) == name && Join(path + [47], name) == path + [47] + name
    ensures |path| > 0 && path[|path| - 1] != 47 ==> Join(path, name) == path + [47] + name
  {
    assert [] + name == name;
  }

  lemma BaseOfJoin(path: ByteString, name: ByteString)
    requires GitName(name)
    ensures Base(Join(path, name)) == Base(path) + name + [SLASH]
    ensures |Join(path, name)| > |path|
  {
    var p := Join(path, name);
    assert p[|p| - 1] == name[|name| - 1];
    assert name[|name| - 1] in name;
  }

  /** A string continues at most one slash-free name. */
  lemma OneName(base: ByteString, a: ByteString, b: ByteString, x: ByteString)
    requires SLASH !in a && SLASH !in b
    requires base + a + [SLASH] <= x && base + b + [SLASH] <= x
    ensures a == b
  {
    var k := |base|;
    assert x[k + |a|] == (base + a + [SLASH])[k + |a|] == SLASH;
    assert x[k + |b|] == (base + b + [SLASH])[k + |b|] == SLASH;
    forall i | 0 <= i < |a| ensures x[k + i] == a[i] { assert x[k + i] == (base + a + [SLASH])[k + i]; }
    forall i | 0 <= i < |b| ensures x[k + i] == b[i] { assert x[k + i] == (base + b + [SLASH])[k + i]; }
    if |a| < |b| {
      assert false;
    } else if |b| < |a| {
      assert false;
    } else {
      assert forall i :: 0 <= i < |a| ==> a[i] == x[k + i] == b[i];
    }
  }

  /** `components`: the non-empty pieces between slashes. */
  function NonEmpty(names: seq<Name>): seq<Name> {
    if |names| == 0 then []
    else (if |names[0]| > 0 then [names[0]] else []) + NonEmpty(names[1..])
  }

  function PathComponents(path: ByteString): seq<Name> {
    NonEmpty(Split(path))
  }

  lemma {:induction false} NonEmptyAppend(a: seq<Name>, b: seq<Name>)
    ensures NonEmpty(a + b) == NonEmpty(a) + NonEmpty(b)
  {
    if |a| == 0 {
      assert a + b == b;
    } else {
      assert (a + b)[1..] == a[1..] + b;
      NonEmptyAppend(a[1..], b);
    }
  }

  lemma {:induction false} SplitAppend(a: ByteString, b: ByteString)
    ensures Split(a + [SLASH] + b) == Split(a) + Split(b)
    decreases |a|
  {
    var position := Position(a, SLASH);
    if position.None? {
      SplitStep(a, b);
    } else {
      var k := position.value;
      var first, rest := a[..k], a[k + 1..];
      hide Split;
      Shift(first, rest, b);
      assert a == first + [SLASH] + rest;
      SplitStep(first, rest + [SLASH] + b);
      SplitStep(first, rest);
      SplitAppend(rest, b);
      Assoc([first], Split(rest), Split(b));
    }
  }

  lemma Shift(a: ByteString, b: ByteString, c: ByteString)
    ensures a + [SLASH] + b + [SLASH] + c == a + [SLASH] + (b + [SLASH] + c)
  {
  }

  /** Components join at a slash, so repeated slashes and slashes at either end say nothing. */
  lemma ComponentsJoin(a: ByteString, b: ByteString, name: ByteString)
    ensures PathComponents(a + [47] + b) == PathComponents(a) + PathComponents(b)
    ensures GitName(name) ==> PathComponents(name) == [name]
    ensures PathComponents([]) == []
  {
    SplitAppend(a, b);
    NonEmptyAppend(Split(a), Split(b));
    if GitName(name) {
      NameAlone(name);
    }
    NoComponents();
  }

  lemma NameAlone(name: ByteString)
    requires GitName(name)
    ensures Split(name) == [name] && NonEmpty([name]) == [name] && NonEmpty([[]]) == []
    ensures Split([]) == [[]]
  {
    assert [name][1..] == [];
  }

  lemma NoComponents()
    ensures PathComponents([]) == []
  {
    var none: ByteString := [];
    assert Split(none) == [none];
    assert [none][1..] == [];
  }

  /** Joining adds one component, whether or not the path already ends in a slash. */
  lemma ComponentsOfJoin(path: ByteString, name: ByteString)
    requires GitName(name)
    ensures PathComponents(Join(path, name)) == PathComponents(path) + [name]
  {
    NameAlone(name);
    var n := |path|;
    hide Split;
    hide NonEmpty;
    if n == 0 {
      assert Join(path, name) == name;
      assert [] + [name] == [name];
    } else if path[n - 1] == SLASH {
      var a := path[..n - 1];
      assert path == a + [SLASH] && path == a + [SLASH] + [] && Join(path, name) == a + [SLASH] + name;
      SplitAppend(a, []);
      SplitAppend(a, name);
      NonEmptyAppend(Split(a), [[]]);
      NonEmptyAppend(Split(a), [name]);
      assert PathComponents(path) == NonEmpty(Split(a));
    } else {
      SplitAppend(path, name);
      NonEmptyAppend(Split(path), [name]);
    }
  }

  // ---------------------------------------------------------------------------
  // Walking to a path
  // ---------------------------------------------------------------------------

  function Find(es: seq<TreeEntry>, name: ByteString): (r: Option<TreeEntry>)
    ensures r.Some? ==> r.value in es && r.value.name == name
  {
    if |es| == 0 then None
    else if es[0].name == name then Some(es[0])
    else Find(es[1..], name)
  }

  lemma {:induction false} FindEntry(es: seq<TreeEntry>, i: nat)
    requires GitEntries(es) && i < |es|
    ensures Find(es, es[i].name) == Some(es[i])
  {
    if i > 0 {
      GitRest(es);
      FindEntry(es[1..], i - 1);
    }
  }

  /** Follow directories; nothing past a missing one, a file or a gitlink. */
  function Descended(t: Tree, names: seq<Name>): Option<Tree>
    decreases |names|
  {
    if |names| == 0 then Some(t)
    else
      match Find(t.entries, names[0])
      case None => None
      case Some(e) => if e.Sub? then Descended(e.tree, names[1..]) else None
  }

  lemma {:induction false} DescendedAppend(t: Tree, a: seq<Name>, name: Name)
    ensures Descended(t, a + [name]) ==
            match Descended(t, a)
            case None => None
            case Some(d) => Descended(d, [name])
    decreases |a|
  {
    if |a| == 0 {
      assert a + [name] == [name];
    } else {
      assert (a + [name])[1..] == a[1..] + [name];
      match Find(t.entries, a[0]) {
        case None =>
        case Some(e) => if e.Sub? { DescendedAppend(e.tree, a[1..], name); }
      }
    }
  }

  /** The entry a non-empty path names: its last component looked up in the tree of its parents. */
  function EntryAt(t: Tree, path: ByteString): Option<TreeEntry> {
    var names := PathComponents(path);
    if |names| == 0 then None
    else
      match Descended(t, names[..|names| - 1])
      case None => None
      case Some(parent) => Find(parent.entries, names[|names| - 1])
  }

  /** The tree a directory path names; nothing for a gitlink. */
  function DirectoryTree(t: Tree, path: ByteString): Result<Option<Tree>> {
    if |path| == 0 then Ok(Some(t))
    else
      match EntryAt(t, path)
      case None => Err(NoSuchDirectory)
      case Some(e) =>
        if e.Sub? then Ok(Some(e.tree))
        else if e.leafMode == MODE_GITLINK then Ok(None)
        else Err(NotADirectory)
  }

  /** The path walk of `walk_to_parent`, component by component. */
  method WalkToParent(t: Tree, path: ByteString) returns (r: Option<(Tree, Name)>)
    ensures var names := PathComponents(path);
            if |names| == 0 then r == None
            else
              match Descended(t, names[..|names| - 1])
              case None => r == None
              case Some(parent) => r == Some((parent, names[|names| - 1]))
  {
    var names := PathComponents(path);
    if |names| == 0 {
      return None;
    }
    var tree := t;
    var parents := names[..|names| - 1];
    for i := 0 to |parents|
      invariant Descended(tree, parents[i..]) == Descended(t, parents)
    {
      assert parents[i..][1..] == parents[i + 1..];
      var entry := Find(tree.entries, parents[i]);
      if entry.None? || !entry.value.Sub? {
        return None;
      }
      tree := entry.value.tree;
    }
    r := Some((tree, names[|names| - 1]));
  }

  /** Walking to a path that was built by joining names arrives where the names lead. */
  lemma DescendedJoin(t: Tree, path: ByteString, d: Tree, i: nat)
    requires Descended(t, PathComponents(path)) == Some(d)
    requires GitEntries(d.entries) && i < |d.entries|
    ensures EntryAt(t, Join(path, d.entries[i].name)) == Some(d.entries[i])
    ensures d.entries[i].Sub? ==> Descended(t, PathComponents(Join(path, d.entries[i].name))) == Some(d.entries[i].tree)
  {
    var e := d.entries[i];
    ComponentsOfJoin(path, e.name);
    FindEntry(d.entries, i);
    var names := PathComponents(Join(path, e.name));
    assert names[..|names| - 1] == PathComponents(path);
    DescendedAppend(t, PathComponents(path), e.name);
    assert [e.name][1..] == [];
  }
}
