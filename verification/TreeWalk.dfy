/** The recursive descent that lists a commit's files in index order and counts them by directory. */
module TreeWalk {
  import opened Wrappers
  import opened Bytes
  import opened GitTypes
  import opened Trees
  import opened CacheTrees

  datatype File = File(path: ByteString, mode: U32, oid: ObjectId)

  function FilePaths(files: seq<File>): (r: seq<ByteString>)
    ensures |r| == |files| && forall i :: 0 <= i < |r| ==> r[i] == files[i].path
  {
    seq(|files|, i requires 0 <= i < |files| => files[i].path)
  }

  /** Every file below a directory at `path`, in tree order. */
  function Files(t: Tree, path: ByteString): seq<File>
    decreases t, 1
  {
    FilesOf(t.entries, path)
  }

  function FilesAt(e: TreeEntry, path: ByteString): seq<File>
    decreases e, 1
  {
    if e.Sub? then Files(e.tree, Join(path, e.name)) else [File(Join(path, e.name), e.leafMode, e.leafOid)]
  }

  function FilesOf(es: seq<TreeEntry>, path: ByteString): seq<File>
    decreases es, 0
  {
    if |es| == 0 then [] else FilesAt(es[0], path) + FilesOf(es[1..], path)
  }

  /** How many files there are below an entry; paths do not matter. */
  function Count(e: TreeEntry): nat
    decreases e, 1
  {
    if e.Sub? then CountOf(e.tree.entries) else 1
  }

  function CountOf(es: seq<TreeEntry>): nat
    decreases es, 0
  {
    if |es| == 0 then 0 else Count(es[0]) + CountOf(es[1..])
  }

  lemma {:induction false} CountIsLength(es: seq<TreeEntry>, path: ByteString)
    ensures |FilesOf(es, path)| == CountOf(es)
    decreases es
  {
    if |es| > 0 {
      AtEntry(es[0], path);
      if es[0].Sub? {
        CountIsLength(es[0].tree.entries, Join(path, es[0].name));
      }
      CountIsLength(es[1..], path);
    }
  }

  lemma {:induction false} CountAppend(es: seq<TreeEntry>, e: TreeEntry)
    ensures CountOf(es + [e]) == CountOf(es) + Count(e)
  {
    if |es| == 0 {
      assert es + [e] == [e] && [e][1..] == [];
    } else {
      assert (es + [e])[1..] == es[1..] + [e];
      CountAppend(es[1..], e);
    }
  }

  lemma {:induction false} CountPrefix(es: seq<TreeEntry>, i: nat)
    requires i <= |es|
    ensures CountOf(es[..i]) <= CountOf(es)
  {
    if 0 < i {
      assert es[..i][1..] == es[1..][..i - 1];
      CountPrefix(es[1..], i - 1);
    }
  }

  lemma {:induction false} FilesAppend(es: seq<TreeEntry>, e: TreeEntry, path: ByteString)
    ensures FilesOf(es + [e], path) == FilesOf(es, path) + FilesAt(e, path)
  {
    if |es| == 0 {
      assert es + [e] == [e] && [e][1..] == [];
    } else {
      assert (es + [e])[1..] == es[1..] + [e];
      FilesAppend(es[1..], e, path);
    }
  }

  /** The cache tree of a tree: one node per directory, with the number of files below it. */
  function CacheTreeOf(t: Tree, name: ByteString): (r: CacheTree)
    requires CountOf(t.entries) <= U32_MAX
    ensures r.name == name && r.oid == t.oid && r.entries == CountOf(t.entries)
    decreases t, 1
  {
    CacheTree(name, t.oid, CountOf(t.entries), NodesOf(t.entries))
  }

  function NodesOf(es: seq<TreeEntry>): (r: seq<CacheTree>)
    requires CountOf(es) <= U32_MAX
    decreases es, 0
  {
    if |es| == 0 then []
    else if es[0].Sub? then
      AtEntry(es[0], []);
      [CacheTreeOf(es[0].tree, es[0].name)] + NodesOf(es[1..])
    else NodesOf(es[1..])
  }

  lemma {:induction false} NodesAppend(es: seq<TreeEntry>, e: TreeEntry)
    requires CountOf(es + [e]) <= U32_MAX
    ensures CountOf(es) <= U32_MAX && Count(e) <= U32_MAX
    ensures NodesOf(es + [e]) == NodesOf(es) + if e.Sub? then [CacheTreeOf(e.tree, e.name)] else []
    decreases |es|
  {
    CountAppend(es, e);
    hide CacheTreeOf;
    if |es| == 0 {
      assert es + [e] == [e] && [e][1..] == [];
    } else {
      assert (es + [e])[1..] == es[1..] + [e];
      NodesAppend(es[1..], e);
    }
  }

  /**
   * Recursive descent in tree order. It fails exactly when the directory holds more files than
   * 32 bits count; otherwise it appends the files and returns the cache tree.
   */
  method Descend(t: Tree, name: ByteString, prefix: ByteString, out: Vector<File>) returns (r: Result<CacheTree>)
    modifies out
    ensures r.Ok? <==> CountOf(t.entries) <= 0xFFFF_FFFF
    ensures r.Ok? ==> r.value == CacheTreeOf(t, name) && out.items == old(out.items) + Files(t, prefix)
    ensures r.Err? ==> r.error == TooManyEntries
    decreases t
  {
    hide Count;
    hide CountOf;
    hide FilesOf;
    hide FilesAt;
    hide NodesOf;
    var es := t.entries;
    var node := CacheTree(name, t.oid, 0, []);
    Nothing(prefix);
    for i := 0 to |es|
      invariant CountOf(es[..i]) == node.entries
      invariant node == CacheTree(name, t.oid, node.entries, NodesOf(es[..i]))
      invariant out.items == old(out.items) + FilesOf(es[..i], prefix)
    {
      var entry := es[i];
      var path := Join(prefix, entry.name);
      assert es[..i + 1] == es[..i] + [entry];
      CountAppend(es[..i], entry);
      CountPrefix(es, i + 1);
      FilesAppend(es[..i], entry, prefix);
      AtEntry(entry, prefix);
      if entry.Sub? {
        var child := Descend(entry.tree, entry.name, path, out);
        if child.Err? {
          return Err(child.error);
        }
        if node.entries + child.value.entries > U32_MAX {
          return Err(TooManyEntries);
        }
        NodesAppend(es[..i], entry);
        node := node.(entries := node.entries + child.value.entries, children := node.children + [child.value]);
        continue;
      }
      out.items := out.items + [File(path, entry.leafMode, entry.leafOid)];
      if node.entries + 1 > U32_MAX {
        return Err(TooManyEntries);
      }
      NodesAppend(es[..i], entry);
      node := node.(entries := node.entries + 1);
    }
    assert es[..|es|] == es;
    r := Ok(node);
  }

  lemma Nothing(path: ByteString)
    ensures CountOf([]) == 0 && FilesOf([], path) == [] && NodesOf([]) == []
  {
  }

  lemma AtEntry(e: TreeEntry, path: ByteString)
    ensures e.Sub? ==> Count(e) == CountOf(e.tree.entries) && FilesAt(e, path) == Files(e.tree, Join(path, e.name))
    ensures e.Leaf? ==> Count(e) == 1 && FilesAt(e, path) == [File(Join(path, e.name), e.leafMode, e.leafOid)]
  {
  }

  // ---------------------------------------------------------------------------
  // Order
  // ---------------------------------------------------------------------------

  /** Paths all below one entry: the entry's own path, or deeper. */
  predicate Within(e: TreeEntry, base: ByteString, path: ByteString) {
    if e.Sub? then base + e.name + [SLASH] <= path else path == base + e.name
  }

  lemma {:induction false} FilesAreWithin(e: TreeEntry, path: ByteString)
    requires GitName(e.name) && (e.Sub? ==> GitTree(e.tree))
    ensures forall f <- FilesAt(e, path) :: Within(e, Base(path), f.path)
    decreases e, 1
  {
    if e.Sub? {
      var inner := Join(path, e.name);
      BaseOfJoin(path, e.name);
      FilesStartWithBase(e.tree.entries, inner);
    }
  }

  lemma {:induction false} FilesStartWithBase(es: seq<TreeEntry>, path: ByteString)
    requires GitEntries(es) && forall e <- es :: e.Sub? ==> GitTree(e.tree)
    ensures forall f <- FilesOf(es, path) :: Base(path) <= f.path
    decreases es, 0
  {
    if |es| > 0 {
      GitRest(es);
      FilesAreWithin(es[0], path);
      FilesStartWithBase(es[1..], path);
    }
  }

  /** Whatever lies below an entry with the smaller key is smaller. */
  lemma KeyOrder(e: TreeEntry, f: TreeEntry, base: ByteString, x: ByteString, y: ByteString)
    requires GitName(e.name) && GitName(f.name) && e.name != f.name
    requires e.Leaf? ==> e.leafMode != MODE_DIRECTORY
    requires f.Leaf? ==> f.leafMode != MODE_DIRECTORY
    requires Less(e.Key(), f.Key()) && Within(e, base, x) && Within(f, base, y)
    ensures Less(x, y)
  {
    var a, b := base + e.Key(), base + f.Key();
    LessCommonPrefix(base, e.Key(), f.Key());
    assert Less(a, b) && a <= x && b <= y;
    if a <= b {
      if e.Sub? {
        var k := |e.name|;
        assert b[|base| + k] == a[|base| + k] == SLASH;
        assert f.Key()[k] == SLASH;
        if k >= |f.name| {
          assert |a| == |b| && a == b;
          LessIrreflexive(a);
        }
        assert false;
      }
      LessIrreflexive(a);
      assert |a| == |b| ==> a == b;
      assert x == a && a < b;
      LessProperPrefix(x, y);
    } else {
      LessExtend(a, b, x[|a|..], y[|b|..]);
      assert x == a + x[|a|..] && y == b + y[|b|..];
    }
  }

  lemma {:induction false} EarlierEntryFirst(e: TreeEntry, es: seq<TreeEntry>, path: ByteString, x: ByteString)
    requires GitEntries([e] + es) && forall f <- es :: f.Sub? ==> GitTree(f.tree)
    requires Within(e, Base(path), x)
    ensures forall f <- FilesOf(es, path) :: Less(x, f.path)
    decreases |es|
  {
    if |es| > 0 {
      var all := [e] + es;
      assert all[0] == e && all[1] == es[0];
      FilesAreWithin(es[0], path);
      forall f <- FilesAt(es[0], path) ensures Less(x, f.path) {
        KeyOrder(e, es[0], Base(path), x, f.path);
      }
      Dropped(e, es);
      EarlierEntryFirst(e, es[1..], path, x);
    }
  }

  lemma Dropped(e: TreeEntry, es: seq<TreeEntry>)
    requires GitEntries([e] + es) && |es| > 0
    ensures GitEntries([e] + es[1..])
  {
    var all, fewer := [e] + es, [e] + es[1..];
    assert forall i :: 0 <= i < |fewer| ==> fewer[i] == all[if i == 0 then 0 else i + 1];
  }

  lemma SortedJoin(a: seq<File>, b: seq<File>)
    requires StrictlySorted(FilePaths(a)) && StrictlySorted(FilePaths(b))
    requires forall x <- a, y <- b :: Less(x.path, y.path)
    ensures StrictlySorted(FilePaths(a + b))
  {
    var s := FilePaths(a + b);
    forall i, j | 0 <= i < j < |s| ensures Less(s[i], s[j]) {
      if j < |a| {
        assert s[i] == FilePaths(a)[i] && s[j] == FilePaths(a)[j];
      } else if i >= |a| {
        assert s[i] == FilePaths(b)[i - |a|] && s[j] == FilePaths(b)[j - |a|];
      } else {
        assert a[i] in a && b[j - |a|] in b;
      }
    }
  }

  /** The descent visits files in strictly increasing byte order of their full paths. */
  lemma {:induction false} DescentIsSorted(es: seq<TreeEntry>, path: ByteString)
    requires GitEntries(es) && forall e <- es :: e.Sub? ==> GitTree(e.tree)
    ensures StrictlySorted(FilePaths(FilesOf(es, path)))
    decreases es
  {
    if |es| > 0 {
      var e := es[0];
      GitRest(es);
      AtEntry(e, path);
      DescentIsSorted(es[1..], path);
      if e.Sub? {
        DescentIsSorted(e.tree.entries, Join(path, e.name));
      }
      FilesAreWithin(e, path);
      assert es == [e] + es[1..];
      forall x <- FilesAt(e, path), y <- FilesOf(es[1..], path) ensures Less(x.path, y.path) {
        EarlierEntryFirst(e, es[1..], path, x.path);
      }
      SortedJoin(FilesAt(e, path), FilesOf(es[1..], path));
    }
  }

  // ---------------------------------------------------------------------------
  // Counts
  // ---------------------------------------------------------------------------

  lemma {:induction false} CountUnderAppend(a: seq<ByteString>, b: seq<ByteString>, prefix: ByteString)
    ensures CountUnder(a + b, prefix) == CountUnder(a, prefix) + CountUnder(b, prefix)
  {
    if |a| == 0 {
      assert a + b == b;
    } else {
      assert (a + b)[1..] == a[1..] + b;
      CountUnderAppend(a[1..], b, prefix);
    }
  }

  /** None of the paths is below the prefix. */
  predicate Outside(paths: seq<ByteString>, prefix: ByteString) {
    forall i :: 0 <= i < |paths| ==> !(prefix <= paths[i])
  }

  lemma {:induction false} CountUnderNone(a: seq<ByteString>, prefix: ByteString)
    requires Outside(a, prefix)
    ensures CountUnder(a, prefix) == 0
  {
    if |a| > 0 {
      CountUnderNone(a[1..], prefix);
    }
  }

  lemma {:induction false} CountUnderAll(a: seq<ByteString>, prefix: ByteString)
    requires forall i :: 0 <= i < |a| ==> prefix <= a[i]
    ensures CountUnder(a, prefix) == |a|
  {
    if |a| > 0 {
      assert prefix <= a[0];
      CountUnderAll(a[1..], prefix);
    }
  }

  lemma OutsideDeeper(paths: seq<ByteString>, prefix: ByteString, name: ByteString)
    requires Outside(paths, prefix)
    ensures Outside(paths, ChildPrefix(prefix, name))
  {
    var deeper := ChildPrefix(prefix, name);
    forall i | 0 <= i < |paths| ensures !(deeper <= paths[i]) {
      PrefixOfPrefix(prefix, deeper, paths[i]);
    }
  }

  lemma PrefixOfPrefix(p: ByteString, q: ByteString, x: ByteString)
    requires p <= q
    ensures q <= x ==> p <= x
  {
  }

  lemma OutsideJoin(a: seq<ByteString>, b: seq<ByteString>, prefix: ByteString)
    requires Outside(a, prefix) && Outside(b, prefix)
    ensures Outside(a + b, prefix)
  {
  }

  lemma PathsJoin(a: seq<File>, b: seq<File>)
    ensures FilePaths(a + b) == FilePaths(a) + FilePaths(b)
  {
  }

  /** The files of an entry are outside every sibling directory. */
  lemma SiblingOutside(e: TreeEntry, name: ByteString, path: ByteString)
    requires GitName(e.name) && (e.Sub? ==> GitTree(e.tree)) && GitName(name) && e.name != name
    ensures Outside(FilePaths(FilesAt(e, path)), ChildPrefix(Base(path), name))
  {
    FilesAreWithin(e, path);
    var files, base := FilesAt(e, path), Base(path);
    forall i | 0 <= i < |files| ensures !(ChildPrefix(base, name) <= files[i].path) {
      assert files[i] in files && Within(e, base, files[i].path);
      if ChildPrefix(base, name) <= files[i].path {
        if e.Sub? {
          OneName(base, e.name, name, files[i].path);
        } else {
          SlashInside(base, name, e.name);
        }
        assert false;
      }
    }
  }

  lemma SlashInside(base: ByteString, name: ByteString, other: ByteString)
    requires ChildPrefix(base, name) <= base + other
    ensures SLASH in other
  {
    var x, k := base + other, |base| + |name|;
    assert x[k] == ChildPrefix(base, name)[k] == SLASH;
    assert other[|name|] == SLASH;
  }

  lemma {:induction false} SiblingsOutside(es: seq<TreeEntry>, name: ByteString, path: ByteString)
    requires GitEntries(es) && (forall e <- es :: e.Sub? ==> GitTree(e.tree)) && GitName(name)
    requires forall e <- es :: e.name != name
    ensures Outside(FilePaths(FilesOf(es, path)), ChildPrefix(Base(path), name))
    decreases |es|
  {
    if |es| > 0 {
      GitRest(es);
      SiblingOutside(es[0], name, path);
      SiblingsOutside(es[1..], name, path);
      PathsJoin(FilesAt(es[0], path), FilesOf(es[1..], path));
    }
  }

  /** A node is accurate for any list of paths in which only its own files are below it. */
  lemma {:induction false} NodeAccurate(t: Tree, name: ByteString, path: ByteString, before: seq<ByteString>, after: seq<ByteString>)
    requires GitTree(t) && CountOf(t.entries) <= U32_MAX
    requires Outside(before, Base(path)) && Outside(after, Base(path))
    ensures Accurate(CacheTreeOf(t, name), Base(path), before + FilePaths(Files(t, path)) + after)
    decreases t, 1
  {
    var own := FilePaths(Files(t, path));
    var all := before + own + after;
    FilesStartWithBase(t.entries, path);
    CountIsLength(t.entries, path);
    forall i | 0 <= i < |own| ensures Base(path) <= own[i] {
      assert Files(t, path)[i] in Files(t, path);
    }
    CountUnderAll(own, Base(path));
    forall e <- t.entries | e.Sub?
      ensures OutsideBoth(before, after, path, e.name)
    {
      OutsideDeeper(before, Base(path), e.name);
      OutsideDeeper(after, Base(path), e.name);
    }
    CountUnderNone(before, Base(path));
    CountUnderNone(after, Base(path));
    CountUnderAppend(before + own, after, Base(path));
    CountUnderAppend(before, own, Base(path));
    NodesAccurate(t.entries, path, before, after);
  }

  lemma {:induction false} NodesAccurate(es: seq<TreeEntry>, path: ByteString, before: seq<ByteString>, after: seq<ByteString>)
    requires GitEntries(es) && (forall e <- es :: e.Sub? ==> GitTree(e.tree)) && CountOf(es) <= U32_MAX
    requires forall e <- es :: e.Sub? ==> OutsideBoth(before, after, path, e.name)
    ensures forall c <- NodesOf(es) ::
              Accurate(c, ChildPrefix(Base(path), c.name), before + FilePaths(FilesOf(es, path)) + after)
    decreases es, 0
  {
    if |es| > 0 {
      var e, rest := es[0], es[1..];
      var mine, others := FilePaths(FilesAt(e, path)), FilePaths(FilesOf(rest, path));
      var all := before + FilePaths(FilesOf(es, path)) + after;
      GitRest(es);
      Regroup(es, path, before, after);
      forall f <- rest | f.Sub? ensures OutsideBoth(before + mine, after, path, f.name) {
        SiblingOutside(e, f.name, path);
        OutsideJoin(before, mine, ChildPrefix(Base(path), f.name));
      }
      NodesAccurate(rest, path, before + mine, after);
      AtEntry(e, path);
      if e.Sub? {
        var node := CacheTreeOf(e.tree, e.name);
        assert Accurate(node, ChildPrefix(Base(path), e.name), all) by {
          SiblingsOutside(rest, e.name, path);
          OutsideJoin(others, after, ChildPrefix(Base(path), e.name));
          BaseOfJoin(path, e.name);
          NodeAccurate(e.tree, e.name, Join(path, e.name), before, others + after);
        }
        hide Accurate;
        hide CacheTreeOf;
        assert NodesOf(es) == [node] + NodesOf(rest);
      }
    }
  }

  predicate OutsideBoth(before: seq<ByteString>, after: seq<ByteString>, path: ByteString, name: ByteString) {
    Outside(before, ChildPrefix(Base(path), name)) && Outside(after, ChildPrefix(Base(path), name))
  }

  /** The same list, with the first entry's files counted to either side. */
  lemma Regroup(es: seq<TreeEntry>, path: ByteString, before: seq<ByteString>, after: seq<ByteString>)
    requires |es| > 0
    ensures var mine, others := FilePaths(FilesAt(es[0], path)), FilePaths(FilesOf(es[1..], path));
            var all := before + FilePaths(FilesOf(es, path)) + after;
            all == before + mine + (others + after) && all == (before + mine) + others + after
  {
    PathsJoin(FilesAt(es[0], path), FilesOf(es[1..], path));
  }

  /** No directory's node is listed twice. */
  lemma {:induction false} NodesDistinct(es: seq<TreeEntry>)
    requires GitEntries(es) && (forall e <- es :: e.Sub? ==> GitTree(e.tree)) && CountOf(es) <= U32_MAX
    ensures NamesDiffer(NodesOf(es)) && forall c <- NodesOf(es) :: DistinctNames(c) && exists e <- es :: e.name == c.name
    decreases es
  {
    if |es| > 0 {
      var e, rest := es[0], es[1..];
      GitRest(es);
      AtEntry(e, []);
      NodesDistinct(rest);
      if e.Sub? {
        NodesDistinct(e.tree.entries);
        DifferCons(CacheTreeOf(e.tree, e.name), NodesOf(rest));
      }
    }
  }

  /** Every tree ID below, the tree's own included. */
  predicate Sha1Trees(t: Tree) {
    t.oid.algorithm == Sha1 && forall e <- t.entries :: e.Sub? ==> Sha1Trees(e.tree)
  }

  lemma {:induction false} NodesSha1(es: seq<TreeEntry>)
    requires CountOf(es) <= U32_MAX && forall e <- es :: e.Sub? ==> Sha1Trees(e.tree)
    ensures forall c <- NodesOf(es) :: AllSha1(c)
    decreases es
  {
    if |es| > 0 {
      AtEntry(es[0], []);
      NodesSha1(es[1..]);
      if es[0].Sub? {
        NodesSha1(es[0].tree.entries);
      }
    }
  }
}
