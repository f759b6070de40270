/** Following a recursive listing's tokens: every directory once, whole, and in preorder. */
module ListingPages {
  import opened Wrappers
  import opened Bytes
  import opened GitTypes
  import opened CacheTrees
  import opened Trees
  import opened TreeWalk
  import opened TreeListing

  predicate DistinctPaths(ds: seq<Listed>) {
    forall i, j :: 0 <= i < j < |ds| ==> ds[i].path != ds[j].path
  }

  // ---------------------------------------------------------------------------
  // No directory is listed twice
  // ---------------------------------------------------------------------------

  /** All directories listed for an entry lie at or below it. */
  lemma {:induction false} ListedBelow(es: seq<TreeEntry>, path: ByteString)
    requires GitEntries(es) && forall e <- es :: e.Sub? ==> GitTree(e.tree)
    ensures forall x <- PreorderOf(es, path) :: Base(path) <= Base(x.path) && |x.path| > |path|
    decreases es
  {
    if |es| > 0 {
      GitRest(es);
      ListedBelow(es[1..], path);
      EntryBelow(es, path);
    }
  }

  lemma {:induction false} EntryBelow(es: seq<TreeEntry>, path: ByteString)
    requires GitEntries(es) && (forall e <- es :: e.Sub? ==> GitTree(e.tree)) && |es| > 0
    ensures IsListed(es[0]) ==>
              forall x <- Preorder(ListedEntry(es[0], path)) ::
                ChildPrefix(Base(path), es[0].name) <= Base(x.path) && Base(path) <= Base(x.path) && |x.path| > |path|
    decreases es, 0
  {
    var e := es[0];
    var inner := Join(path, e.name);
    BaseOfJoin(path, e.name);
    assert Base(path) <= Base(inner);
    if e.Sub? {
      ListedBelow(e.tree.entries, inner);
      forall x <- PreorderOf(e.tree.entries, inner) ensures Base(path) <= Base(x.path) {
        PrefixOfPrefix(Base(path), Base(inner), Base(x.path));
      }
    }
  }

  /** Different entries list different directories. */
  lemma {:induction false} SiblingsApart(es: seq<TreeEntry>, path: ByteString, name: ByteString, x: ByteString)
    requires GitEntries(es) && (forall e <- es :: e.Sub? ==> GitTree(e.tree)) && GitName(name)
    requires forall i :: 0 <= i < |es| ==> es[i].name != name
    requires ChildPrefix(Base(path), name) <= Base(x)
    ensures forall y <- PreorderOf(es, path) :: y.path != x
    decreases |es|
  {
    if |es| > 0 {
      GitRest(es);
      SiblingsApart(es[1..], path, name, x);
      if IsListed(es[0]) {
        EntryBelow(es, path);
        FirstListed(es, path);
        forall y <- Preorder(ListedEntry(es[0], path)) ensures y.path != x {
          if y.path == x {
            OneName(Base(path), es[0].name, name, Base(x));
            assert false;
          }
        }
      }
    }
  }

  lemma DistinctJoin(a: seq<Listed>, b: seq<Listed>)
    requires DistinctPaths(a) && DistinctPaths(b)
    requires forall i, j :: 0 <= i < |a| && 0 <= j < |b| ==> a[i].path != b[j].path
    ensures DistinctPaths(a + b)
  {
  }

  /** A directory is listed once. */
  lemma {:induction false} ListedOnce(es: seq<TreeEntry>, path: ByteString)
    requires GitEntries(es) && forall e <- es :: e.Sub? ==> GitTree(e.tree)
    ensures DistinctPaths(PreorderOf(es, path))
    decreases es
  {
    if |es| > 0 {
      var e, rest := es[0], es[1..];
      GitRest(es);
      ListedOnce(rest, path);
      FirstListed(es, path);
      if IsListed(e) {
        if e.Sub? {
          ListedOnce(e.tree.entries, Join(path, e.name));
          ListedBelow(e.tree.entries, Join(path, e.name));
        }
        var first, others := Preorder(ListedEntry(e, path)), PreorderOf(rest, path);
        HeadApart(ListedEntry(e, path));
        EntryBelow(es, path);
        forall i, j | 0 <= i < |first| && 0 <= j < |others| ensures first[i].path != others[j].path {
          assert first[i] in first && others[j] in others;
          SiblingsApart(rest, path, e.name, first[i].path);
        }
        DistinctJoin(first, others);
      }
    }
  }

  lemma HeadApart(d: Listed)
    requires d.node.Some? ==> DistinctPaths(PreorderOf(d.node.value.entries, d.path))
    requires d.node.Some? ==> forall x <- PreorderOf(d.node.value.entries, d.path) :: |x.path| > |d.path|
    ensures DistinctPaths(Preorder(d))
  {
    if d.node.Some? {
      var below := PreorderOf(d.node.value.entries, d.path);
      assert Preorder(d) == [d] + below;
      hide Preorder;
      hide PreorderOf;
      forall j | 0 <= j < |below| ensures d.path != below[j].path {
        assert below[j] in below;
      }
      DistinctJoin([d], below);
    }
  }

  lemma ListingDistinct(t: Tree, root: ByteString)
    requires GitTree(t) && Listing(t, root).Ok?
    ensures DistinctPaths(Listing(t, root).value)
  {
    var d := Listed(root, DirectoryTree(t, root).value);
    RootResolves(t, root);
    if d.node.Some? {
      ListedOnce(d.node.value.entries, root);
      ListedBelow(d.node.value.entries, root);
    }
    HeadApart(d);
  }

  // ---------------------------------------------------------------------------
  // Following tokens
  // ---------------------------------------------------------------------------

  lemma {:induction false} ResumeAt(ds: seq<Listed>, i: nat)
    requires DistinctPaths(ds) && i < |ds|
    ensures Resume(ds, Some(ds[i].path)) == i
  {
    if i > 0 {
      ResumeAt(ds[1..], i - 1);
    }
  }

  lemma {:induction false} ResumeNowhere(ds: seq<Listed>, after: ByteString)
    requires forall i :: 0 <= i < |ds| ==> ds[i].path != after
    ensures Resume(ds, Some(after)) == |ds|
  {
    if |ds| > 0 {
      ResumeNowhere(ds[1..], after);
    }
  }

  /** A token that names nothing in the listing gives an empty last page. */
  lemma UnknownToken(ds: seq<Listed>, after: ByteString, max: nat)
    requires forall i :: 0 <= i < |ds| ==> ds[i].path != after
    ensures PageFrom(ds, Some(after), max) == TreePage([], [], None)
  {
    ResumeNowhere(ds, after);
    assert ds[|ds|..] == [] && PathsOf([]) == [];
  }

  lemma {:induction false} AllChildrenAppend(a: seq<Listed>, b: seq<Listed>)
    ensures AllChildren(a + b) == AllChildren(a) + AllChildren(b)
  {
    hide Children;
    if |a| == 0 {
      assert a + b == b;
    } else {
      assert (a + b)[1..] == a[1..] + b;
      AllChildrenAppend(a[1..], b);
    }
  }

  lemma {:induction false} FillIs(ds: seq<Listed>, shown: nat, max: nat)
    ensures var m := Fill(ds, shown, max);
            && (m < |ds| ==> shown + |AllChildren(ds[..m])| >= max && shown + |AllChildren(ds[..m])| > 0)
            && (m > 0 && max > 0 ==> shown + |AllChildren(ds[..m - 1])| < max)
    decreases |ds|
  {
    hide Children;
    var m := Fill(ds, shown, max);
    if m > 0 {
      FillIs(ds[1..], shown + |Children(ds[0])|, max);
      assert ds[..m][1..] == ds[1..][..m - 1];
      if m > 1 {
        assert ds[..m - 1][1..] == ds[1..][..m - 2];
      }
    }
  }

  /** The token a client sends to get the page that starts at directory `i`. */
  function TokenFor(ds: seq<Listed>, i: nat): Option<ByteString>
    requires i < |ds|
  {
    if i == 0 then None else Some(ds[i].path)
  }

  lemma ResumesAt(ds: seq<Listed>, i: nat, max: nat)
    requires DistinctPaths(ds) && i < |ds| && max > 0
    ensures Resume(ds, TokenFor(ds, i)) == i && Fill(ds[i..], 0, max) > 0
  {
    if i > 0 { ResumeAt(ds, i); }
  }

  /**
   * A page that starts at a directory of the listing holds it whole, stops only once it shows enough,
   * and goes past the cap only by finishing its last directory.
   */
  lemma PageBounds(ds: seq<Listed>, i: nat, max: nat)
    requires DistinctPaths(ds) && i < |ds| && max > 0
    ensures var page := PageFrom(ds, TokenFor(ds, i), max);
            var m := |page.directories|;
            && 0 < m <= |ds| - i
            && page.directories == PathsOf(ds[i..i + m]) && page.entries == AllChildren(ds[i..i + m])
            && page.next == (if i + m < |ds| then Some(ds[i + m].path) else None)
            && (page.next.Some? ==> |page.entries| >= max)
            && |AllChildren(ds[i..i + m - 1])| < max
  {
    hide *;
    ResumesAt(ds, i, max);
    var rest := ds[i..];
    var m := Fill(rest, 0, max);
    FillIs(rest, 0, max);
    PageUnfolds(ds, TokenFor(ds, i), max);
    assert rest[..m] == ds[i..i + m] && rest[..m - 1] == ds[i..i + m - 1];
  }

  /** What a client has after following at most `rounds` tokens. */
  function Chain(ds: seq<Listed>, after: Option<ByteString>, max: nat, rounds: nat): TreePage
    decreases rounds
  {
    var page := PageFrom(ds, after, max);
    if page.next.None? || rounds == 0 then page
    else
      var rest := Chain(ds, page.next, max, rounds - 1);
      TreePage(page.entries + rest.entries, page.directories + rest.directories, rest.next)
  }

  lemma ChainStep(ds: seq<Listed>, after: Option<ByteString>, max: nat, rounds: nat)
    ensures var page := PageFrom(ds, after, max);
            Chain(ds, after, max, rounds) ==
            if page.next.None? || rounds == 0 then page
            else
              var rest := Chain(ds, page.next, max, rounds - 1);
              TreePage(page.entries + rest.entries, page.directories + rest.directories, rest.next)
  {
    hide PageFrom;
  }

  lemma {:induction false} ChainFrom(ds: seq<Listed>, i: nat, max: nat, rounds: nat)
    requires DistinctPaths(ds) && i < |ds| <= i + rounds && max > 0
    ensures Chain(ds, TokenFor(ds, i), max, rounds) ==
            TreePage(AllChildren(ds[i..]), PathsOf(ds[i..]), None)
    decreases rounds
  {
    hide *;
    var after := TokenFor(ds, i);
    PageBounds(ds, i, max);
    ChainStep(ds, after, max, rounds);
    var m := |PageFrom(ds, after, max).directories|;
    Suffix(ds, i, m);
    if i + m < |ds| {
      NextToken(ds, i + m);
      ChainFrom(ds, i + m, max, rounds - 1);
    }
  }

  lemma NextToken(ds: seq<Listed>, i: nat)
    requires 0 < i < |ds|
    ensures TokenFor(ds, i) == Some(ds[i].path)
  {
  }

  lemma Suffix(ds: seq<Listed>, i: nat, m: nat)
    requires i + m <= |ds|
    ensures AllChildren(ds[i..]) == AllChildren(ds[i..i + m]) + AllChildren(ds[i + m..])
    ensures PathsOf(ds[i..]) == PathsOf(ds[i..i + m]) + PathsOf(ds[i + m..])
    ensures i + m == |ds| ==> ds[i..i + m] == ds[i..]
  {
    hide AllChildren;
    assert ds[i..] == ds[i..i + m] + ds[i + m..];
    AllChildrenAppend(ds[i..i + m], ds[i + m..]);
    PathsAppend(ds[i..i + m], ds[i + m..]);
  }

  lemma PathsAppend(a: seq<Listed>, b: seq<Listed>)
    ensures PathsOf(a + b) == PathsOf(a) + PathsOf(b)
  {
  }

  /**
   * For every page limit, following tokens from the start ends and gives every directory of the
   * listing exactly once, in preorder, with all of its entries.
   */
  lemma ListingIsComplete(t: Tree, root: ByteString, maxEntries: nat)
    requires GitTree(t) && Listing(t, root).Ok?
    ensures var ds := Listing(t, root).value;
            && DistinctPaths(ds)
            && Chain(ds, None, Clamp(maxEntries), |ds|) == TreePage(AllChildren(ds), PathsOf(ds), None)
  {
    ListingDistinct(t, root);
    var ds := Listing(t, root).value;
    ChainFrom(ds, 0, Clamp(maxEntries), |ds|);
    assert ds[0..] == ds;
  }

  // ---------------------------------------------------------------------------
  // The listing shows the files of the commit
  // ---------------------------------------------------------------------------

  function NotDirectories(files: seq<File>): seq<File> {
    if |files| == 0 then []
    else (if files[0].mode == MODE_DIRECTORY then [] else [files[0]]) + NotDirectories(files[1..])
  }

  lemma {:induction false} NotDirectoriesAppend(a: seq<File>, b: seq<File>)
    ensures NotDirectories(a + b) == NotDirectories(a) + NotDirectories(b)
  {
    if |a| == 0 {
      assert a + b == b;
    } else {
      assert (a + b)[1..] == a[1..] + b;
      NotDirectoriesAppend(a[1..], b);
    }
  }

  /** The files shown while listing everything below some entries, and those entries' own rows. */
  lemma {:induction false} ShowsFiles(es: seq<TreeEntry>, path: ByteString)
    requires GitEntries(es) && forall e <- es :: e.Sub? ==> GitTree(e.tree)
    ensures multiset(NotDirectories(Infos(es, path))) + multiset(NotDirectories(AllChildren(PreorderOf(es, path))))
            == multiset(FilesOf(es, path))
    decreases es
  {
    if |es| > 0 {
      var e, rest := es[0], es[1..];
      GitRest(es);
      ShowsFiles(rest, path);
      if e.Sub? {
        ShowsFiles(e.tree.entries, Join(path, e.name));
        AtEntry(e, path);
      }
      ShowsEntry(e, path);
      RowsSplit(es, path);
      FilesSplit(es, path);
      hide *;
      assert multiset(FilesOf(es, path)) == multiset(FilesAt(e, path)) + multiset(FilesOf(rest, path));
    }
  }

  /** Rows and listed rows, with the first entry's apart. */
  lemma RowsSplit(es: seq<TreeEntry>, path: ByteString)
    requires |es| > 0
    ensures multiset(NotDirectories(Infos(es, path)))
            == multiset(NotDirectories([Info(es[0], path)])) + multiset(NotDirectories(Infos(es[1..], path)))
    ensures multiset(NotDirectories(AllChildren(PreorderOf(es, path))))
            == (if IsListed(es[0]) then multiset(NotDirectories(AllChildren(Preorder(ListedEntry(es[0], path))))) else multiset{})
               + multiset(NotDirectories(AllChildren(PreorderOf(es[1..], path))))
  {
    var e, rest := es[0], es[1..];
    assert Infos(es, path) == [Info(e, path)] + Infos(rest, path);
    NotDirectoriesAppend([Info(e, path)], Infos(rest, path));
    FirstListed(es, path);
    hide NotDirectories;
    hide AllChildren;
    hide Preorder;
    hide PreorderOf;
    if IsListed(e) {
      var below := Preorder(ListedEntry(e, path));
      AllChildrenAppend(below, PreorderOf(rest, path));
      NotDirectoriesAppend(AllChildren(below), AllChildren(PreorderOf(rest, path)));
    }
  }

  lemma FilesSplit(es: seq<TreeEntry>, path: ByteString)
    requires |es| > 0
    ensures FilesOf(es, path) == FilesAt(es[0], path) + FilesOf(es[1..], path)
  {
  }

  /** One entry: its own row and what is listed below it. */
  lemma ShowsEntry(e: TreeEntry, path: ByteString)
    requires e.Leaf? ==> e.leafMode != MODE_DIRECTORY
    requires e.Sub? ==>
      var inner := Join(path, e.name);
      multiset(NotDirectories(Infos(e.tree.entries, inner))) + multiset(NotDirectories(AllChildren(PreorderOf(e.tree.entries, inner))))
      == multiset(Files(e.tree, inner))
    ensures multiset(NotDirectories([Info(e, path)]))
            + (if IsListed(e) then multiset(NotDirectories(AllChildren(Preorder(ListedEntry(e, path))))) else multiset{})
            == multiset(FilesAt(e, path))
  {
    assert [Info(e, path)][1..] == [];
    AtEntry(e, path);
    if e.Sub? {
      var inner := Join(path, e.name);
      var d := ListedEntry(e, path);
      var below := PreorderOf(e.tree.entries, inner);
      assert Preorder(d) == [d] + below;
      assert (([d] + below)[1..]) == below;
      assert AllChildren(Preorder(d)) == Infos(e.tree.entries, inner) + AllChildren(below);
      NotDirectoriesAppend(Infos(e.tree.entries, inner), AllChildren(below));
    } else if IsListed(e) {
      var d := ListedEntry(e, path);
      assert Preorder(d) == [d];
      assert AllChildren([d]) == [] by { assert [d][1..] == []; }
    }
  }

  /** Leaving out directory rows, a complete listing from the root shows exactly the commit's files. */
  lemma ListingShowsFiles(t: Tree)
    requires GitTree(t)
    ensures multiset(NotDirectories(AllChildren(Preorder(Listed([], Some(t)))))) == multiset(Files(t, []))
  {
    var d := Listed([], Some(t));
    var below := PreorderOf(t.entries, []);
    assert Preorder(d) == [d] + below && ([d] + below)[1..] == below;
    ShowsFiles(t.entries, []);
    NotDirectoriesAppend(Infos(t.entries, []), AllChildren(below));
  }
}
