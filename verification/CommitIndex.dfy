/** The index of a commit: the descent of its tree, handed to the index writer. */
module CommitIndex {
  import opened Wrappers
  import opened Bytes
  import opened GitTypes
  import opened IndexFormat
  import opened CacheTrees
  import opened StagedTrees
  import opened IndexWriter
  import opened IndexLayouts
  import opened Trees
  import opened TreeWalk
  import opened BlobStore

  // ---------------------------------------------------------------------------
  // The sizes recorded
  // ---------------------------------------------------------------------------

  /** A gitlink names a commit of another repository: its size is 0 and nothing is looked up. */
  predicate Sized(store: Store, f: File) {
    f.mode == MODE_GITLINK || store.sizeOf(f.oid).Some?
  }

  function BlobSize(store: Store, f: File): nat {
    if f.mode == MODE_GITLINK || store.sizeOf(f.oid).None? then 0 else store.sizeOf(f.oid).value
  }

  /** An expanded file is recorded with the size it expands to, and its own ID. */
  function FinalSize(store: Store, f: File, size: nat): Result<nat> {
    match Expanded(store, f, size)
    case Err(e) => Err(e)
    case Ok(pointer) => Ok(pointer.size)
  }

  function FinalSizes(store: Store, files: seq<File>): (r: Result<seq<nat>>)
    ensures r.Ok? ==> |r.value| == |files|
  {
    if |files| == 0 then Ok([])
    else
      match FinalSize(store, files[0], BlobSize(store, files[0]))
      case Err(e) => Err(e)
      case Ok(size) =>
        match FinalSizes(store, files[1..])
        case Err(e) => Err(e)
        case Ok(sizes) => Ok([size] + sizes)
  }

  /** Sizes are all looked up before the first pointer is. */
  function RecordedSizes(store: Store, files: seq<File>): (r: Result<seq<nat>>)
    ensures r.Ok? ==> |r.value| == |files|
  {
    if forall f <- files :: Sized(store, f) then FinalSizes(store, files) else Err(NoSuchBlob)
  }

  /** A pointer lookup is made for a file: expansion is on, and its blob is small, not empty and no link. */
  predicate Asked(store: Store, f: File) {
    && store.pointerOf.Some? && (f.mode == MODE_REGULAR || f.mode == MODE_EXECUTABLE)
    && store.sizeOf(f.oid).Some? && 1 <= store.sizeOf(f.oid).value <= 1024
  }

  /** The size an index records: none for a gitlink, what a pointer expands to, and otherwise the blob's own. */
  predicate RecordedAs(store: Store, f: File, size: nat) {
    if f.mode == MODE_GITLINK then size == 0
    else if Asked(store, f) && store.pointerOf.value(f).Ok? && store.pointerOf.value(f).value.Some? then
      size == store.pointerOf.value(f).value.value.size
    else store.sizeOf(f.oid) == Some(size)
  }

  lemma FinalSizeIs(store: Store, f: File)
    requires f.mode == MODE_GITLINK || store.sizeOf(f.oid).Some?
    ensures var r := FinalSize(store, f, BlobSize(store, f));
            && (r.Err? <==> Asked(store, f) && store.pointerOf.value(f).Err?)
            && (r.Err? ==> r.error == store.pointerOf.value(f).error)
            && (r.Ok? ==> RecordedAs(store, f, r.value))
  {
  }

  lemma {:induction false} FinalExactly(store: Store, files: seq<File>)
    requires forall f <- files :: Sized(store, f)
    ensures FinalSizes(store, files).Ok? <==> forall f <- files :: Asked(store, f) ==> store.pointerOf.value(f).Ok?
    ensures FinalSizes(store, files).Ok? ==>
            forall i :: 0 <= i < |files| ==> RecordedAs(store, files[i], FinalSizes(store, files).value[i])
  {
    if |files| > 0 {
      assert files == [files[0]] + files[1..] && Sized(store, files[0]);
      FinalSizeIs(store, files[0]);
      hide Asked;
      hide RecordedAs;
      hide FinalSize;
      hide BlobSize;
      hide Sized;
      FinalExactly(store, files[1..]);
    }
  }

  /** Sizes are recorded exactly when every blob is there and no pointer lookup made fails, each file's as it should be. */
  lemma RecordedExactly(store: Store, files: seq<File>)
    ensures RecordedSizes(store, files).Ok? <==>
            forall f <- files ::
              && (f.mode == MODE_GITLINK || store.sizeOf(f.oid).Some?)
              && (Asked(store, f) ==> store.pointerOf.value(f).Ok?)
    ensures RecordedSizes(store, files).Ok? ==>
            forall i :: 0 <= i < |files| ==> RecordedAs(store, files[i], RecordedSizes(store, files).value[i])
  {
    hide Asked;
    hide RecordedAs;
    hide FinalSizes;
    if forall f <- files :: Sized(store, f) {
      FinalExactly(store, files);
    }
  }

  lemma {:induction false} FirstFailure(store: Store, files: seq<File>, i: nat)
    requires (forall f <- files :: Sized(store, f)) && i < |files|
    requires Asked(store, files[i]) && store.pointerOf.value(files[i]).Err?
    requires forall k :: 0 <= k < i && Asked(store, files[k]) ==> store.pointerOf.value(files[k]).Ok?
    ensures FinalSizes(store, files) == Err(store.pointerOf.value(files[i]).error)
    decreases |files|
  {
    assert Sized(store, files[0]);
    FinalSizeIs(store, files[0]);
    hide RecordedAs;
    hide FinalSize;
    hide BlobSize;
    hide Sized;
    if i > 0 {
      assert forall k :: 0 <= k < i - 1 ==> files[1..][k] == files[k + 1];
      FirstFailure(store, files[1..], i - 1);
    }
  }

  /** A missing blob is reported before any lookup's failure; without one, the first lookup that fails is. */
  lemma FailureRecorded(store: Store, files: seq<File>, i: nat)
    requires i < |files|
    ensures files[i].mode != MODE_GITLINK && store.sizeOf(files[i].oid).None? ==> RecordedSizes(store, files) == Err(NoSuchBlob)
    ensures (forall f <- files :: f.mode == MODE_GITLINK || store.sizeOf(f.oid).Some?)
            && Asked(store, files[i]) && store.pointerOf.value(files[i]).Err?
            && (forall k :: 0 <= k < i && Asked(store, files[k]) ==> store.pointerOf.value(files[k]).Ok?) ==>
            RecordedSizes(store, files) == Err(store.pointerOf.value(files[i]).error)
  {
    hide FinalSizes;
    assert files[i] in files;
    if forall f <- files :: Sized(store, f) {
      if Asked(store, files[i]) && store.pointerOf.value(files[i]).Err?
         && (forall k :: 0 <= k < i && Asked(store, files[k]) ==> store.pointerOf.value(files[k]).Ok?) {
        FirstFailure(store, files, i);
      }
    }
    assert files[i].mode != MODE_GITLINK && store.sizeOf(files[i].oid).None? ==> !Sized(store, files[i]);
  }

  /** The blobs among the files, in order. */
  function BlobIds(files: seq<File>): (r: seq<ObjectId>)
    ensures |r| <= |files|
  {
    if |files| == 0 then []
    else
      var n := |files| - 1;
      BlobIds(files[..n]) + if files[n].mode == MODE_GITLINK then [] else [files[n].oid]
  }

  lemma NoBlobs(files: seq<File>)
    ensures BlobIds(files[..0]) == [] && files[..|files|] == files
  {
  }

  lemma BlobIdsSnoc(files: seq<File>, i: nat)
    requires i < |files|
    ensures BlobIds(files[..i + 1]) == BlobIds(files[..i]) + if files[i].mode == MODE_GITLINK then [] else [files[i].oid]
  {
    assert files[..i + 1][..i] == files[..i];
  }

  lemma {:induction false} BlobIdsPrefix(files: seq<File>, i: nat)
    requires i <= |files|
    ensures BlobIds(files[..i]) <= BlobIds(files)
    decreases |files| - i
  {
    if i == |files| {
      assert files[..i] == files;
    } else {
      BlobIdsSnoc(files, i);
      BlobIdsPrefix(files, i + 1);
    }
  }

  /** The blob of the next file that has one is the next of the blobs. */
  lemma NextBlob(files: seq<File>, i: nat)
    requires i < |files| && files[i].mode != MODE_GITLINK
    ensures var next := |BlobIds(files[..i])|; next < |BlobIds(files)| && BlobIds(files)[next] == files[i].oid
  {
    BlobIdsSnoc(files, i);
    BlobIdsPrefix(files, i + 1);
  }

  lemma {:induction false} BlobIdsSized(store: Store, files: seq<File>)
    ensures (forall id <- BlobIds(files) :: store.sizeOf(id).Some?) <==> forall f <- files :: Sized(store, f)
  {
    if |files| > 0 {
      var n := |files| - 1;
      BlobIdsSized(store, files[..n]);
      var last := if files[n].mode == MODE_GITLINK then [] else [files[n].oid];
      assert files == files[..n] + [files[n]] && BlobIds(files) == BlobIds(files[..n]) + last;
      assert (forall id <- last :: store.sizeOf(id).Some?) <==> Sized(store, files[n]);
    }
  }

  /** Blob sizes, looked up by up to `threads` workers with a slice of the blobs each, and joined again. */
  method BlobSizes(store: Store, ids: seq<ObjectId>, threads: nat) returns (r: Result<seq<nat>>)
    requires threads > 0
    ensures r.Ok? <==> forall id <- ids :: store.sizeOf(id).Some?
    ensures r.Ok? ==> |r.value| == |ids| && forall i :: 0 <= i < |ids| ==> store.sizeOf(ids[i]) == Some(r.value[i])
    ensures r.Err? ==> r.error == NoSuchBlob
  {
    var sizes: seq<nat> := [];
    if |ids| == 0 {
      return Ok(sizes);
    }
    var chunk := (|ids| + threads - 1) / threads;
    while |sizes| < |ids|
      invariant chunk > 0 && |sizes| <= |ids|
      invariant forall i :: 0 <= i < |sizes| ==> store.sizeOf(ids[i]) == Some(sizes[i])
    {
      var end := if |ids| - |sizes| < chunk then |ids| else |sizes| + chunk;
      for i := |sizes| to end
        invariant |sizes| == i
        invariant forall k :: 0 <= k < |sizes| ==> store.sizeOf(ids[k]) == Some(sizes[k])
      {
        var size := store.sizeOf(ids[i]);
        if size.None? {
          return Err(NoSuchBlob);
        }
        sizes := sizes + [size.value];
      }
    }
    r := Ok(sizes);
  }

  /** The sizes in entry order: 0 for a gitlink, the next answer for a blob. */
  method EntrySizes(store: Store, files: seq<File>, threads: nat) returns (r: Result<seq<nat>>)
    requires threads > 0
    ensures r.Ok? <==> forall f <- files :: Sized(store, f)
    ensures r.Ok? ==> |r.value| == |files| && forall i :: 0 <= i < |files| ==> r.value[i] == BlobSize(store, files[i])
    ensures r.Err? ==> r.error == NoSuchBlob
  {
    hide BlobIds;
    NoBlobs(files);
    var blobs: seq<ObjectId> := [];
    for i := 0 to |files|
      invariant blobs == BlobIds(files[..i])
    {
      BlobIdsSnoc(files, i);
      if files[i].mode != MODE_GITLINK {
        blobs := blobs + [files[i].oid];
      }
    }
    BlobIdsSized(store, files);
    var answered := BlobSizes(store, blobs, threads);
    if answered.Err? {
      return answered;
    }
    var sizes: seq<nat> := [];
    var next := 0;
    for i := 0 to |files|
      invariant |sizes| == i && next == |BlobIds(files[..i])|
      invariant forall k :: 0 <= k < i ==> sizes[k] == BlobSize(store, files[k])
    {
      BlobIdsSnoc(files, i);
      if files[i].mode == MODE_GITLINK {
        sizes := sizes + [0];
      } else {
        NextBlob(files, i);
        sizes := sizes + [answered.value[next]];
        next := next + 1;
      }
    }
    r := Ok(sizes);
  }

  // ---------------------------------------------------------------------------
  // The index
  // ---------------------------------------------------------------------------

  /** The entries handed to the writer. */
  function EntriesOf(files: seq<File>, sizes: seq<nat>): (r: seq<IndexEntry>)
    requires |sizes| == |files|
    ensures |r| == |files|
  {
    seq(|files|, i requires 0 <= i < |files| => IndexEntry(files[i].path, files[i].mode, files[i].oid, sizes[i]))
  }

  lemma SamePaths(files: seq<File>, sizes: seq<nat>)
    requires |sizes| == |files|
    ensures Paths(EntriesOf(files, sizes)) == FilePaths(files)
  {
  }

  /** Every file with its final size, or the first pointer lookup that fails. */
  method FinalEntries(store: Store, files: seq<File>, sizes: seq<nat>) returns (r: Result<seq<IndexEntry>>)
    requires |sizes| == |files| && forall i :: 0 <= i < |files| ==> sizes[i] == BlobSize(store, files[i])
    ensures var final := FinalSizes(store, files);
            && (final.Err? ==> r == Err(final.error))
            && (final.Ok? ==> r == Ok(EntriesOf(files, final.value)))
  {
    var entries: seq<IndexEntry> := [];
    ghost var done: seq<nat> := [];
    NoneFinal(store, files);
    for i := 0 to |files|
      invariant |done| == i && entries == EntriesOf(files[..i], done)
      invariant FinalSizes(store, files) == Prepended(done, FinalSizes(store, files[i..]))
    {
      var f := files[i];
      NextFinal(store, files, i, done);
      var size := FinalSize(store, f, sizes[i]);
      if size.Err? {
        return Err(size.error);
      }
      entries := entries + [IndexEntry(f.path, f.mode, f.oid, size.value)];
      done := done + [size.value];
    }
    AllFinal(store, files, done);
    r := Ok(entries);
  }

  function Prepended(done: seq<nat>, rest: Result<seq<nat>>): Result<seq<nat>> {
    match rest
    case Err(e) => Err(e)
    case Ok(sizes) => Ok(done + sizes)
  }

  lemma NoneFinal(store: Store, files: seq<File>)
    ensures files[0..] == files && FinalSizes(store, files) == Prepended([], FinalSizes(store, files))
  {
    hide FinalSizes;
    if FinalSizes(store, files).Ok? {
      assert [] + FinalSizes(store, files).value == FinalSizes(store, files).value;
    }
  }

  lemma NextFinal(store: Store, files: seq<File>, i: nat, done: seq<nat>)
    requires i < |files|
    ensures var size, rest := FinalSize(store, files[i], BlobSize(store, files[i])), FinalSizes(store, files[i + 1..]);
            Prepended(done, FinalSizes(store, files[i..])) ==
            if size.Err? then Err(size.error) else Prepended(done + [size.value], rest)
    ensures files[..i + 1] == files[..i] + [files[i]]
  {
    hide FinalSize;
    hide BlobSize;
    assert files[i..][1..] == files[i + 1..];
    var size, rest := FinalSize(store, files[i], BlobSize(store, files[i])), FinalSizes(store, files[i + 1..]);
    if size.Ok? && rest.Ok? {
      Assoc(done, [size.value], rest.value);
    }
  }

  lemma AllFinal(store: Store, files: seq<File>, done: seq<nat>)
    ensures files[..|files|] == files && Prepended(done, FinalSizes(store, files[|files|..])) == Ok(done)
  {
    assert done + [] == done;
  }

  method IndexForCommit(t: Tree, store: Store, threads: nat, time: Timestamp, sha1: ByteString -> Digest) returns (r: Result<ByteString>)
    requires threads > 0
    ensures CountOf(t.entries) > 0xFFFF_FFFF ==> r == Err(TooManyEntries)
    ensures CountOf(t.entries) <= 0xFFFF_FFFF ==>
              var sizes := RecordedSizes(store, Files(t, []));
              && (sizes.Err? ==> r == Err(sizes.error))
              && (sizes.Ok? ==> r == IndexFile(EntriesOf(Files(t, []), sizes.value), time, Some(CacheTreeOf(t, [])), sha1))
  {
    hide *;
    var deferred := new Vector<File>();
    var cacheTree := Descend(t, [], [], deferred);
    if cacheTree.Err? {
      return Err(cacheTree.error);
    }
    assert deferred.items == Files(t, []) by {
      assert [] + Files(t, []) == Files(t, []);
    }
    RecordedBySteps(store, deferred.items);
    var sizes := EntrySizes(store, deferred.items, threads);
    if sizes.Err? {
      return Err(sizes.error);
    }
    var entries := FinalEntries(store, deferred.items, sizes.value);
    if entries.Err? {
      return Err(entries.error);
    }
    r := WriteIndexV2(entries.value, time, Some(cacheTree.value), sha1);
  }

  lemma RecordedBySteps(store: Store, files: seq<File>)
    ensures RecordedSizes(store, files) == if forall f <- files :: Sized(store, f) then FinalSizes(store, files) else Err(NoSuchBlob)
  {
    hide Sized;
    hide FinalSizes;
  }

  // ---------------------------------------------------------------------------
  // The writer's refusals never happen
  // ---------------------------------------------------------------------------

  lemma {:induction false} Sha1ByDirectories(node: CacheTree, prefix: ByteString)
    ensures AllSha1(node) <==> forall d <- Directories(node, prefix) :: d.oid.algorithm == Sha1
    decreases node, 1
  {
    Sha1ByDirectoriesBelow(node.children, prefix);
    var own := Directory(prefix, node.oid, node.entries);
    assert own in Directories(node, prefix);
  }

  lemma {:induction false} Sha1ByDirectoriesBelow(nodes: seq<CacheTree>, prefix: ByteString)
    ensures (forall c <- nodes :: AllSha1(c)) <==> forall d <- DirectoriesBelow(nodes, prefix) :: d.oid.algorithm == Sha1
    decreases nodes, 0
  {
    if |nodes| > 0 {
      Sha1ByDirectories(nodes[0], ChildPrefix(prefix, nodes[0].name));
      Sha1ByDirectoriesBelow(nodes[1..], prefix);
      assert nodes == [nodes[0]] + nodes[1..];
    }
  }

  lemma Sha1Sorted(node: CacheTree)
    ensures AllSha1(SortedTree(node)) <==> AllSha1(node)
  {
    SortedTreeSaysTheSame(node, []);
    Sha1ByDirectories(node, []);
    Sha1ByDirectories(SortedTree(node), []);
  }

  /**
   * For every tree Git can hold the descent gives the writer strictly sorted paths, exact counts and
   * no directory twice: what is written is refused only for a hash other than SHA-1 or a cache tree too large to frame.
   */
  lemma DescentIsAccepted(t: Tree, sizes: seq<nat>, time: Timestamp, sha1: ByteString -> Digest)
    requires GitTree(t) && CountOf(t.entries) <= 0xFFFF_FFFF && |sizes| == |Files(t, [])|
    ensures var entries, root := EntriesOf(Files(t, []), sizes), CacheTreeOf(t, []);
            && StrictlySorted(Paths(entries)) && DistinctNames(root) && Accurate(root, [], Paths(entries))
            && (IndexFile(entries, time, Some(root), sha1).Ok? <==>
                AllSha1Entries(entries) && AllSha1(root) && |Body(SortedTree(root))| <= 0xFFFF_FFFF)
  {
    var files := Files(t, []);
    var root := CacheTreeOf(t, []);
    DescentIsSorted(t.entries, []);
    NodesDistinct(t.entries);
    NodeAccurate(t, [], [], [], []);
    assert [] + FilePaths(files) + [] == FilePaths(files);
    CountIsLength(t.entries, []);
    SamePaths(files, sizes);
    Sha1Sorted(root);
    WriterAccepts(EntriesOf(files, sizes), time, Some(root), sha1);
  }

  lemma {:induction false} PathsAreNulFree(es: seq<TreeEntry>, path: ByteString)
    requires GitEntries(es) && (forall e <- es :: e.Sub? ==> GitTree(e.tree)) && NUL !in path
    ensures forall f <- FilesOf(es, path) :: NUL !in f.path
    decreases es
  {
    if |es| > 0 {
      var e := es[0];
      GitRest(es);
      assert NUL !in Join(path, e.name);
      AtEntry(e, path);
      PathsAreNulFree(es[1..], path);
      if e.Sub? {
        PathsAreNulFree(e.tree.entries, Join(path, e.name));
      }
    }
  }

  /**
   * What is written for a commit reads back as exactly its files, in order, at stage 0,
   * and stages exactly the commit's tree.
   */
  lemma CommitRoundTrip(t: Tree, sizes: seq<nat>, time: Timestamp, sha1: ByteString -> Digest, file: ByteString)
    requires GitTree(t) && CountOf(t.entries) <= U32_MAX && |sizes| == |Files(t, [])|
    requires IndexFile(EntriesOf(Files(t, []), sizes), time, Some(CacheTreeOf(t, [])), sha1) == Ok(file)
    ensures var entries := EntriesOf(Files(t, []), sizes);
            && AllSha1Entries(entries)
            && Open(file) == Ok(CursorState(2, |entries|, 12, []))
            && ReadAll(file, CursorState(2, |entries|, 12, [])).list == Expected(entries)
    ensures var files, list := Files(t, []), ReadAll(file, CursorState(2, |Files(t, [])|, 12, [])).list;
            && |list| == |files|
            && forall i :: 0 <= i < |files| ==>
                 && files[i].oid.algorithm == Sha1
                 && list[i] == Item(files[i].path, Staged(0, files[i].mode, files[i].oid.raw, false))
    ensures StagedTree(file) == Ok(Some(t.oid.raw))
  {
    hide *;
    var files := Files(t, []);
    var entries, root := EntriesOf(files, sizes), CacheTreeOf(t, []);
    FilesAreReadable(t, sizes);
    WrittenFor(file, entries, time, root, sha1);
    FileRoundTrip(file, entries, time, Some(root), sha1);
    ExpectedFiles(files, sizes);
    StagesItsRoot(file, entries, time, Some(root), sha1);
  }

  lemma FilesAreReadable(t: Tree, sizes: seq<nat>)
    requires GitTree(t) && |sizes| == |Files(t, [])|
    ensures forall e <- EntriesOf(Files(t, []), sizes) :: Readable(e.path)
  {
    var files := Files(t, []);
    var entries := EntriesOf(files, sizes);
    PathsAreNulFree(t.entries, []);
    forall e <- entries ensures Readable(e.path) {
      var i :| 0 <= i < |entries| && entries[i] == e;
      assert files[i] in files;
    }
  }

  lemma ExpectedFiles(files: seq<File>, sizes: seq<nat>)
    requires |sizes| == |files| && AllSha1Entries(EntriesOf(files, sizes))
    ensures |Expected(EntriesOf(files, sizes))| == |files|
    ensures forall i :: 0 <= i < |files| ==>
              && files[i].oid.algorithm == Sha1
              && Expected(EntriesOf(files, sizes))[i] == Item(files[i].path, Staged(0, files[i].mode, files[i].oid.raw, false))
  {
    forall i | 0 <= i < |files| ensures files[i].oid.algorithm == Sha1 {
      assert EntriesOf(files, sizes)[i].oid.algorithm == Sha1;
    }
  }

  lemma WrittenFor(file: ByteString, entries: seq<IndexEntry>, time: Timestamp, root: CacheTree, sha1: ByteString -> Digest)
    requires IndexFile(entries, time, Some(root), sha1) == Ok(file)
    ensures Written(file, entries, time, Some(root), sha1)
  {
    hide IndexFile;
  }

  /** At `p` a file records a path, a mode and a size in 32 bits. */
  ghost predicate Records(file: ByteString, p: nat, path: ByteString, mode: U32, size: nat) {
    && p + 62 + |path| <= |file| && FromBE32(file[p + 24..p + 28]) == mode && file[p + 62..p + 62 + |path|] == path
    && (size - FromBE32(file[p + 36..p + 40])) % 0x1_0000_0000 == 0
  }

  /**
   * The size field of each entry of a commit's index, read back from its bytes: that of a gitlink is zero, that of an
   * expanded file is the size it expands to, and any other is its blob's, all in 32 bits.
   */
  lemma CommitSizes(t: Tree, store: Store, time: Timestamp, sha1: ByteString -> Digest, file: ByteString, i: nat)
    requires CountOf(t.entries) <= U32_MAX && RecordedSizes(store, Files(t, [])).Ok?
    requires IndexFile(EntriesOf(Files(t, []), RecordedSizes(store, Files(t, [])).value), time, Some(CacheTreeOf(t, [])), sha1) == Ok(file)
    requires i < |Files(t, [])|
    ensures var files, entries := Files(t, []), EntriesOf(Files(t, []), RecordedSizes(store, Files(t, [])).value);
            exists size: nat ::
              RecordedAs(store, files[i], size) && Records(file, 12 + Offset(entries, i), files[i].path, files[i].mode, size)
  {
    hide *;
    var files := Files(t, []);
    var sizes := RecordedSizes(store, files).value;
    var entries := EntriesOf(files, sizes);
    RecordedExactly(store, files);
    EntryIs(files, sizes, i);
    WrittenFor(file, entries, time, CacheTreeOf(t, []), sha1);
    EntryRecorded(file, entries, time, CacheTreeOf(t, []), sha1, i);
    assert RecordedAs(store, files[i], sizes[i]);
  }

  lemma EntryRecorded(file: ByteString, entries: seq<IndexEntry>, time: Timestamp, root: CacheTree, sha1: ByteString -> Digest, i: nat)
    requires Written(file, entries, time, Some(root), sha1) && i < |entries|
    ensures Records(file, 12 + Offset(entries, i), entries[i].path, entries[i].mode, entries[i].size)
  {
    hide *;
    FileIsLaid(file, entries, time, Some(root), sha1);
    LaidFields(file, 12 + Offset(entries, i), entries[i], time);
  }

  lemma EntryIs(files: seq<File>, sizes: seq<nat>, i: nat)
    requires |sizes| == |files| && i < |files|
    ensures EntriesOf(files, sizes)[i] == IndexEntry(files[i].path, files[i].mode, files[i].oid, sizes[i])
  {
  }

  lemma LaidFields(file: ByteString, p: nat, e: IndexEntry, time: Timestamp)
    requires Laid(file, p, e, time)
    ensures Records(file, p, e.path, e.mode, e.size)
  {
    hide FromBE32;
    hide FromBE16;
    hide Zeroed;
  }
}
