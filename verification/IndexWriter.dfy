/** Serializing entries and a cache tree into a version 2 index file. */
module IndexWriter {
  import opened Wrappers
  import opened Bytes
  import opened GitTypes
  import opened IndexFormat
  import opened CacheTrees
  import opened StagedTrees

  datatype IndexEntry = IndexEntry(path: ByteString, mode: U32, oid: ObjectId, size: nat)

  datatype Timestamp = Timestamp(secs: int, nanos: U32)

  function Paths(entries: seq<IndexEntry>): (r: seq<ByteString>)
    ensures |r| == |entries| && forall i :: 0 <= i < |r| ==> r[i] == entries[i].path
  {
    seq(|entries|, i requires 0 <= i < |entries| => entries[i].path)
  }

  // ---------------------------------------------------------------------------
  // Refusals
  // ---------------------------------------------------------------------------

  /** The first entry from `i` on that the writer refuses, by what it refuses it for. */
  function EntriesError(entries: seq<IndexEntry>, i: nat): Option<Error>
    requires i <= |entries|
    decreases |entries| - i
  {
    if i == |entries| then None
    else if i > 0 && !Less(entries[i - 1].path, entries[i].path) then Some(OutOfOrder)
    else if entries[i].oid.algorithm != Sha1 then Some(UnsupportedHash)
    else EntriesError(entries, i + 1)
  }

  predicate AllSha1Entries(entries: seq<IndexEntry>) {
    forall i :: 0 <= i < |entries| ==> entries[i].oid.algorithm == Sha1
  }

  lemma {:induction false} NoErrorFrom(entries: seq<IndexEntry>, i: nat)
    requires i <= |entries|
    ensures EntriesError(entries, i) == None <==>
            forall k :: i <= k < |entries| ==>
              entries[k].oid.algorithm == Sha1 && (k > 0 ==> Less(entries[k - 1].path, entries[k].path))
    decreases |entries| - i
  {
    if i < |entries| {
      NoErrorFrom(entries, i + 1);
    }
  }

  /** Checking neighbours accepts exactly the strictly sorted SHA-1 lists. */
  lemma EntriesAccepted(entries: seq<IndexEntry>)
    ensures EntriesError(entries, 0) == None <==> StrictlySorted(Paths(entries)) && AllSha1Entries(entries)
  {
    NoErrorFrom(entries, 0);
    var paths := Paths(entries);
    if EntriesError(entries, 0) == None {
      forall k | 0 <= k < |paths| - 1 ensures Less(paths[k], paths[k + 1]) {
        assert Less(entries[k + 1 - 1].path, entries[k + 1].path);
      }
      forall i, j | 0 <= i < j < |paths| ensures Less(paths[i], paths[j]) {
        SortedFromAdjacent(paths, i, j);
      }
    }
    if StrictlySorted(paths) {
      forall k | 0 < k < |entries| ensures Less(entries[k - 1].path, entries[k].path) {
        assert Less(paths[k - 1], paths[k]);
      }
    }
  }

  /** The extension region for an optional cache tree. */
  function TreeExtensions(root: Option<CacheTree>, paths: seq<ByteString>): (r: Result<seq<Extension>>)
    ensures r.Ok? ==> forall x <- r.value :: ValidExtension(x)
  {
    match root
    case None => Ok([])
    case Some(root) =>
      var sorted := SortedTree(root);
      if !DistinctNames(root) then Err(DuplicateDirectory)
      else if !Accurate(sorted, [], paths) then Err(WrongCount)
      else if !AllSha1(sorted) then Err(UnsupportedHash)
      else if |Body(sorted)| > U32_MAX then Err(TooLarge)
      else Ok([Extension(TreeSignature(), Body(sorted))])
  }

  // ---------------------------------------------------------------------------
  // The file
  // ---------------------------------------------------------------------------

  function StatTimes(time: Timestamp): (r: ByteString)
    ensures |r| == 24
  {
    var times := BE32(Low32(time.secs)) + BE32(time.nanos);
    times + times + Zeros(8)
  }

  function StatSize(size: nat): (r: ByteString)
    ensures |r| == 12
  {
    Zeros(8) + BE32(Low32(size))
  }

  /** The entry as the format records it: stage 0, no flags. */
  function RawOf(e: IndexEntry, time: Timestamp): (r: RawEntry)
    requires e.oid.algorithm == Sha1
    ensures WellFormed(r)
  {
    RawEntry(StatTimes(time), StatSize(e.size), false, None, Item(e.path, Staged(0, e.mode, e.oid.raw, false)))
  }

  function RawList(entries: seq<IndexEntry>, time: Timestamp): (r: seq<RawEntry>)
    requires AllSha1Entries(entries)
    ensures |r| == |entries| && forall i :: 0 <= i < |r| ==> r[i] == RawOf(entries[i], time)
    ensures AllWellFormed(r)
  {
    seq(|entries|, i requires 0 <= i < |entries| => RawOf(entries[i], time))
  }

  function Content(entries: seq<IndexEntry>, time: Timestamp, extensions: seq<Extension>): ByteString
    requires |entries| <= U32_MAX && AllSha1Entries(entries)
    requires forall x <- extensions :: ValidExtension(x)
  {
    Header(2, |entries|) + PaddedList(RawList(entries, time)) + ExtensionsBytes(extensions)
  }

  function Sealed(content: ByteString, sha1: ByteString -> Digest): ByteString {
    content + sha1(content)
  }

  function IndexFile(entries: seq<IndexEntry>, time: Timestamp, root: Option<CacheTree>, sha1: ByteString -> Digest): Result<ByteString>
  {
    if |entries| > U32_MAX then Err(TooManyEntries)
    else if EntriesError(entries, 0).Some? then Err(EntriesError(entries, 0).value)
    else
      EntriesAccepted(entries);
      match TreeExtensions(root, Paths(entries))
      case Err(e) => Err(e)
      case Ok(extensions) => Ok(Sealed(Content(entries, time, extensions), sha1))
  }

  lemma {:induction false} PaddedAppend(es: seq<RawEntry>, e: RawEntry)
    requires AllWellFormed(es) && WellFormed(e)
    ensures AllWellFormed(es + [e])
    ensures PaddedList(es + [e]) == PaddedList(es) + EncodePadded(e)
  {
    hide EncodePadded;
    if |es| == 0 {
      assert es + [e] == [e] && [e][1..] == [];
    } else {
      assert (es + [e])[1..] == es[1..] + [e];
      PaddedAppend(es[1..], e);
    }
  }

  lemma EncodedFields(e: IndexEntry, time: Timestamp)
    requires e.oid.algorithm == Sha1
    ensures var secs := BE32(Low32(time.secs));
            var body := secs + BE32(time.nanos) + secs + BE32(time.nanos) + BE32(0) + BE32(0) + BE32(e.mode)
                        + BE32(0) + BE32(0) + BE32(Low32(e.size)) + e.oid.raw + BE16(NameLength(e.path)) + e.path;
            EncodePadded(RawOf(e, time)) == body + Zeros(PaddedLength(|body|) - |body|)
  {
    assert BE32(0) + BE32(0) == Zeros(8);
    hide BE32;
    hide Low32;
    var secs, nanos := BE32(Low32(time.secs)), BE32(time.nanos);
    var raw := RawOf(e, time);
    assert Flags(raw) == NameLength(e.path);
    hide BE16;
    assert Fixed(raw) + ExtendedFlags(raw) + e.path
        == secs + nanos + secs + nanos + BE32(0) + BE32(0) + BE32(e.mode)
           + BE32(0) + BE32(0) + BE32(Low32(e.size)) + e.oid.raw + BE16(NameLength(e.path)) + e.path;
  }

  /** The fixed fields up to the object ID. */
  method WriteStat(out: ByteString, entry: IndexEntry, time: Timestamp) returns (r: ByteString)
    ensures var secs := BE32(Low32(time.secs));
            r == out + (secs + BE32(time.nanos) + secs + BE32(time.nanos) + BE32(0) + BE32(0) + BE32(entry.mode)
                        + BE32(0) + BE32(0) + BE32(Low32(entry.size)))
  {
    hide *;
    var secs := Low32(time.secs);
    var s, n, z := BE32(secs), BE32(time.nanos), BE32(0);
    r := out + s;
    Assoc(out, s, n);
    r := r + n;
    Assoc(out, s + n, s);
    r := r + s;
    Assoc(out, s + n + s, n);
    r := r + n;
    Assoc(out, s + n + s + n, z);
    r := r + z;
    Assoc(out, s + n + s + n + z, z);
    r := r + z;
    var mode := BE32(entry.mode);
    Assoc(out, s + n + s + n + z + z, mode);
    r := r + mode;
    Assoc(out, s + n + s + n + z + z + mode, z);
    r := r + z;
    Assoc(out, s + n + s + n + z + z + mode + z, z);
    r := r + z;
    Assoc(out, s + n + s + n + z + z + mode + z + z, BE32(Low32(entry.size)));
    r := r + BE32(Low32(entry.size));
  }

  /** One entry, field by field. */
  method WriteEntry(out: ByteString, entry: IndexEntry, time: Timestamp) returns (r: ByteString)
    requires entry.oid.algorithm == Sha1
    ensures r == out + EncodePadded(RawOf(entry, time))
  {
    EncodedFields(entry, time);
    hide *;
    ghost var secs := BE32(Low32(time.secs));
    ghost var x := secs + BE32(time.nanos) + secs + BE32(time.nanos) + BE32(0) + BE32(0) + BE32(entry.mode)
                   + BE32(0) + BE32(0) + BE32(Low32(entry.size));
    var start := |out|;
    r := WriteStat(out, entry, time);
    Assoc(out, x, entry.oid.raw);
    r := r + entry.oid.raw;
    Assoc(out, x + entry.oid.raw, BE16(NameLength(entry.path)));
    r := r + BE16(NameLength(entry.path));
    Assoc(out, x + entry.oid.raw + BE16(NameLength(entry.path)), entry.path);
    r := r + entry.path;
    // The padding has one NUL at least, so the path is terminated.
    var entryLength := |r| - start;
    var padded := PaddedLength(entryLength);
    Assoc(out, x + entry.oid.raw + BE16(NameLength(entry.path)) + entry.path, Zeros(padded - entryLength));
    r := r + Zeros(padded - entryLength);
  }

  lemma ExtendList(entries: seq<IndexEntry>, entry: IndexEntry, time: Timestamp)
    requires AllSha1Entries(entries) && entry.oid.algorithm == Sha1
    ensures AllSha1Entries(entries + [entry])
    ensures PaddedList(RawList(entries + [entry], time)) == PaddedList(RawList(entries, time)) + EncodePadded(RawOf(entry, time))
  {
    hide RawOf;
    hide EncodePadded;
    assert RawList(entries + [entry], time) == RawList(entries, time) + [RawOf(entry, time)];
    PaddedAppend(RawList(entries, time), RawOf(entry, time));
  }

  /** The header and the entries; refused at the first entry out of place. */
  method WriteEntries(entries: seq<IndexEntry>, time: Timestamp) returns (r: Result<ByteString>)
    requires |entries| <= 0xFFFF_FFFF
    ensures match EntriesError(entries, 0)
            case Some(e) => r == Err(e)
            case None => AllSha1Entries(entries) && r == Ok(Header(2, |entries|) + PaddedList(RawList(entries, time)))
  {
    hide *;
    var out := Header(2, |entries|);
    ghost var header := out;
    EntriesAccepted(entries);
    var previous: Option<ByteString> := None;
    assert AllSha1Entries(entries[..0]) && out == header + PaddedList(RawList(entries[..0], time)) by {
      EmptyList(entries[..0], time, header);
    }
    for i := 0 to |entries|
      invariant EntriesError(entries, 0) == EntriesError(entries, i)
      invariant previous == if i == 0 then None else Some(entries[i - 1].path)
      invariant AllSha1Entries(entries[..i])
      invariant out == header + PaddedList(RawList(entries[..i], time))
    {
      ErrorStep(entries, i);
      var entry := entries[i];
      if previous.Some? && !Less(previous.value, entry.path) {
        return Err(OutOfOrder);
      }
      previous := Some(entry.path);
      if entry.oid.algorithm != Sha1 {
        return Err(UnsupportedHash);
      }
      ghost var written := PaddedList(RawList(entries[..i], time));
      out := WriteEntry(out, entry, time);
      assert entries[..i + 1] == entries[..i] + [entry];
      ExtendList(entries[..i], entry, time);
      Assoc(header, written, EncodePadded(RawOf(entry, time)));
    }
    assert entries[..|entries|] == entries;
    ErrorEnd(entries);
    r := Ok(out);
  }

  lemma EmptyList(entries: seq<IndexEntry>, time: Timestamp, header: ByteString)
    requires |entries| == 0
    ensures AllSha1Entries(entries) && header == header + PaddedList(RawList(entries, time))
  {
  }

  lemma ErrorStep(entries: seq<IndexEntry>, i: nat)
    requires i < |entries|
    ensures EntriesError(entries, i) ==
            if i > 0 && !Less(entries[i - 1].path, entries[i].path) then Some(OutOfOrder)
            else if entries[i].oid.algorithm != Sha1 then Some(UnsupportedHash)
            else EntriesError(entries, i + 1)
  {
  }

  lemma ErrorEnd(entries: seq<IndexEntry>)
    ensures EntriesError(entries, |entries|) == None
  {
  }

  /** Sort, check and print the cache tree. */
  method BuildTree(root: CacheTree, paths: seq<ByteString>) returns (r: Result<ByteString>)
    requires StrictlySorted(paths)
    ensures match TreeExtensions(Some(root), paths)
            case Err(e) => r == Err(e)
            case Ok(xs) => r.Ok? && xs == [Extension(TreeSignature(), r.value)]
    ensures r.Ok? ==> |r.value| <= U32_MAX
  {
    hide SortedTree;
    hide Accurate;
    hide AllSha1;
    hide DistinctNames;
    hide Body;
    hide TreeSignature;
    var sorted := SortCacheTree(root);
    if sorted.Err? {
      return Err(sorted.error);
    }
    var prefix := new Vector<Byte>();
    var verified := VerifyCacheTree(sorted.value, prefix, paths);
    if verified.Err? {
      return Err(verified.error);
    }
    var body := new Vector<Byte>();
    var written := WriteCacheTree(body, sorted.value);
    if written.Err? {
      return Err(written.error);
    }
    assert body.items == Body(sorted.value);
    if |body.items| > U32_MAX {
      return Err(TooLarge);
    }
    r := Ok(body.items);
  }

  method WriteIndexV2(entries: seq<IndexEntry>, time: Timestamp, cacheTree: Option<CacheTree>, sha1: ByteString -> Digest)
    returns (r: Result<ByteString>)
    ensures r == IndexFile(entries, time, cacheTree, sha1)
  {
    if |entries| > U32_MAX {
      return Err(TooManyEntries);
    }
    var written := WriteEntries(entries, time);
    if written.Err? {
      return Err(written.error);
    }
    EntriesAccepted(entries);
    hide TreeExtensions;
    hide PaddedList;
    hide RawList;
    hide EntriesError;
    hide Header;
    hide TreeSignature;
    var out := written.value;
    ghost var extensions: seq<Extension> := [];
    if cacheTree.Some? {
      var extension := BuildTree(cacheTree.value, Paths(entries));
      if extension.Err? {
        return Err(extension.error);
      }
      OneExtension(Extension(TreeSignature(), extension.value));
      extensions := [Extension(TreeSignature(), extension.value)];
      out := out + TreeSignature();
      out := out + BE32(|extension.value|);
      out := out + extension.value;
      assert out == written.value + (TreeSignature() + BE32(|extension.value|) + extension.value);
    } else {
      NoExtension(Paths(entries));
    }
    assert out == Content(entries, time, extensions);
    r := Ok(out + sha1(out));
  }

  lemma OneExtension(x: Extension)
    requires ValidExtension(x)
    ensures ExtensionsBytes([x]) == x.signature + BE32(|x.body|) + x.body
  {
    assert [x][1..] == [];
  }

  lemma NoExtension(paths: seq<ByteString>)
    ensures TreeExtensions(None, paths) == Ok([]) && ExtensionsBytes([]) == []
  {
  }

  // ---------------------------------------------------------------------------
  // What the written file says
  // ---------------------------------------------------------------------------

  /** Everything the writer accepts, and nothing else. */
  lemma WriterAccepts(entries: seq<IndexEntry>, time: Timestamp, root: Option<CacheTree>, sha1: ByteString -> Digest)
    ensures IndexFile(entries, time, root, sha1).Ok? <==>
            && |entries| <= U32_MAX && StrictlySorted(Paths(entries)) && AllSha1Entries(entries)
            && (root.Some? ==>
                  && DistinctNames(root.value) && Accurate(root.value, [], Paths(entries))
                  && AllSha1(SortedTree(root.value)) && |Body(SortedTree(root.value))| <= U32_MAX)
  {
    hide SortedTree;
    hide Accurate;
    hide AllSha1;
    hide DistinctNames;
    hide Body;
    hide StrictlySorted;
    hide AllSha1Entries;
    EntriesAccepted(entries);
    hide EntriesError;
    if root.Some? {
      AccurateSorted(root.value, [], Paths(entries));
    }
  }

  /** An entry the writer takes after the one before it. */
  predicate Follows(entries: seq<IndexEntry>, i: nat)
    requires i < |entries|
  {
    (i == 0 || Less(entries[i - 1].path, entries[i].path)) && entries[i].oid.algorithm == Sha1
  }

  lemma {:induction false} FirstRefused(entries: seq<IndexEntry>, j: nat, i: nat)
    requires j <= i < |entries| && !Follows(entries, i) && forall k :: j <= k < i ==> Follows(entries, k)
    ensures EntriesError(entries, j) ==
            Some(if i > 0 && !Less(entries[i - 1].path, entries[i].path) then OutOfOrder else UnsupportedHash)
    decreases i - j
  {
    if j < i {
      assert Follows(entries, j);
      FirstRefused(entries, j + 1, i);
    }
  }

  /** The first entry that does not follow is what a list that is not too long is refused for. */
  lemma RefusedAt(entries: seq<IndexEntry>, i: nat, time: Timestamp, root: Option<CacheTree>, sha1: ByteString -> Digest)
    requires |entries| <= U32_MAX && i < |entries| && !Follows(entries, i) && forall k :: 0 <= k < i ==> Follows(entries, k)
    ensures IndexFile(entries, time, root, sha1) ==
            Err(if i > 0 && !Less(entries[i - 1].path, entries[i].path) then OutOfOrder else UnsupportedHash)
  {
    FirstRefused(entries, 0, i);
    hide Less;
    hide TreeExtensions;
    hide EntriesError;
  }

  /** What a refusal says: too many entries first, the entries' own checks, then the cache tree's in order. */
  lemma RefusedFor(entries: seq<IndexEntry>, time: Timestamp, root: Option<CacheTree>, sha1: ByteString -> Digest)
    ensures |entries| > U32_MAX <==> IndexFile(entries, time, root, sha1) == Err(TooManyEntries)
    ensures |entries| <= U32_MAX && root.Some? && StrictlySorted(Paths(entries)) && AllSha1Entries(entries) ==>
            var r := IndexFile(entries, time, root, sha1);
            && (r == Err(DuplicateDirectory) <==> !DistinctNames(root.value))
            && (r == Err(WrongCount) <==> DistinctNames(root.value) && !Accurate(root.value, [], Paths(entries)))
            && (r == Err(UnsupportedHash) <==>
                DistinctNames(root.value) && Accurate(root.value, [], Paths(entries)) && !AllSha1(SortedTree(root.value)))
            && (r == Err(TooLarge) <==>
                && DistinctNames(root.value) && Accurate(root.value, [], Paths(entries)) && AllSha1(SortedTree(root.value))
                && |Body(SortedTree(root.value))| > U32_MAX)
  {
    hide SortedTree;
    hide Accurate;
    hide AllSha1;
    hide DistinctNames;
    hide Body;
    hide StrictlySorted;
    hide AllSha1Entries;
    hide EntriesError;
    EntriesAccepted(entries);
    ErrorKinds(entries, 0);
    if root.Some? {
      AccurateSorted(root.value, [], Paths(entries));
    }
  }

  lemma {:induction false} ErrorKinds(entries: seq<IndexEntry>, i: nat)
    requires i <= |entries|
    ensures EntriesError(entries, i).Some? ==> EntriesError(entries, i).value == OutOfOrder || EntriesError(entries, i).value == UnsupportedHash
    decreases |entries| - i
  {
    if i < |entries| {
      ErrorKinds(entries, i + 1);
    }
  }

  /** What a reader should get back: every entry at stage 0, not intent-to-add. */
  function Expected(entries: seq<IndexEntry>): (r: seq<Item>)
    requires AllSha1Entries(entries)
    ensures |r| == |entries|
  {
    seq(|entries|, i requires 0 <= i < |entries| => Item(entries[i].path, Staged(0, entries[i].mode, entries[i].oid.raw, false)))
  }

  ghost predicate Written(file: ByteString, entries: seq<IndexEntry>, time: Timestamp, root: Option<CacheTree>, sha1: ByteString -> Digest)
  {
    IndexFile(entries, time, root, sha1) == Ok(file)
  }

  /** A version 2 file of these raw entries opens and reads back as them, if their paths are readable. */
  lemma ReadsBack(file: ByteString, raws: seq<RawEntry>, rest: ByteString)
    requires AllWellFormed(raws) && |raws| <= 0xFFFF_FFFF
    requires file == Header(2, |raws|) + (PaddedList(raws) + rest)
    ensures Open(file) == Ok(CursorState(2, |raws|, 12, []))
    ensures var items, n := ReadAll(file, CursorState(2, |raws|, 12, [])), 12 + |PaddedList(raws)|;
            && (items.list == ItemsOf(raws) <==> forall e <- raws :: Readable(e.item.path))
            && ((forall e <- raws :: Readable(e.item.path)) ==> items == Items(ItemsOf(raws), true, n))
            && n <= |file| && file[n..] == rest
  {
    hide Open;
    hide PaddedList;
    hide ReadAll;
    hide AllWellFormed;
    hide Readable;
    OpenHeader(2, |raws|, PaddedList(raws) + rest);
    hide Header;
    var st := CursorState(2, |raws|, 12, []);
    PaddedListInverts(file, st, raws, rest);
    assert file[12 + |PaddedList(raws)|..] == file[12..][|PaddedList(raws)|..];
  }

  lemma WrittenShape(file: ByteString, entries: seq<IndexEntry>, time: Timestamp, root: Option<CacheTree>, sha1: ByteString -> Digest)
    requires Written(file, entries, time, root, sha1)
    ensures |entries| <= 0xFFFF_FFFF && AllSha1Entries(entries) && TreeExtensions(root, Paths(entries)).Ok?
    ensures |file| >= 20
    ensures file == Header(2, |entries|) + (PaddedList(RawList(entries, time))
                    + (ExtensionsBytes(TreeExtensions(root, Paths(entries)).value) + sha1(file[..|file| - 20])))
  {
    EntriesAccepted(entries);
    hide EntriesError;
    hide TreeExtensions;
    hide PaddedList;
    hide RawList;
    hide Header;
    hide ExtensionsBytes;
    var content := Content(entries, time, TreeExtensions(root, Paths(entries)).value);
    assert file[..|file| - 20] == content;
  }

  /**
   * A written file opens, and the cursor gives back exactly the entries and stops at the extensions,
   * unless some path of 0xFFF bytes or more has a NUL inside it.
   */
  lemma FileRoundTrip(file: ByteString, entries: seq<IndexEntry>, time: Timestamp, root: Option<CacheTree>, sha1: ByteString -> Digest)
    requires Written(file, entries, time, root, sha1)
    ensures AllSha1Entries(entries) && TreeExtensions(root, Paths(entries)).Ok?
    ensures Open(file) == Ok(CursorState(2, |entries|, 12, []))
    ensures var items, n := ReadAll(file, CursorState(2, |entries|, 12, [])), 12 + |PaddedList(RawList(entries, time))|;
            && (items.list == Expected(entries) <==> forall e <- entries :: Readable(e.path))
            && ((forall e <- entries :: Readable(e.path)) ==> items == Items(Expected(entries), true, n))
            && n + 20 <= |file|
            && file[n..] == ExtensionsBytes(TreeExtensions(root, Paths(entries)).value) + sha1(file[..|file| - 20])
  {
    hide *;
    WrittenShape(file, entries, time, root, sha1);
    ItemsAreExpected(entries, time);
    ReadableEntries(entries, time);
    FileReads(file, RawList(entries, time), ExtensionsBytes(TreeExtensions(root, Paths(entries)).value), sha1(file[..|file| - 20]));
  }

  lemma FileReads(file: ByteString, raws: seq<RawEntry>, extensions: ByteString, digest: Digest)
    requires AllWellFormed(raws) && |raws| <= 0xFFFF_FFFF
    requires file == Header(2, |raws|) + (PaddedList(raws) + (extensions + digest))
    ensures Open(file) == Ok(CursorState(2, |raws|, 12, []))
    ensures var items, n := ReadAll(file, CursorState(2, |raws|, 12, [])), 12 + |PaddedList(raws)|;
            && (items.list == ItemsOf(raws) <==> forall e <- raws :: Readable(e.item.path))
            && ((forall e <- raws :: Readable(e.item.path)) ==> items == Items(ItemsOf(raws), true, n))
            && n + 20 <= |file| && file[n..] == extensions + digest
  {
    hide *;
    ReadsBack(file, raws, extensions + digest);
  }

  lemma ItemsAreExpected(entries: seq<IndexEntry>, time: Timestamp)
    requires AllSha1Entries(entries)
    ensures ItemsOf(RawList(entries, time)) == Expected(entries)
  {
  }

  lemma ReadableEntries(entries: seq<IndexEntry>, time: Timestamp)
    requires AllSha1Entries(entries)
    ensures (forall e <- entries :: Readable(e.path)) <==> (forall e <- RawList(entries, time) :: Readable(e.item.path))
  {
    hide Readable;
    var raws := RawList(entries, time);
    if forall e <- raws :: Readable(e.item.path) {
      forall e <- entries ensures Readable(e.path) {
        var i :| 0 <= i < |entries| && entries[i] == e;
        assert raws[i] in raws;
      }
    }
  }

  /**
   * The written index stages what its sorted cache tree's body says: the root's ID when the root has an empty name, nothing
   * known when there is no tree or the name starts with anything but NUL. A name that starts with NUL is read as if it
   * were the root's line (`RootNamedAsLine`).
   */
  lemma StagesItsRoot(file: ByteString, entries: seq<IndexEntry>, time: Timestamp, root: Option<CacheTree>, sha1: ByteString -> Digest)
    requires Written(file, entries, time, root, sha1)
    requires forall e <- entries :: Readable(e.path)
    ensures root.Some? ==> StagedTree(file) == Ok(RootOf(Body(SortedTree(root.value))))
    ensures root.Some? && |root.value.name| == 0 ==> StagedTree(file) == Ok(Some(root.value.oid.raw))
    ensures root.Some? && |root.value.name| > 0 && root.value.name[0] != NUL ==> StagedTree(file) == Ok(None)
    ensures root.None? ==> StagedTree(file) == Ok(None)
  {
    hide Readable;
    FileRoundTrip(file, entries, time, root, sha1);
    var items := ReadAll(file, CursorState(2, |entries|, 12, []));
    var extensions := TreeExtensions(root, Paths(entries)).value;
    NothingUnsettled(entries);
    hide Written;
    hide Open;
    hide ReadAll;
    ScanFindsFirstTree(file, items.pos, extensions, sha1(file[..|file| - 20]));
    if root.Some? {
      RootOfBody(SortedTree(root.value));
      hide RootOf;
      assert FirstTree(extensions) == RootOf(Body(SortedTree(root.value)));
    }
  }

  lemma NothingUnsettled(entries: seq<IndexEntry>)
    requires AllSha1Entries(entries)
    ensures !exists item <- Expected(entries) :: Unsettled(item)
  {
  }
}
