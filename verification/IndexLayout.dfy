/** A written index byte by byte, as gitformat-index(5) lays version 2 out, and what its cache tree reads as. */
module IndexLayouts {
  import opened Wrappers
  import opened Bytes
  import opened GitTypes
  import opened IndexFormat
  import opened CacheTrees
  import opened StagedTrees
  import opened IndexWriter
  import Sorting

  // ---------------------------------------------------------------------------
  // One entry
  // ---------------------------------------------------------------------------

  /** An entry takes its 62 fixed bytes and its path, and from one to eight NULs to a multiple of eight. */
  function EntrySize(path: ByteString): nat {
    (62 + |path|) / 8 * 8 + 8
  }

  ghost predicate Zeroed(s: ByteString, from: nat, to: nat) {
    to <= |s| && forall k :: from <= k < to ==> s[k] == 0
  }

  /** An entry at `p`: both times, no device or inode, mode, no owner, size, ID, a plain name length, path, NULs. */
  ghost predicate Laid(s: ByteString, p: nat, e: IndexEntry, time: Timestamp) {
    && p + EntrySize(e.path) <= |s|
    && (time.secs - FromBE32(s[p..p + 4])) % 0x1_0000_0000 == 0 && FromBE32(s[p + 4..p + 8]) == time.nanos
    && (time.secs - FromBE32(s[p + 8..p + 12])) % 0x1_0000_0000 == 0 && FromBE32(s[p + 12..p + 16]) == time.nanos
    && Zeroed(s, p + 16, p + 24)
    && FromBE32(s[p + 24..p + 28]) == e.mode
    && Zeroed(s, p + 28, p + 36)
    && (e.size - FromBE32(s[p + 36..p + 40])) % 0x1_0000_0000 == 0
    && s[p + 40..p + 60] == e.oid.raw
    && FromBE16(s[p + 60..p + 62]) == (if |e.path| < 4095 then |e.path| else 4095)
    && s[p + 62..p + 62 + |e.path|] == e.path
    && Zeroed(s, p + 62 + |e.path|, p + EntrySize(e.path))
  }

  /** The twelve fields before the path, and the path, one after another. */
  lemma FieldSlices(t: ByteString, n: ByteString, z: ByteString, mode: ByteString, size: ByteString, oid: ByteString, flags: ByteString,
                    path: ByteString, pad: nat)
    requires |t| == |n| == |z| == |mode| == |size| == 4 && |oid| == 20 && |flags| == 2
    ensures var body := t + n + t + n + z + z + mode + z + z + size + oid + flags + path;
            var s := body + Zeros(pad);
            && |body| == 62 + |path|
            && s[0..4] == t && s[4..8] == n && s[8..12] == t && s[12..16] == n
            && s[16..24] == z + z && s[24..28] == mode && s[28..36] == z + z && s[36..40] == size
            && s[40..60] == oid && s[60..62] == flags && s[62..62 + |path|] == path && Zeroed(s, 62 + |path|, |s|)
  {
  }

  lemma EncodedIsLaid(e: IndexEntry, time: Timestamp)
    requires e.oid.algorithm == Sha1
    ensures |EncodePadded(RawOf(e, time))| == EntrySize(e.path) && Laid(EncodePadded(RawOf(e, time)), 0, e, time)
  {
    hide EncodePadded;
    hide RawOf;
    hide Low32;
    hide NameLength;
    hide BE32;
    hide BE16;
    hide FromBE32;
    hide FromBE16;
    EncodedFields(e, time);
    LowBits(time.secs);
    LowBits(e.size);
    NameLengthIs(e.path);
    ZeroWord();
    RoundTrip32(Low32(time.secs));
    RoundTrip32(time.nanos);
    RoundTrip32(e.mode);
    RoundTrip32(Low32(e.size));
    RoundTrip16(NameLength(e.path));
    FieldSlices(BE32(Low32(time.secs)), BE32(time.nanos), BE32(0), BE32(e.mode), BE32(Low32(e.size)), e.oid.raw,
                BE16(NameLength(e.path)), e.path, PaddedLength(62 + |e.path|) - (62 + |e.path|));
  }

  lemma NameLengthIs(path: ByteString)
    ensures NameLength(path) == if |path| < 4095 then |path| else 4095
  {
  }

  lemma ZeroWord()
    ensures BE32(0) == [0, 0, 0, 0]
  {
  }

  // ---------------------------------------------------------------------------
  // All entries
  // ---------------------------------------------------------------------------

  lemma PartOf(s: ByteString, p: nat, whole: ByteString, rest: ByteString, a: nat, b: nat)
    requires p <= |s| && s[p..] == whole + rest && a <= b <= |whole|
    ensures p + |whole| <= |s| && s[p + a..p + b] == whole[a..b]
  {
    forall k | a <= k < b ensures s[p + k] == whole[k] {
      assert s[p + k] == s[p..][k] == (whole + rest)[k];
    }
    forall k | 0 <= k < b - a ensures s[p + a..p + b][k] == whole[a..b][k] {
      assert s[p + a..p + b][k] == s[p + (a + k)];
    }
  }

  lemma ZeroedWithin(s: ByteString, p: nat, whole: ByteString, rest: ByteString, from: nat, to: nat)
    requires p <= |s| && s[p..] == whole + rest && from <= to && Zeroed(whole, from, to)
    ensures Zeroed(s, p + from, p + to)
  {
    forall k | p + from <= k < p + to ensures s[k] == 0 {
      assert s[k] == s[p..][k - p] == whole[k - p];
    }
  }

  lemma LaidWithin(s: ByteString, p: nat, whole: ByteString, rest: ByteString, e: IndexEntry, time: Timestamp)
    requires p <= |s| && s[p..] == whole + rest && |whole| == EntrySize(e.path) && Laid(whole, 0, e, time)
    ensures Laid(s, p, e, time) && s[p + |whole|..] == rest
  {
    hide Zeroed;
    hide FromBE32;
    hide FromBE16;
    PartOf(s, p, whole, rest, 0, 4);
    PartOf(s, p, whole, rest, 4, 8);
    PartOf(s, p, whole, rest, 8, 12);
    PartOf(s, p, whole, rest, 12, 16);
    ZeroedWithin(s, p, whole, rest, 16, 24);
    PartOf(s, p, whole, rest, 24, 28);
    ZeroedWithin(s, p, whole, rest, 28, 36);
    PartOf(s, p, whole, rest, 36, 40);
    PartOf(s, p, whole, rest, 40, 60);
    PartOf(s, p, whole, rest, 60, 62);
    PartOf(s, p, whole, rest, 62, 62 + |e.path|);
    ZeroedWithin(s, p, whole, rest, 62 + |e.path|, |whole|);
    assert s[p + |whole|..] == s[p..][|whole|..];
  }

  /** Where the `k`-th of some entries starts, from where the first does. */
  function Offset(entries: seq<IndexEntry>, k: nat): nat
    requires k <= |entries|
  {
    if k == 0 then 0 else EntrySize(entries[0].path) + Offset(entries[1..], k - 1)
  }

  lemma RawListCons(entries: seq<IndexEntry>, time: Timestamp)
    requires AllSha1Entries(entries) && |entries| > 0
    ensures entries[0].oid.algorithm == Sha1 && AllSha1Entries(entries[1..])
    ensures PaddedList(RawList(entries, time)) == EncodePadded(RawOf(entries[0], time)) + PaddedList(RawList(entries[1..], time))
  {
    hide RawOf;
    hide EncodePadded;
    assert RawList(entries, time)[1..] == RawList(entries[1..], time);
  }

  lemma NoRaws(entries: seq<IndexEntry>, time: Timestamp)
    requires AllSha1Entries(entries) && |entries| == 0
    ensures PaddedList(RawList(entries, time)) == []
  {
  }

  lemma OffsetCons(entries: seq<IndexEntry>, k: nat)
    requires 0 < k <= |entries|
    ensures Offset(entries, k) == EntrySize(entries[0].path) + Offset(entries[1..], k - 1)
  {
  }

  lemma {:induction false} ListIsLaid(s: ByteString, p: nat, entries: seq<IndexEntry>, time: Timestamp, rest: ByteString)
    requires AllSha1Entries(entries) && p <= |s| && s[p..] == PaddedList(RawList(entries, time)) + rest
    ensures forall k :: 0 <= k < |entries| ==> Laid(s, p + Offset(entries, k), entries[k], time)
    ensures p + Offset(entries, |entries|) <= |s| && s[p + Offset(entries, |entries|)..] == rest
    decreases |entries|
  {
    hide AllSha1Entries;
    hide PaddedList;
    hide RawList;
    hide Laid;
    hide EncodePadded;
    hide RawOf;
    hide EntrySize;
    hide Offset;
    OffsetNone(entries);
    if |entries| == 0 {
      NoRaws(entries, time);
      assert s[p..] == rest;
    } else {
      RawListCons(entries, time);
      var first, others := entries[0], PaddedList(RawList(entries[1..], time));
      EncodedIsLaid(first, time);
      Assoc(EncodePadded(RawOf(first, time)), others, rest);
      LaidWithin(s, p, EncodePadded(RawOf(first, time)), others + rest, first, time);
      ListIsLaid(s, p + EntrySize(first.path), entries[1..], time, rest);
      forall k | 0 < k <= |entries| ensures Offset(entries, k) == EntrySize(first.path) + Offset(entries[1..], k - 1) {
        OffsetCons(entries, k);
      }
      forall k | 0 <= k < |entries| ensures Laid(s, p + Offset(entries, k), entries[k], time) {
        if k > 0 {
          assert entries[k] == entries[1..][k - 1];
        }
      }
    }
  }

  lemma OffsetNone(entries: seq<IndexEntry>)
    ensures Offset(entries, 0) == 0
  {
  }

  // ---------------------------------------------------------------------------
  // The whole file
  // ---------------------------------------------------------------------------

  lemma HeaderIs(count: U32)
    ensures var header := Header(2, count);
            header[..8] == [68, 73, 82, 67, 0, 0, 0, 2] && FromBE32(header[8..12]) == count
  {
    RoundTrip32(count);
    hide FromBE32;
    assert MagicDirc() == [68, 73, 82, 67] && BE32(2) == [0, 0, 0, 2];
    hide BE32;
    assert Header(2, count)[8..12] == BE32(count);
  }

  /** The extensions of a written file: none, or the cache tree alone. */
  lemma TreeIsLaid(root: CacheTree, paths: seq<ByteString>)
    requires TreeExtensions(Some(root), paths).Ok?
    ensures var body, all := Body(SortedTree(root)), ExtensionsBytes(TreeExtensions(Some(root), paths).value);
            && |all| == 8 + |body| && all[..4] == [84, 82, 69, 69] && FromBE32(all[4..8]) == |body| && all[8..] == body
  {
    hide *;
    var body := Body(SortedTree(root));
    OnlyTree(root, paths);
    OneExtension(Extension(TreeSignature(), body));
    SignedParts(TreeSignature(), body);
  }

  lemma OnlyTree(root: CacheTree, paths: seq<ByteString>)
    requires TreeExtensions(Some(root), paths).Ok?
    ensures |Body(SortedTree(root))| <= 0xFFFF_FFFF && TreeSignature() == [84, 82, 69, 69]
    ensures ValidExtension(Extension(TreeSignature(), Body(SortedTree(root))))
    ensures TreeExtensions(Some(root), paths).value == [Extension(TreeSignature(), Body(SortedTree(root)))]
  {
    hide Body;
    hide SortedTree;
    hide Accurate;
    hide AllSha1;
    hide DistinctNames;
  }

  lemma SignedParts(signature: ByteString, body: ByteString)
    requires |signature| == 4 && |body| <= 0xFFFF_FFFF
    ensures var all := signature + BE32(|body|) + body;
            |all| == 8 + |body| && all[..4] == signature && FromBE32(all[4..8]) == |body| && all[8..] == body
  {
    RoundTrip32(|body|);
    hide BE32;
    hide FromBE32;
    var all := signature + BE32(|body|) + body;
    assert all[4..8] == BE32(|body|);
  }

  lemma NoExtensions(paths: seq<ByteString>)
    ensures TreeExtensions(None, paths) == Ok([]) && ExtensionsBytes([]) == []
  {
  }

  /** The file, taken apart: what is after the header, after the entries and after the extensions. */
  lemma FileParts(file: ByteString, header: ByteString, list: ByteString, extensions: ByteString, digest: ByteString)
    requires |header| == 12 && |digest| == 20 && file == header + (list + (extensions + digest))
    ensures file[..8] == header[..8] && file[8..12] == header[8..12] && file[12..] == list + (extensions + digest)
    ensures var n := 12 + |list|;
            && |file| == n + |extensions| + 20 && file[|file| - 20..] == digest && file[n..|file| - 20] == extensions
  {
    assert file == header + list + extensions + digest;
  }

  /**
   * A written file: `DIRC`, version 2, the count, each entry in its place, then the cache tree's extension if there is a
   * cache tree, then the checksum of everything before it.
   */
  lemma FileIsLaid(file: ByteString, entries: seq<IndexEntry>, time: Timestamp, root: Option<CacheTree>, sha1: ByteString -> Digest)
    requires Written(file, entries, time, root, sha1)
    ensures |file| >= 32 && file[..8] == [68, 73, 82, 67, 0, 0, 0, 2] && FromBE32(file[8..12]) == |entries|
    ensures forall k :: 0 <= k < |entries| ==> Laid(file, 12 + Offset(entries, k), entries[k], time)
    ensures var n := 12 + Offset(entries, |entries|);
            && n + 20 <= |file| && file[|file| - 20..] == sha1(file[..|file| - 20])
            && (root.None? ==> n + 20 == |file|)
            && (root.Some? ==>
                  && n + 28 <= |file| && file[n..n + 4] == [84, 82, 69, 69] && FromBE32(file[n + 4..n + 8]) == |file| - n - 28
                  && file[n + 8..|file| - 20] == Body(SortedTree(root.value)))
  {
    hide *;
    WrittenShape(file, entries, time, root, sha1);
    var list, extensions := PaddedList(RawList(entries, time)), ExtensionsBytes(TreeExtensions(root, Paths(entries)).value);
    var digest := sha1(file[..|file| - 20]);
    HeaderIs(|entries|);
    FileParts(file, Header(2, |entries|), list, extensions, digest);
    ListIsLaid(file, 12, entries, time, extensions + digest);
    var n := 12 + Offset(entries, |entries|);
    EndsAt(file, n, extensions, digest);
    if root.Some? {
      TreeIsLaid(root.value, Paths(entries));
      PartOf(file, n, extensions, digest, 0, 4);
      PartOf(file, n, extensions, digest, 4, 8);
      PartOf(file, n, extensions, digest, 8, |extensions|);
    } else {
      NoExtensions(Paths(entries));
    }
  }

  lemma EndsAt(file: ByteString, n: nat, extensions: ByteString, digest: ByteString)
    requires n <= |file| && file[n..] == extensions + digest
    ensures |file| == n + |extensions| + |digest|
  {
  }

  /**
   * Reading the cache tree a written file ends in: the same directories, IDs and counts as were handed over, every level
   * by increasing length of the name and, within a length, by the bytes.
   */
  lemma TreeReadsBack(file: ByteString, entries: seq<IndexEntry>, time: Timestamp, root: CacheTree, sha1: ByteString -> Digest)
    requires Written(file, entries, time, Some(root), sha1) && NulFreeNames(root)
    ensures var n := 12 + Offset(entries, |entries|);
            && n + 28 <= |file|
            && var read := ReadTree(file[n + 8..|file| - 20]);
               && read.Some? && read.value.used == |file| - n - 28
               && Ordered(read.value.value) && Directories(read.value.value, []) == Directories(root, [])
  {
    hide *;
    FileIsLaid(file, entries, time, Some(root), sha1);
    WriterAccepts(entries, time, Some(root), sha1);
    AcceptedTree(file, entries, time, root, sha1);
    var sorted := SortedTree(root);
    NulFreeSorted(root);
    ReadTreeInverts(sorted, []);
    SortedTreeOrdered(root);
    SortedTreeSaysTheSame(root, []);
    assert Body(sorted) + [] == Body(sorted);
  }

  lemma AcceptedTree(file: ByteString, entries: seq<IndexEntry>, time: Timestamp, root: CacheTree, sha1: ByteString -> Digest)
    requires Written(file, entries, time, Some(root), sha1)
    ensures DistinctNames(root) && AllSha1(SortedTree(root))
  {
    WriterAccepts(entries, time, Some(root), sha1);
  }

  lemma {:induction false} NulFreeSorted(node: CacheTree)
    requires NulFreeNames(node)
    ensures NulFreeNames(SortedTree(node))
    decreases node
  {
    var sorted := SortedTree(node);
    forall c <- sorted.children ensures NulFreeNames(c) {
      Sorting.SortMembers(ByName, SortedTrees(node.children), c);
      var i :| 0 <= i < |node.children| && SortedTree(node.children[i]) == c;
      NulFreeSorted(node.children[i]);
    }
  }
}
