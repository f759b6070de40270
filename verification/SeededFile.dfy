/** A whole seeded index as a reader of its bytes finds it, and which indexes are seeded. */
module SeededFiles {
  import opened Wrappers
  import opened Bytes
  import opened GitTypes
  import opened IndexFormat
  import opened DirectoryTables
  import opened DirectoryTrees
  import opened WorkspaceCaches
  import opened SeededIndex
  import opened UntrReader
  import opened FsmnReader
  import IndexLayouts

  // ---------------------------------------------------------------------------
  // What was added
  // ---------------------------------------------------------------------------

  /** An extension at `p`: signature, length, body; and where it ends. */
  ghost predicate Framed(s: ByteString, p: nat, signature: ByteString, body: ByteString) {
    && |signature| == 4 && p + 8 + |body| <= |s| && s[p..p + 4] == signature
    && FromBE32(s[p + 4..p + 8]) == |body| && s[p + 8..p + 8 + |body|] == body
  }

  lemma Frames(s: ByteString, p: nat, signature: ByteString, body: ByteString, rest: ByteString)
    requires p <= |s| && |signature| == 4 && |body| <= 0xFFFF_FFFF && s[p..] == (signature + BE32(|body|) + body) + rest
    ensures Framed(s, p, signature, body) && s[p + 8 + |body|..] == rest
  {
    hide BE32;
    hide FromBE32;
    IndexLayouts.SignedParts(signature, body);
    var all := signature + BE32(|body|) + body;
    IndexLayouts.PartOf(s, p, all, rest, 0, 4);
    IndexLayouts.PartOf(s, p, all, rest, 4, 8);
    IndexLayouts.PartOf(s, p, all, rest, 8, |all|);
    assert p + |all| == p + 8 + |body|;
    assert all[0..4] == signature && all[8..|all|] == body;
    assert s[p + |all|..] == s[p..][|all|..];
  }

  lemma Signatures()
    ensures UntrSignature() == [85, 78, 84, 82] && FsmnSignature() == [70, 83, 77, 78]
  {
  }

  lemma CountFits(index: ByteString)
    requires Seedable(index)
    ensures Version2(index) && |PlainItems(index).list| <= U32_MAX && |index| >= 32
  {
    PlainCount(index, 12, FromBE32(index[8..12]));
  }

  lemma {:induction false} PlainCount(index: ByteString, pos: nat, remaining: nat)
    ensures |ReadPlain(index, pos, remaining).list| <= remaining
    decreases remaining
  {
    if remaining > 0 {
      ReadPlainUnfolds(index, pos, remaining);
      hide ReadHead;
      hide ReadPadded;
      if ReadHead(index, pos).Some? && ReadPadded(index, pos, ReadHead(index, pos).value).Some? {
        PlainCount(index, ReadPadded(index, pos, ReadHead(index, pos).value).value.pos, remaining - 1);
      }
    }
  }

  /**
   * A seeded index is the old one up to its checksum, an `UNTR` extension that describes the directories of its entries,
   * an `FSMN` extension with the token and no entry dirty, and the checksum of all that.
   */
  lemma SeededFileReads(out: Option<ByteString>, index: ByteString, caches: Caches, sha1: ByteString -> Digest)
    returns (untr: ByteString, fsmn: ByteString)
    requires Seeded(out, index, caches, sha1) && out.Some?
    requires var paths := PathsOf(PlainItems(index).list);
             StrictlySorted(paths) && |DirList(paths)| <= 0xFFFF_FFFF && forall p <- paths :: NUL !in p
    requires |caches.ident| < U64_MAX && NUL !in caches.token
    ensures |index| >= 32
    ensures var file, n := out.value, |index| - 20;
            && |file| == n + 8 + |untr| + 8 + |fsmn| + 20 && file[..n] == index[..n]
            && Framed(file, n, [85, 78, 84, 82], untr) && Framed(file, n + 8 + |untr|, [70, 83, 77, 78], fsmn)
            && file[|file| - 20..] == sha1(file[..|file| - 20])
    ensures ReadUntr(untr).Some? && Describes(ReadUntr(untr).value, caches, PlainItems(index).list)
    ensures ReadFsmn(fsmn).Some? && ReadFsmn(fsmn).value.token == caches.token
            && |ReadFsmn(fsmn).value.dirty| == |PlainItems(index).list|
            && forall k :: 0 <= k < |PlainItems(index).list| ==> !ReadFsmn(fsmn).value.dirty[k]
  {
    hide *;
    untr, fsmn := SeededBodies(out, index, caches, sha1);
    CountFits(index);
    AppendedReads(out.value, index, untr, fsmn, sha1);
    ReaderFindsTheDirectories(untr, caches, PlainItems(index).list);
    FsmnRoundTrip(fsmn, caches.token, |PlainItems(index).list|);
  }

  lemma AppendedReads(file: ByteString, index: ByteString, untr: ByteString, fsmn: ByteString, sha1: ByteString -> Digest)
    requires |index| >= 20 && |untr| <= U32_MAX && |fsmn| <= U32_MAX && file == Appended(index, untr, fsmn, sha1)
    ensures var n := |index| - 20;
            && |file| == n + 8 + |untr| + 8 + |fsmn| + 20 && file[..n] == index[..n]
            && Framed(file, n, [85, 78, 84, 82], untr) && Framed(file, n + 8 + |untr|, [70, 83, 77, 78], fsmn)
            && file[|file| - 20..] == sha1(file[..|file| - 20])
  {
    hide Appended;
    hide UntrSignature;
    hide FsmnSignature;
    hide Framed;
    hide BE32;
    Signatures();
    AppendedKeepsPrefix(index, untr, fsmn, sha1);
    var n, digest := |index| - 20, sha1(file[..|file| - 20]);
    var second := FsmnSignature() + BE32(|fsmn|) + fsmn;
    Assoc(UntrSignature() + BE32(|untr|) + untr, second, digest);
    Frames(file, n, UntrSignature(), untr, second + digest);
    Frames(file, n + 8 + |untr|, FsmnSignature(), fsmn, digest);
    assert file[|file| - 20..] == digest;
  }

  // ---------------------------------------------------------------------------
  // Which indexes are seeded
  // ---------------------------------------------------------------------------

  lemma {:induction false} ExtendedStops(bytes: ByteString, pos: nat, es: seq<RawEntry>, rest: ByteString)
    requires AllWellFormed(es) && pos <= |bytes| && bytes[pos..] == PaddedList(es) + rest
    requires (forall e <- es :: Readable(e.item.path)) && exists e <- es :: e.extended.Some?
    ensures !ReadPlain(bytes, pos, |es|).ended
    decreases |es|
  {
    hide *;
    PaddedCons(es);
    var e, next, others := es[0], pos + |EncodePadded(es[0])|, PaddedList(es[1..]);
    Assoc(EncodePadded(e), others, rest);
    if e.extended.Some? {
      FirstExtended(bytes, pos, |es|, e, others + rest);
    } else {
      PlainStep(bytes, pos, |es|, e, others + rest);
      assert bytes[next..] == bytes[pos..][|EncodePadded(e)|..];
      ExtendedStops(bytes, next, es[1..], rest);
    }
  }

  lemma FirstExtended(bytes: ByteString, pos: nat, remaining: nat, e: RawEntry, rest: ByteString)
    requires WellFormed(e) && e.extended.Some? && remaining > 0 && pos <= |bytes|
    requires bytes[pos..] == EncodePadded(e) + rest
    ensures !ReadPlain(bytes, pos, remaining).ended
  {
    hide *;
    ReadPlainUnfolds(bytes, pos, remaining);
    EncodedHead(e, rest);
    IndexFormat.ReadHeadInverts(bytes, pos, e, EncodedTail(e) + rest);
  }

  lemma VersionIs(version: U32, count: U32, rest: ByteString)
    ensures var file := Header(version, count) + rest;
            && (Version2(file) <==> version == 2 && |file| >= 32) && FromBE32(file[8..12]) == count && file[12..] == rest
  {
    RoundTrip32(version);
    RoundTrip32(2);
    RoundTrip32(count);
    hide FromBE32;
    hide BE32;
    hide MagicDirc;
    var file := Header(version, count) + rest;
    assert file[..4] == MagicDirc() && file[4..8] == BE32(version) && file[8..12] == BE32(count);
  }

  /** Of files with readable paths, those seeded are exactly version 2, without an extended entry, with room for a checksum. */
  lemma SeedableExactly(file: ByteString, version: U32, raws: seq<RawEntry>, rest: ByteString)
    requires AllWellFormed(raws) && |raws| <= 0xFFFF_FFFF && forall e <- raws :: Readable(e.item.path)
    requires file == Header(version, |raws|) + (PaddedList(raws) + rest)
    ensures Seedable(file) <==> version == 2 && (forall e <- raws :: e.extended.None?) && |rest| >= 20
  {
    hide PaddedList;
    hide AllWellFormed;
    hide Readable;
    hide ReadPlain;
    hide Version2;
    hide Header;
    hide FromBE32;
    VersionIs(version, |raws|, PaddedList(raws) + rest);
    if Version2(file) {
      if exists e <- raws :: e.extended.Some? {
        ExtendedStops(file, 12, raws, rest);
      } else {
        assert forall i :: 0 <= i < |raws| ==> raws[i] in raws;
        PlainListInverts(file, 12, raws, rest);
      }
    }
  }
}
