/** What seeding an index leaves unchanged: everything the index stages. */
module SeededIndex {
  import opened Wrappers
  import opened Bytes
  import opened GitTypes
  import opened IndexFormat
  import opened EntryCursors
  import opened StagedTrees
  import opened WorkspaceCaches
  import opened DirectoryTables
  import opened DirectoryTrees
  import CacheTrees
  import Ewah
  import IndexWriter

  // ---------------------------------------------------------------------------
  // Reading entries looks only at the bytes before where it stops
  // ---------------------------------------------------------------------------

  lemma SameSlice(a: ByteString, b: ByteString, n: nat, i: nat, j: nat)
    requires i <= j <= n && n <= |a| && n <= |b| && a[..n] == b[..n]
    ensures a[i..j] == b[i..j]
  {
    assert a[i..j] == a[..n][i..j] && b[i..j] == b[..n][i..j];
  }

  lemma HeadIsLocal(a: ByteString, b: ByteString, n: nat, start: nat)
    requires n <= |a| && n <= |b| && a[..n] == b[..n]
    requires ReadHead(a, start).Some? && ReadHead(a, start).value.pos <= n
    ensures ReadHead(b, start) == ReadHead(a, start)
  {
    SameSlice(a, b, n, start, start + 62);
    if ReadHead(a, start).value.extended {
      SameSlice(a, b, n, start + 62, start + 64);
    }
    hide FromBE16;
    hide FromBE32;
  }

  lemma PaddedIsLocal(a: ByteString, b: ByteString, n: nat, start: nat, head: Head)
    requires start <= head.pos <= n && n <= |a| && n <= |b| && a[..n] == b[..n]
    requires ReadPadded(a, start, head).Some? && ReadPadded(a, start, head).value.pos <= n
    ensures ReadPadded(b, start, head) == ReadPadded(a, start, head)
  {
    hide Position;
    var ra, rb := a[head.pos..], b[head.pos..];
    var length := |ReadPadded(a, start, head).value.path|;
    assert head.pos + length < n;
    assert ra[..length] == a[head.pos..head.pos + length] && rb[..length] == b[head.pos..head.pos + length];
    SameSlice(a, b, n, head.pos, head.pos + length);
    SameSlice(a, b, n, head.pos, head.pos + length + 1);
    if head.nameLength == NAME_MASK {
      assert rb[length] == b[head.pos..head.pos + length + 1][length] == a[head.pos..head.pos + length + 1][length] == ra[length];
      PositionUnique(rb, NUL, length);
    }
  }

  /** A version 2 file without extended flags reads the same from the cursor, and moves forward. */
  lemma {:induction false} PlainIsAll(index: ByteString, pos: nat, remaining: nat, path: ByteString)
    requires ReadPlain(index, pos, remaining).ended
    ensures ReadAll(index, CursorState(2, remaining, pos, path)) == ReadPlain(index, pos, remaining)
    ensures pos <= ReadPlain(index, pos, remaining).pos
    decreases remaining
  {
    if remaining == 0 {
      ReadPlainDone(index, pos);
    } else {
      ReadPlainUnfolds(index, pos, remaining);
      hide ReadHead;
      hide ReadPadded;
      hide ReadPlain;
      var name := ReadPadded(index, pos, ReadHead(index, pos).value).value;
      PlainIsAll(index, name.pos, remaining - 1, name.path);
      PaddedMoves(index, pos, ReadHead(index, pos).value);
    }
  }

  lemma PaddedMoves(index: ByteString, start: nat, head: Head)
    requires start <= head.pos <= |index| && ReadPadded(index, start, head).Some?
    ensures head.pos < ReadPadded(index, start, head).value.pos
  {
    hide Position;
  }

  /** Two files that agree up to where the entries of one end have the same entries. */
  lemma {:induction false} PlainIsLocal(a: ByteString, b: ByteString, n: nat, pos: nat, remaining: nat)
    requires n <= |a| && n <= |b| && a[..n] == b[..n]
    requires ReadPlain(a, pos, remaining).ended && ReadPlain(a, pos, remaining).pos <= n
    ensures ReadPlain(b, pos, remaining) == ReadPlain(a, pos, remaining)
    decreases remaining
  {
    if remaining == 0 {
      ReadPlainDone(a, pos);
      ReadPlainDone(b, pos);
    } else {
      ReadPlainUnfolds(a, pos, remaining);
      var head := ReadHead(a, pos).value;
      var name := ReadPadded(a, pos, head).value;
      PlainIsAll(a, name.pos, remaining - 1, []);
      PaddedMoves(a, pos, head);
      HeadIsLocal(a, b, n, pos);
      PaddedIsLocal(a, b, n, pos, head);
      hide ReadHead;
      hide ReadPadded;
      PlainIsLocal(a, b, n, name.pos, remaining - 1);
      ReadPlainUnfolds(b, pos, remaining);
    }
  }

  // ---------------------------------------------------------------------------
  // A seeded index stages what it did
  // ---------------------------------------------------------------------------

  lemma OpensAsVersion2(index: ByteString)
    requires Version2(index)
    ensures Open(index) == Ok(CursorState(2, FromBE32(index[8..12]), 12, []))
  {
    RoundTrip32(2);
  }

  lemma AppendedKeepsPrefix(index: ByteString, untr: ByteString, fsmn: ByteString, sha1: ByteString -> Digest)
    requires |index| >= 20 && |untr| <= U32_MAX && |fsmn| <= U32_MAX
    ensures var out, n := Appended(index, untr, fsmn, sha1), |index| - 20;
            && |out| >= n + 36 && out[..n] == index[..n]
            && out[n..] == (UntrSignature() + BE32(|untr|) + untr) + (FsmnSignature() + BE32(|fsmn|) + fsmn) + sha1(out[..|out| - 20])
  {
    hide BE32;
    hide UntrSignature;
    hide FsmnSignature;
    var n := |index| - 20;
    var x, y := UntrSignature() + BE32(|untr|) + untr, FsmnSignature() + BE32(|fsmn|) + fsmn;
    var content := index[..n] + x + y;
    var out := Appended(index, untr, fsmn, sha1);
    assert out == content + sha1(content);
    assert out[..|out| - 20] == content;
    assert out[..n] == index[..n];
  }

  /** The seeded file has the entries of the original, and they end at the same place. */
  lemma SeededEntries(out: ByteString, index: ByteString, untr: ByteString, fsmn: ByteString, sha1: ByteString -> Digest)
    requires Seedable(index) && |untr| <= U32_MAX && |fsmn| <= U32_MAX && out == Appended(index, untr, fsmn, sha1)
    ensures var st := CursorState(2, FromBE32(index[8..12]), 12, []);
            && Open(index) == Ok(st) && Open(out) == Ok(st)
            && ReadAll(index, st) == ReadAll(out, st) == PlainItems(index)
  {
    var n, count := |index| - 20, FromBE32(index[8..12]);
    AppendedKeepsPrefix(index, untr, fsmn, sha1);
    OpensAsVersion2(index);
    PlainIsAll(index, 12, count, []);
    hide Appended;
    hide FromBE32;
    hide BE32;
    hide MagicDirc;
    hide ReadPlain;
    hide ReadAll;
    assert 12 <= n;
    SameSlice(index, out, n, 0, 4);
    SameSlice(index, out, n, 4, 8);
    SameSlice(index, out, n, 8, 12);
    assert index[..4] == index[0..4] && out[..4] == out[0..4];
    OpensAsVersion2(out);
    PlainIsLocal(index, out, n, 12, count);
    PlainIsAll(out, 12, count, []);
  }

  lemma UntrUnique(a: ByteString, b: ByteString, caches: Caches, table: seq<Dir>, order: seq<nat>)
    requires IsUntr(a, caches, table, order) && IsUntr(b, caches, table, order)
    ensures a == b
  {
    hide UntrBody;
    hide Ewah.Encodes;
    var valid, checkOnly, marked :|
      && Ewah.Encodes(valid, |order|, Always()) && Ewah.Encodes(checkOnly, |order|, Never())
      && Ewah.Encodes(marked, |order|, Marked(table, order)) && a == UntrBody(caches, table, order, valid, checkOnly, marked);
    var valid', checkOnly', marked' :|
      && Ewah.Encodes(valid', |order|, Always()) && Ewah.Encodes(checkOnly', |order|, Never())
      && Ewah.Encodes(marked', |order|, Marked(table, order)) && b == UntrBody(caches, table, order, valid', checkOnly', marked');
    Ewah.EncodingUnique(valid, valid', |order|, Always());
    Ewah.EncodingUnique(checkOnly, checkOnly', |order|, Never());
    Ewah.EncodingUnique(marked, marked', |order|, Marked(table, order));
  }

  lemma FsmnUnique(a: ByteString, b: ByteString, token: ByteString, count: nat)
    requires IsFsmn(a, token, count) && IsFsmn(b, token, count)
    ensures a == b
  {
    hide FsmnBody;
    hide Ewah.Encodes;
    var dirty :| Ewah.Encodes(dirty, count, Never()) && a == FsmnBody(token, dirty);
    var dirty' :| Ewah.Encodes(dirty', count, Never()) && b == FsmnBody(token, dirty');
    Ewah.EncodingUnique(dirty, dirty', count, Never());
  }

  /** An index has one seeded form, or none. */
  lemma SeedingIsDetermined(a: Option<ByteString>, b: Option<ByteString>, index: ByteString, caches: Caches, sha1: ByteString -> Digest)
    requires Seeded(a, index, caches, sha1) && Seeded(b, index, caches, sha1)
    ensures a == b
  {
    hide Directories;
    hide PlainItems;
    hide IsUntr;
    hide IsFsmn;
    hide Appended;
    if Seedable(index) {
      hide Seedable;
      var items := PlainItems(index);
      var table := Directories(items.list);
      var untr, fsmn :|
        && Shaped(table) && |table| > 0
        && IsUntr(untr, caches, table, Preorder(table, 0)) && IsFsmn(fsmn, caches.token, |items.list|)
        && a == if |untr| <= U32_MAX && |fsmn| <= U32_MAX then Some(Appended(index, untr, fsmn, sha1)) else None;
      var untr', fsmn' :|
        && IsUntr(untr', caches, table, Preorder(table, 0)) && IsFsmn(fsmn', caches.token, |items.list|)
        && b == if |untr'| <= U32_MAX && |fsmn'| <= U32_MAX then Some(Appended(index, untr', fsmn', sha1)) else None;
      UntrUnique(untr, untr', caches, table, Preorder(table, 0));
      FsmnUnique(fsmn, fsmn', caches.token, |items.list|);
    }
  }

  /** Comparing an index with its seeded form finds no staged difference. */
  lemma SeedingStagesNothing(out: Option<ByteString>, index: ByteString, caches: Caches, sha1: ByteString -> Digest)
    requires Seeded(out, index, caches, sha1) && out.Some?
    ensures StagedDifference(index, out.value) == Ok(None)
  {
    var untr, fsmn := SeededBodies(out, index, caches, sha1);
    hide Seeded;
    hide Appended;
    var items := PlainItems(index);
    SeededEntries(out.value, index, untr, fsmn, sha1);
    NoDifferenceMeansEqual(items, items);
  }

  /** From `pos` the scan meets whole extensions until a `TREE` or the checksum at `n`. */
  predicate Whole(index: ByteString, pos: nat, n: nat)
    requires n + 20 == |index|
    decreases n - pos
  {
    pos == n
    || (pos + 8 <= n
        && var next := pos + 8 + FromBE32(index[pos + 4..pos + 8]);
           next <= n && (index[pos..pos + 4] == TreeSignature() || Whole(index, next, n)))
  }

  /** One extension of the scan: what it compares and where it goes next. */
  lemma ScanUnfolds(index: ByteString, pos: nat)
    requires pos + 28 <= |index|
    ensures ScanForTree(index, pos) ==
            var next := pos + 8 + FromBE32(index[pos + 4..pos + 8]);
            if next > |index| then Err(Truncated)
            else if index[pos..pos + 4] == TreeSignature() then Ok(RootOf(index[pos + 8..next]))
            else ScanForTree(index, next)
  {
    hide RootOf;
    hide TreeSignature;
    hide FromBE32;
  }

  lemma ScanAtEnd(index: ByteString, pos: nat)
    requires pos + 28 > |index|
    ensures ScanForTree(index, pos) == Ok(None)
  {
  }

  /** Over whole extensions the scan of a longer file that agrees before the checksum goes the same way. */
  lemma {:induction false} ScanIsLocal(index: ByteString, out: ByteString, pos: nat, n: nat)
    requires n + 20 == |index| && |index| <= |out| && out[..n] == index[..n] && Whole(index, pos, n)
    requires ScanForTree(out, n) == Ok(None)
    ensures ScanForTree(out, pos) == ScanForTree(index, pos)
    decreases n - pos
  {
    hide FromBE32;
    hide ScanForTree;
    hide RootOf;
    hide TreeSignature;
    if pos == n {
      ScanAtEnd(index, pos);
    } else {
      var next := pos + 8 + FromBE32(index[pos + 4..pos + 8]);
      SameSlice(index, out, n, pos, pos + 4);
      SameSlice(index, out, n, pos + 4, pos + 8);
      SameSlice(index, out, n, pos + 8, next);
      ScanUnfolds(index, pos);
      ScanUnfolds(out, pos);
      if index[pos..pos + 4] != TreeSignature() {
        ScanIsLocal(index, out, next, n);
      }
    }
  }

  lemma TwoExtensions(x: Extension, y: Extension)
    requires ValidExtension(x) && ValidExtension(y)
    ensures ExtensionsBytes([x, y]) == ExtensionBytes(x) + ExtensionBytes(y)
  {
    hide ExtensionBytes;
    var two, one, none := [x, y], [y], [x][1..];
    assert two[1..] == one && one[1..] == none && |none| == 0;
    assert ExtensionsBytes(one) == ExtensionBytes(y) + ExtensionsBytes(none);
    assert ExtensionsBytes(one) == ExtensionBytes(y);
  }

  lemma AppendedIsRegion(index: ByteString, untr: ByteString, fsmn: ByteString, sha1: ByteString -> Digest)
    requires |index| >= 20 && |untr| <= U32_MAX && |fsmn| <= U32_MAX
    ensures var out, x, y := Appended(index, untr, fsmn, sha1), Extension(UntrSignature(), untr), Extension(FsmnSignature(), fsmn);
            && |out| >= |index| && ValidExtension(x) && ValidExtension(y)
            && out[|index| - 20..] == ExtensionsBytes([x, y]) + sha1(out[..|out| - 20])
  {
    hide Appended;
    hide ExtensionsBytes;
    hide BE32;
    hide UntrSignature;
    hide FsmnSignature;
    AppendedKeepsPrefix(index, untr, fsmn, sha1);
    TwoExtensions(Extension(UntrSignature(), untr), Extension(FsmnSignature(), fsmn));
  }

  /** The two seeded extensions hold no tree. */
  lemma AppendedScan(index: ByteString, untr: ByteString, fsmn: ByteString, sha1: ByteString -> Digest)
    requires |index| >= 20 && |untr| <= U32_MAX && |fsmn| <= U32_MAX
    ensures ScanForTree(Appended(index, untr, fsmn, sha1), |index| - 20) == Ok(None)
  {
    hide *;
    var out := Appended(index, untr, fsmn, sha1);
    var x, y := Extension(UntrSignature(), untr), Extension(FsmnSignature(), fsmn);
    AppendedIsRegion(index, untr, fsmn, sha1);
    NotTree(x, y);
    ScanFindsFirstTree(out, |index| - 20, [x, y], sha1(out[..|out| - 20]));
  }

  /** What seeds an index: some untracked-cache body and some fsmonitor body. */
  lemma SeededBodies(out: Option<ByteString>, index: ByteString, caches: Caches, sha1: ByteString -> Digest)
    returns (untr: ByteString, fsmn: ByteString)
    requires Seeded(out, index, caches, sha1) && out.Some?
    ensures |index| >= 20 && Seedable(index) && |untr| <= U32_MAX && |fsmn| <= U32_MAX
    ensures out.value == Appended(index, untr, fsmn, sha1)
    ensures var items := PlainItems(index).list;
            && Shaped(Directories(items)) && |Directories(items)| > 0
            && IsUntr(untr, caches, Directories(items), Preorder(Directories(items), 0)) && IsFsmn(fsmn, caches.token, |items|)
  {
    hide Directories;
    hide IsUntr;
    hide IsFsmn;
    hide Appended;
    var items := PlainItems(index);
    untr, fsmn :|
      && Shaped(Directories(items.list)) && |Directories(items.list)| > 0
      && IsUntr(untr, caches, Directories(items.list), Preorder(Directories(items.list), 0))
      && IsFsmn(fsmn, caches.token, |items.list|)
      && out == if |untr| <= U32_MAX && |fsmn| <= U32_MAX then Some(Appended(index, untr, fsmn, sha1)) else None;
  }

  /**
   * Seeding leaves the answer about the staged tree alone, whatever the index, if an entry is unsettled or whole extensions
   * lead from the entries to a cache tree or the checksum.
   */
  lemma SeedingKeepsStagedTree(out: Option<ByteString>, index: ByteString, caches: Caches, sha1: ByteString -> Digest)
    requires Seeded(out, index, caches, sha1) && out.Some?
    requires (exists item <- PlainItems(index).list :: Unsettled(item)) || Whole(index, PlainItems(index).pos, |index| - 20)
    ensures StagedTree(out.value) == StagedTree(index)
  {
    hide *;
    var untr, fsmn := SeededBodies(out, index, caches, sha1);
    SameStagedTree(out.value, index, untr, fsmn, sha1);
  }

  lemma EntriesEnd(index: ByteString)
    requires Seedable(index)
    ensures Version2(index) && |index| >= 32 && PlainItems(index).ended
  {
  }

  lemma SameStagedTree(out: ByteString, index: ByteString, untr: ByteString, fsmn: ByteString, sha1: ByteString -> Digest)
    requires Seedable(index) && |untr| <= U32_MAX && |fsmn| <= U32_MAX
    requires out == Appended(index, untr, fsmn, sha1)
    requires (exists item <- PlainItems(index).list :: Unsettled(item)) || Whole(index, PlainItems(index).pos, |index| - 20)
    ensures StagedTree(out) == StagedTree(index)
  {
    hide *;
    SeededEntries(out, index, untr, fsmn, sha1);
    EntriesEnd(index);
    AppendedKeepsPrefix(index, untr, fsmn, sha1);
    AppendedScan(index, untr, fsmn, sha1);
    var items := PlainItems(index);
    if !exists item <- items.list :: Unsettled(item) {
      ScanIsLocal(index, out, items.pos, |index| - 20);
    }
    StagedTreeBy(out, index, items);
  }

  lemma StagedTreeBy(out: ByteString, index: ByteString, items: Items)
    requires Open(out).Ok? && Open(index) == Open(out)
    requires ReadAll(index, Open(index).value) == items && ReadAll(out, Open(out).value) == items
    requires (exists item <- items.list :: Unsettled(item)) || ScanForTree(out, items.pos) == ScanForTree(index, items.pos)
    ensures StagedTree(out) == StagedTree(index)
  {
    hide Open;
    hide ReadAll;
    hide ScanForTree;
    hide Unsettled;
  }

  lemma StrayAppended(out: ByteString, index: ByteString, untr: ByteString, fsmn: ByteString, sha1: ByteString -> Digest)
    requires Seedable(index) && |untr| <= U32_MAX && |fsmn| <= U32_MAX
    requires out == Appended(index, untr, fsmn, sha1) && |out| < 0x5200_0000
    requires PlainItems(index).pos + 21 == |index|
    ensures ScanForTree(index, PlainItems(index).pos) == Ok(None)
    ensures ScanForTree(out, PlainItems(index).pos) == Err(Truncated)
  {
    hide Appended;
    hide PlainItems;
    hide MagicDirc;
    hide ScanForTree;
    hide BE32;
    hide UntrSignature;
    hide FsmnSignature;
    AppendedKeepsPrefix(index, untr, fsmn, sha1);
    ScanAtEnd(index, PlainItems(index).pos);
    var x, y, digest := UntrSignature() + BE32(|untr|) + untr, FsmnSignature() + BE32(|fsmn|) + fsmn, sha1(out[..|out| - 20]);
    Assoc(x, y, digest);
    StrayScan(out, PlainItems(index).pos, untr, BE32(|untr|), y + digest);
  }

  /** The condition is not idle: after one stray byte the seeded file no longer scans, where the index had no tree. */
  lemma StrayByteBreaksScan(out: Option<ByteString>, index: ByteString, caches: Caches, sha1: ByteString -> Digest)
    requires Seeded(out, index, caches, sha1) && out.Some? && |out.value| < 0x5200_0000
    requires PlainItems(index).pos + 21 == |index| && !exists item <- PlainItems(index).list :: Unsettled(item)
    ensures StagedTree(index) == Ok(None) && StagedTree(out.value) == Err(Truncated)
  {
    hide *;
    var untr, fsmn := SeededBodies(out, index, caches, sha1);
    SeededEntries(out.value, index, untr, fsmn, sha1);
    StrayAppended(out.value, index, untr, fsmn, sha1);
    EntriesEnd(index);
    SettledScans(index, PlainItems(index));
    SettledScans(out.value, PlainItems(index));
  }

  lemma SettledScans(index: ByteString, items: Items)
    requires Open(index).Ok? && ReadAll(index, Open(index).value) == items
    requires items.ended && !exists item <- items.list :: Unsettled(item)
    ensures StagedTree(index) == ScanForTree(index, items.pos)
  {
    hide Open;
    hide ReadAll;
    hide ScanForTree;
    hide Unsettled;
  }

  lemma StrayScan(out: ByteString, pos: nat, untr: ByteString, size: ByteString, rest: ByteString)
    requires pos + 28 <= |out| < 0x5200_0000 && out[pos + 1..] == (UntrSignature() + size + untr) + rest && |size| == 4
    ensures ScanForTree(out, pos) == Err(Truncated)
  {
    assert TreeSignature()[1] == 82 && UntrSignature()[0] == 85 && UntrSignature()[3] == 82;
    hide ScanForTree;
    hide TreeSignature;
    hide UntrSignature;
    hide RootOf;
    ScanUnfolds(out, pos);
    var tail := out[pos + 1..];
    assert out[pos + 1] == tail[0] == 85 && out[pos + 4] == tail[3] == 82;
    assert out[pos..pos + 4][1] == 85 && out[pos + 4..pos + 8][0] == 82;
  }

  lemma NotTree(x: Extension, y: Extension)
    requires x.signature == UntrSignature() && y.signature == FsmnSignature()
    ensures x.signature != TreeSignature() && y.signature != TreeSignature() && FirstTree([x, y]) == None
  {
    assert TreeSignature()[0] == 84 && UntrSignature()[0] == 85 && FsmnSignature()[0] == 70;
    hide RootOf;
    var two, one := [x, y], [y];
    assert two[1..] == one && |one[1..]| == 0;
    assert FirstTree(one[1..]) == None;
    assert FirstTree(one) == None;
  }

  /** A region of extensions before a checksum is whole. */
  lemma {:induction false} RegionIsWhole(index: ByteString, pos: nat, xs: seq<Extension>, digest: Digest)
    requires forall x <- xs :: ValidExtension(x)
    requires |index| >= 20 && pos <= |index| && index[pos..] == ExtensionsBytes(xs) + digest
    ensures Whole(index, pos, |index| - 20)
    decreases |xs|
  {
    hide TreeSignature;
    hide BE32;
    hide FromBE32;
    hide ExtensionBytes;
    if |xs| > 0 {
      ExtensionLength(xs[0]);
      assert index[pos..] == ExtensionBytes(xs[0]) + (ExtensionsBytes(xs[1..]) + digest);
      ExtensionParts(index, pos, xs[0], ExtensionsBytes(xs[1..]) + digest);
      RegionIsWhole(index, pos + 8 + |xs[0].body|, xs[1..], digest);
    }
  }

  // ---------------------------------------------------------------------------
  // The index this code writes is one it seeds
  // ---------------------------------------------------------------------------

  lemma PlainStep(bytes: ByteString, pos: nat, remaining: nat, e: RawEntry, rest: ByteString)
    requires WellFormed(e) && e.extended.None? && Readable(e.item.path) && remaining > 0 && pos <= |bytes|
    requires bytes[pos..] == EncodePadded(e) + rest
    ensures var next := pos + |EncodePadded(e)|;
            var tail := ReadPlain(bytes, next, remaining - 1);
            ReadPlain(bytes, pos, remaining) == Items([e.item] + tail.list, tail.ended, tail.pos)
  {
    hide ReadHead;
    hide ReadPadded;
    hide EncodePadded;
    hide ReadPlain;
    hide Fixed;
    hide ExtendedFlags;
    hide EncodedTail;
    hide WellFormed;
    hide Readable;
    var st := CursorState(2, remaining, pos, []);
    PaddedInverts(bytes, st, e, rest);
    ReadPlainUnfolds(bytes, pos, remaining);
    EncodedHead(e, rest);
    ReadHeadInverts(bytes, pos, e, EncodedTail(e) + rest);
  }

  /** What follows the fixed part of an encoded entry. */
  function EncodedTail(e: RawEntry): ByteString {
    e.item.path + Zeros(PaddedLength(62 + |ExtendedFlags(e)| + |e.item.path|) - (62 + |ExtendedFlags(e)| + |e.item.path|))
  }

  lemma EncodedHead(e: RawEntry, rest: ByteString)
    requires WellFormed(e)
    ensures EncodePadded(e) + rest == Fixed(e) + ExtendedFlags(e) + (EncodedTail(e) + rest)
  {
    hide Fixed;
    hide ExtendedFlags;
  }

  lemma {:induction false} PlainListInverts(bytes: ByteString, pos: nat, es: seq<RawEntry>, rest: ByteString)
    requires AllWellFormed(es) && pos <= |bytes| && bytes[pos..] == PaddedList(es) + rest
    requires forall i :: 0 <= i < |es| ==> es[i].extended.None? && Readable(es[i].item.path)
    ensures ReadPlain(bytes, pos, |es|) == Items(ItemsOf(es), true, pos + |PaddedList(es)|)
    decreases |es|
  {
    hide EncodePadded;
    hide Readable;
    hide ReadPlain;
    if |es| == 0 {
      ReadPlainDone(bytes, pos);
      assert ItemsOf(es) == [];
    } else {
      var e, next := es[0], pos + |EncodePadded(es[0])|;
      Assoc(EncodePadded(e), PaddedList(es[1..]), rest);
      assert ItemsOf(es) == [e.item] + ItemsOf(es[1..]);
      hide PaddedList;
      hide ItemsOf;
      PlainStep(bytes, pos, |es|, e, PaddedList(es[1..]) + rest);
      assert bytes[next..] == bytes[pos..][|EncodePadded(e)|..];
      PlainListInverts(bytes, next, es[1..], rest);
    }
  }

  /** A written index whose paths are readable is seedable, and whole extensions follow its entries. */
  lemma WrittenIsSeedable(file: ByteString, entries: seq<IndexWriter.IndexEntry>, time: IndexWriter.Timestamp,
                          root: Option<CacheTrees.CacheTree>, sha1: ByteString -> Digest)
    requires IndexWriter.Written(file, entries, time, root, sha1)
    requires forall e <- entries :: Readable(e.path)
    ensures IndexWriter.AllSha1Entries(entries) && IndexWriter.TreeExtensions(root, IndexWriter.Paths(entries)).Ok?
    ensures |file| >= 20
    ensures Seedable(file) && Whole(file, PlainItems(file).pos, |file| - 20)
    ensures PlainItems(file).list == IndexWriter.Expected(entries)
  {
    hide *;
    IndexWriter.WrittenShape(file, entries, time, root, sha1);
    IndexWriter.ItemsAreExpected(entries, time);
    IndexWriter.ReadableEntries(entries, time);
    WholeExtensions(root, IndexWriter.Paths(entries));
    var raws, extensions := IndexWriter.RawList(entries, time), IndexWriter.TreeExtensions(root, IndexWriter.Paths(entries)).value;
    PlainRaws(entries, time);
    ShapeIsWhole(file, raws, extensions, sha1(file[..|file| - 20]));
  }

  lemma PlainRaws(entries: seq<IndexWriter.IndexEntry>, time: IndexWriter.Timestamp)
    requires IndexWriter.AllSha1Entries(entries)
    ensures AllWellFormed(IndexWriter.RawList(entries, time)) && |IndexWriter.RawList(entries, time)| == |entries|
    ensures forall e <- IndexWriter.RawList(entries, time) :: e.extended.None?
  {
  }

  lemma WholeExtensions(root: Option<CacheTrees.CacheTree>, paths: seq<ByteString>)
    requires IndexWriter.TreeExtensions(root, paths).Ok?
    ensures forall x <- IndexWriter.TreeExtensions(root, paths).value :: ValidExtension(x)
  {
  }

  lemma ShapeIsWhole(file: ByteString, raws: seq<RawEntry>, extensions: seq<Extension>, digest: Digest)
    requires AllWellFormed(raws) && |raws| <= 0xFFFF_FFFF
    requires forall x <- extensions :: ValidExtension(x)
    requires file == Header(2, |raws|) + (PaddedList(raws) + (ExtensionsBytes(extensions) + digest))
    requires forall e <- raws :: e.extended.None? && Readable(e.item.path)
    ensures Seedable(file) && PlainItems(file).list == ItemsOf(raws) && Whole(file, PlainItems(file).pos, |file| - 20)
  {
    hide PaddedList;
    hide AllWellFormed;
    hide Readable;
    hide ReadPlain;
    hide Whole;
    hide ExtensionsBytes;
    hide Header;
    hide MagicDirc;
    ShapeIsSeedable(file, raws, ExtensionsBytes(extensions) + digest);
    RegionIsWhole(file, PlainItems(file).pos, extensions, digest);
  }

  lemma ShapeIsSeedable(file: ByteString, raws: seq<RawEntry>, rest: ByteString)
    requires AllWellFormed(raws) && |raws| <= 0xFFFF_FFFF && |rest| >= 20
    requires file == Header(2, |raws|) + (PaddedList(raws) + rest)
    requires forall i :: 0 <= i < |raws| ==> raws[i].extended.None? && Readable(raws[i].item.path)
    ensures Seedable(file) && PlainItems(file).list == ItemsOf(raws) && file[PlainItems(file).pos..] == rest
  {
    hide PaddedList;
    hide AllWellFormed;
    hide Readable;
    hide ReadPlain;
    hide MagicDirc;
    hide BE32;
    hide FromBE32;
    var tail := PaddedList(raws) + rest;
    assert file[..4] == MagicDirc() && file[4..8] == BE32(2) && file[8..12] == BE32(|raws|) && file[12..] == tail;
    RoundTrip32(|raws|);
    PlainListInverts(file, 12, raws, rest);
    assert file[12 + |PaddedList(raws)|..] == tail[|PaddedList(raws)|..];
  }

  /** From commit to seeded workspace: the seeded form of a written index stages exactly what the written one does. */
  lemma SeededWrittenIndex(file: ByteString, entries: seq<IndexWriter.IndexEntry>, time: IndexWriter.Timestamp,
                           root: CacheTrees.CacheTree, out: Option<ByteString>, caches: Caches, sha1: ByteString -> Digest)
    requires IndexWriter.Written(file, entries, time, Some(root), sha1) && |root.name| == 0
    requires forall e <- entries :: Readable(e.path)
    requires Seeded(out, file, caches, sha1) && out.Some?
    ensures StagedDifference(file, out.value) == Ok(None)
    ensures StagedTree(out.value) == Ok(Some(root.oid.raw))
  {
    WrittenIsSeedable(file, entries, time, Some(root), sha1);
    IndexWriter.StagesItsRoot(file, entries, time, Some(root), sha1);
    hide *;
    SeedingStagesNothing(out, file, caches, sha1);
    SeedingKeepsStagedTree(out, file, caches, sha1);
  }
}
