/**
 * Index entries on disk (gitformat-index(5), "Index entry"): the encodings of
 * versions 2, 3 and 4, and the cursor that reads all three.
 */
module IndexFormat {
  import opened Wrappers
  import opened Bytes
  import opened GitTypes
  import Varint

  const NAME_MASK: nat := 0xFFF
  const EXTENDED: nat := 0x4000
  const INTENT_TO_ADD: nat := 0x2000

  /** All of a staged entry that two indexes are compared by, beside the path. */
  datatype Staged = Staged(stage: nat, mode: U32, oid: Digest, intentToAdd: bool)

  datatype Item = Item(path: ByteString, staged: Staged)

  // ---------------------------------------------------------------------------
  // The encodings
  // ---------------------------------------------------------------------------

  /** An entry with everything the format records beside what it stages. */
  datatype RawEntry = RawEntry(
    before: ByteString,     // ctime, mtime, dev, ino: 24 bytes
    after: ByteString,      // uid, gid, size: 12 bytes
    assumeValid: bool,
    extended: Option<U16>,  // the second flag word, when present
    item: Item)

  predicate WellFormed(e: RawEntry) {
    && |e.before| == 24 && |e.after| == 12
    && e.item.staged.stage < 4
    && e.item.staged.intentToAdd == (e.extended.Some? && e.extended.value / INTENT_TO_ADD % 2 == 1)
  }

  function NameLength(path: ByteString): (n: nat)
    ensures n <= NAME_MASK
  {
    if |path| < NAME_MASK then |path| else NAME_MASK
  }

  function Flags(e: RawEntry): U16
    requires WellFormed(e)
  {
    (if e.assumeValid then 0x8000 else 0) + (if e.extended.Some? then EXTENDED else 0)
    + e.item.staged.stage * 0x1000 + NameLength(e.item.path)
  }

  function Fixed(e: RawEntry): (r: ByteString)
    requires WellFormed(e)
    ensures |r| == 62
  {
    e.before + BE32(e.item.staged.mode) + e.after + e.item.staged.oid + BE16(Flags(e))
  }

  function ExtendedFlags(e: RawEntry): (r: ByteString)
    ensures |r| == if e.extended.Some? then 2 else 0
  {
    if e.extended.Some? then BE16(e.extended.value) else []
  }

  /** NULs up to a multiple of eight, at least one. */
  function PaddedLength(n: nat): nat {
    (n / 8 + 1) * 8
  }

  /** Versions 2 and 3. */
  function EncodePadded(e: RawEntry): ByteString
    requires WellFormed(e)
  {
    var body := Fixed(e) + ExtendedFlags(e) + e.item.path;
    body + Zeros(PaddedLength(|body|) - |body|)
  }

  /** Version 4, keeping the first `keep` bytes of the path before. */
  function EncodeCompressed(e: RawEntry, previous: ByteString, keep: nat): ByteString
    requires WellFormed(e) && keep <= |previous| && keep <= |e.item.path|
  {
    Fixed(e) + ExtendedFlags(e) + Varint.Encode(|previous| - keep) + e.item.path[keep..] + [NUL]
  }

  // ---------------------------------------------------------------------------
  // The cursor
  // ---------------------------------------------------------------------------

  datatype CursorState = CursorState(version: nat, remaining: nat, pos: nat, path: ByteString)

  datatype Step = Finished | Broken | Yielded(item: Item, next: CursorState)

  /** The part of an entry every version shares, and where it ends. */
  datatype Head = Head(staged: Staged, nameLength: nat, extended: bool, pos: nat)

  function ReadHead(bytes: ByteString, start: nat): (r: Option<Head>)
    ensures r.Some? ==> start + 62 <= r.value.pos <= |bytes| && r.value.nameLength <= NAME_MASK
  {
    if start + 62 > |bytes| then None
    else
      var fixed := bytes[start..start + 62];
      var flags := FromBE16(fixed[60..62]);
      var extended := flags / EXTENDED % 2 == 1;
      if extended && start + 64 > |bytes| then None
      else
        var pos := if extended then start + 64 else start + 62;
        var intentToAdd := extended && FromBE16(bytes[start + 62..start + 64]) / INTENT_TO_ADD % 2 == 1;
        Some(Head(Staged(flags / 0x1000 % 4, FromBE32(fixed[24..28]), fixed[40..60], intentToAdd),
                  flags % 0x1000, extended, pos))
  }

  datatype FoundName = FoundName(path: ByteString, pos: nat)

  /** The path of a version 2 or 3 entry: its recorded length, or up to a NUL when that saturates. */
  function ReadPadded(bytes: ByteString, start: nat, head: Head): (r: Option<FoundName>)
    requires start <= head.pos <= |bytes|
  {
    var rest := bytes[head.pos..];
    var length := if head.nameLength == NAME_MASK then Position(rest, NUL) else Some(head.nameLength);
    if length.None? || length.value > |rest| then None
    else Some(FoundName(rest[..length.value], start + (head.pos - start + length.value) / 8 * 8 + 8))
  }

  /** The path of a version 4 entry, against the one before. */
  function ReadCompressed(bytes: ByteString, head: Head, previous: ByteString): (r: Option<FoundName>)
    requires head.pos <= |bytes|
  {
    match Varint.DecodeWrapping(bytes[head.pos..], 0)
    case None => None
    case Some(strip) =>
      var rest := bytes[head.pos + strip.used..];
      match Position(rest, NUL)
      case None => None
      case Some(length) =>
        if strip.value > |previous| then None
        else Some(FoundName(previous[..|previous| - strip.value] + rest[..length], head.pos + strip.used + length + 1))
  }

  function Next(bytes: ByteString, st: CursorState): Step
  {
    if st.remaining == 0 then Finished
    else
      match ReadHead(bytes, st.pos)
      case None => Broken
      case Some(head) =>
        match (if st.version == 4 then ReadCompressed(bytes, head, st.path) else ReadPadded(bytes, st.pos, head))
        case None => Broken
        case Some(name) =>
          Yielded(Item(name.path, head.staged), CursorState(st.version, st.remaining - 1, name.pos, name.path))
  }

  /** Everything a cursor yields, whether it got to the end, and where it stopped. */
  datatype Items = Items(list: seq<Item>, ended: bool, pos: nat)

  function ReadAll(bytes: ByteString, st: CursorState): Items
    decreases st.remaining
  {
    match Next(bytes, st)
    case Finished => Items([], true, st.pos)
    case Broken => Items([], false, st.pos)
    case Yielded(item, next) =>
      var rest := ReadAll(bytes, next);
      Items([item] + rest.list, rest.ended, rest.pos)
  }

  function MagicDirc(): (r: ByteString)
    ensures |r| == 4
  {
    Ascii("DIRC")
  }

  function Open(bytes: ByteString): Result<CursorState> {
    if |bytes| < 12 || bytes[..4] != MagicDirc() then Err(NotAnIndex)
    else
      var version := FromBE32(bytes[4..8]);
      if !(2 <= version <= 4) then Err(UnsupportedVersion)
      else Ok(CursorState(version, FromBE32(bytes[8..12]), 12, []))
  }

  // ---------------------------------------------------------------------------
  // Reading inverts each encoding
  // ---------------------------------------------------------------------------

  lemma FlagFields(e: RawEntry)
    requires WellFormed(e)
    ensures var f := Flags(e);
            && (f / EXTENDED % 2 == 1 <==> e.extended.Some?)
            && f / 0x1000 % 4 == e.item.staged.stage
            && f % 0x1000 == NameLength(e.item.path)
  {
    var s, n := e.item.staged.stage, NameLength(e.item.path);
    var a, x := if e.assumeValid then 1 else 0, if e.extended.Some? then 1 else 0;
    assert Flags(e) == (a * 8 + x * 4 + s) * 0x1000 + n;
    assert Flags(e) / 0x1000 == a * 8 + x * 4 + s;
    assert Flags(e) / EXTENDED == a * 2 + x;
  }

  /** The shared head of an entry found at `start` reads back. */
  lemma ReadHeadInverts(bytes: ByteString, start: nat, e: RawEntry, rest: ByteString)
    requires WellFormed(e) && start <= |bytes|
    requires bytes[start..] == Fixed(e) + ExtendedFlags(e) + rest
    ensures ReadHead(bytes, start) ==
            Some(Head(e.item.staged, NameLength(e.item.path), e.extended.Some?, start + 62 + |ExtendedFlags(e)|))
    ensures bytes[start + 62 + |ExtendedFlags(e)|..] == rest
  {
    var s := bytes[start..];
    var st := e.item.staged;
    assert bytes[start..start + 62] == s[..62] == Fixed(e);
    var fixed := Fixed(e);
    assert fixed[24..28] == BE32(st.mode);
    assert fixed[40..60] == st.oid;
    assert fixed[60..62] == BE16(Flags(e));
    RoundTrip32(st.mode);
    RoundTrip16(Flags(e));
    FlagFields(e);
    if e.extended.Some? {
      assert bytes[start + 62..start + 64] == s[62..64] == BE16(e.extended.value);
      RoundTrip16(e.extended.value);
    }
    assert bytes[start + 62 + |ExtendedFlags(e)|..] == s[62 + |ExtendedFlags(e)|..];
  }

  /**
   * Where the head of an entry keeps what it stages, byte by byte: mode and ID in place, the stage in the two bits above
   * the twelve of the name length, the extended bit above those, and intent-to-add in bit 13 of the second flag word.
   */
  lemma HeadFields(bytes: ByteString, start: nat)
    ensures ReadHead(bytes, start).None? <==>
            start + 62 > |bytes| || (start + 64 > |bytes| && bytes[start + 60] / 64 % 2 == 1)
    ensures ReadHead(bytes, start).Some? ==>
            var h := ReadHead(bytes, start).value;
            && h.staged.mode == bytes[start + 24] as int * 0x100_0000 + bytes[start + 25] as int * 0x1_0000
                                + bytes[start + 26] as int * 0x100 + bytes[start + 27] as int
            && h.staged.oid == bytes[start + 40..start + 60]
            && h.staged.stage == bytes[start + 60] / 16 % 4
            && h.nameLength == bytes[start + 60] as int % 16 * 0x100 + bytes[start + 61] as int
            && (h.extended <==> bytes[start + 60] / 64 % 2 == 1)
            && (h.staged.intentToAdd <==> h.extended && bytes[start + 62] / 32 % 2 == 1)
            && h.pos == if h.extended then start + 64 else start + 62
  {
    if start + 62 <= |bytes| {
      hide FromBE16;
      FlagBits(bytes[start + 60], bytes[start + 61]);
      SliceOfSlice(bytes, start, start + 62, 60, 62);
      SliceOfSlice(bytes, start, start + 62, 24, 28);
      SliceOfSlice(bytes, start, start + 62, 40, 60);
      assert bytes[start + 60..start + 62] == [bytes[start + 60], bytes[start + 61]];
      if start + 64 <= |bytes| {
        FlagBits(bytes[start + 62], bytes[start + 63]);
        assert bytes[start + 62..start + 64] == [bytes[start + 62], bytes[start + 63]];
      }
    }
  }

  lemma FlagBits(high: Byte, low: Byte)
    ensures var flags := FromBE16([high, low]);
            && flags / EXTENDED % 2 == high as int / 64 % 2 && flags / INTENT_TO_ADD % 2 == high as int / 32 % 2
            && flags / 0x1000 % 4 == high as int / 16 % 4 && flags % 0x1000 == high as int % 16 * 0x100 + low as int
  {
    var flags: int := high * 0x100 + low;
    assert flags / EXTENDED == high / 64;
    assert flags / INTENT_TO_ADD == high / 32;
    assert flags / 0x1000 == high / 16;
  }

  /** Whether a padded entry can carry this path: short enough to be counted, or free of NULs. */
  predicate Readable(path: ByteString) {
    |path| < NAME_MASK || NUL !in path
  }

  /** How much of a padded path a reader takes. */
  function ReadLength(path: ByteString): (n: nat)
    ensures n <= |path|
    ensures n == |path| <==> Readable(path)
  {
    if |path| >= NAME_MASK && NUL in path then Position(path, NUL).value else |path|
  }

  lemma ReadPaddedInverts(bytes: ByteString, start: nat, head: Head, path: ByteString, pad: nat, rest: ByteString)
    requires start <= head.pos <= |bytes| && pad > 0 && head.nameLength == NameLength(path)
    requires bytes[head.pos..] == path + Zeros(pad) + rest
    ensures ReadPadded(bytes, start, head) ==
            Some(FoundName(path[..ReadLength(path)], start + (head.pos - start + ReadLength(path)) / 8 * 8 + 8))
  {
    hide Position;
    var tail, n := bytes[head.pos..], ReadLength(path);
    assert tail[..n] == path[..n];
    if |path| >= NAME_MASK {
      assert tail[n] == NUL;
      PositionUnique(tail, NUL, n);
    }
  }

  /** A version 2 or 3 entry reads back, and the cursor moves past its padding, exactly when its path is readable. */
  lemma PaddedInverts(bytes: ByteString, st: CursorState, e: RawEntry, rest: ByteString)
    requires WellFormed(e) && st.version != 4 && st.remaining > 0 && st.pos <= |bytes|
    requires bytes[st.pos..] == EncodePadded(e) + rest
    ensures var next := Next(bytes, st);
            if Readable(e.item.path) then
              next == Yielded(e.item, CursorState(st.version, st.remaining - 1, st.pos + |EncodePadded(e)|, e.item.path))
            else
              next.Yielded? && next.item != e.item
  {
    hide Fixed;
    hide ExtendedFlags;
    hide ReadHead;
    hide ReadPadded;
    hide ReadLength;
    hide Readable;
    var path := e.item.path;
    var size := 62 + |ExtendedFlags(e)| + |path|;
    var pad := PaddedLength(size) - size;
    var tail := path + Zeros(pad) + rest;
    assert EncodePadded(e) + rest == Fixed(e) + ExtendedFlags(e) + tail;
    ReadHeadInverts(bytes, st.pos, e, tail);
    var head := ReadHead(bytes, st.pos).value;
    ReadPaddedInverts(bytes, st.pos, head, path, pad, rest);
    assert path[..|path|] == path;
    assert |path[..ReadLength(path)]| == ReadLength(path);
  }

  /** How many bytes precede the first NUL, or the end. */
  function BeforeNul(s: ByteString): (n: nat)
    ensures n <= |s|
    ensures n == |s| <==> NUL !in s
  {
    if NUL in s then Position(s, NUL).value else |s|
  }

  /** The compressed path at `head.pos` reads back as the kept prefix and what precedes the first NUL. */
  lemma ReadCompressedInverts(bytes: ByteString, head: Head, previous: ByteString, strip: Varint.Decoded, added: ByteString, rest: ByteString)
    requires head.pos + strip.used <= |bytes| && strip.value <= |previous|
    requires Varint.DecodeWrapping(bytes[head.pos..], 0) == Some(strip)
    requires bytes[head.pos + strip.used..] == added + [NUL] + rest
    ensures ReadCompressed(bytes, head, previous) ==
            Some(FoundName(previous[..|previous| - strip.value] + added[..BeforeNul(added)],
                      head.pos + strip.used + BeforeNul(added) + 1))
  {
    hide Varint.DecodeWrapping;
    hide Position;
    var named, stop := added + [NUL] + rest, BeforeNul(added);
    assert named[..stop] == added[..stop];
    assert named[stop] == NUL;
    PositionUnique(named, NUL, stop);
  }

  /** A version 4 entry reads back against the path before it exactly when what it adds is free of NULs. */
  lemma CompressedInverts(bytes: ByteString, st: CursorState, e: RawEntry, keep: nat, rest: ByteString)
    requires WellFormed(e) && st.version == 4 && st.remaining > 0 && st.pos <= |bytes|
    requires keep <= |st.path| && keep <= |e.item.path| && |st.path| <= U64_MAX
    requires st.path[..keep] == e.item.path[..keep]
    requires bytes[st.pos..] == EncodeCompressed(e, st.path, keep) + rest
    ensures var next := Next(bytes, st);
            if NUL !in e.item.path[keep..] then
              next == Yielded(e.item, CursorState(4, st.remaining - 1,
                                                  st.pos + |EncodeCompressed(e, st.path, keep)|, e.item.path))
            else
              next.Yielded? && next.item != e.item
  {
    hide Fixed;
    hide ExtendedFlags;
    hide ReadHead;
    hide ReadCompressed;
    hide BeforeNul;
    hide Varint.Encode;
    hide Varint.DecodeWrapping;
    var added := e.item.path[keep..];
    var tail := Varint.Encode(|st.path| - keep) + (added + [NUL] + rest);
    assert EncodeCompressed(e, st.path, keep) + rest == Fixed(e) + ExtendedFlags(e) + tail;
    ReadHeadInverts(bytes, st.pos, e, tail);
    var head := ReadHead(bytes, st.pos).value;
    Varint.WrappingRoundTrip(|st.path| - keep, added + [NUL] + rest);
    assert bytes[head.pos + |Varint.Encode(|st.path| - keep)|..] == added + [NUL] + rest;
    ReadCompressedInverts(bytes, head, st.path, Varint.Decoded(|st.path| - keep, |Varint.Encode(|st.path| - keep)|), added, rest);
    assert e.item.path == e.item.path[..keep] + added;
    assert |added| == |added[..|added|]|;
    assert added[..|added|] == added;
  }

  // ---------------------------------------------------------------------------
  // Whole entry lists
  // ---------------------------------------------------------------------------

  function ItemsOf(es: seq<RawEntry>): (r: seq<Item>)
    ensures |r| == |es| && forall i :: 0 <= i < |es| ==> r[i] == es[i].item
  {
    seq(|es|, i requires 0 <= i < |es| => es[i].item)
  }

  predicate AllWellFormed(es: seq<RawEntry>) {
    forall e <- es :: WellFormed(e)
  }

  function PaddedList(es: seq<RawEntry>): ByteString
    requires AllWellFormed(es)
  {
    if |es| == 0 then [] else EncodePadded(es[0]) + PaddedList(es[1..])
  }

  /** How many bytes of the path before each entry keeps: any common prefix will do. */
  predicate KeepsFit(es: seq<RawEntry>, previous: ByteString, keeps: seq<nat>) {
    |keeps| == |es| &&
    (|es| > 0 ==>
      && keeps[0] <= |previous| <= U64_MAX && keeps[0] <= |es[0].item.path|
      && previous[..keeps[0]] == es[0].item.path[..keeps[0]]
      && KeepsFit(es[1..], es[0].item.path, keeps[1..]))
  }

  function CompressedList(es: seq<RawEntry>, previous: ByteString, keeps: seq<nat>): ByteString
    requires AllWellFormed(es) && KeepsFit(es, previous, keeps)
  {
    if |es| == 0 then []
    else EncodeCompressed(es[0], previous, keeps[0]) + CompressedList(es[1..], es[0].item.path, keeps[1..])
  }

  /** Versions 2 and 3: reading gives back the list, and stops right after it, exactly when every path is readable. */
  lemma {:induction false} PaddedListInverts(bytes: ByteString, st: CursorState, es: seq<RawEntry>, rest: ByteString)
    requires AllWellFormed(es) && st.version != 4 && st.remaining == |es| && st.pos <= |bytes|
    requires bytes[st.pos..] == PaddedList(es) + rest
    ensures (forall e <- es :: Readable(e.item.path)) ==>
              ReadAll(bytes, st) == Items(ItemsOf(es), true, st.pos + |PaddedList(es)|)
    ensures ReadAll(bytes, st).list == ItemsOf(es) <==> forall e <- es :: Readable(e.item.path)
    decreases |es|
  {
    hide *;
    if |es| == 0 {
      NoItems(es);
      NoPadding(es);
      ReadAllEnds(bytes, st);
    } else {
      var e, next := es[0], Next(bytes, st);
      ReadableCons(es);
      PaddedCons(es);
      ItemsCons(es);
      Assoc(EncodePadded(e), PaddedList(es[1..]), rest);
      PaddedInverts(bytes, st, e, PaddedList(es[1..]) + rest);
      ReadAllYields(bytes, st);
      if Readable(e.item.path) {
        AfterFirst(bytes, st.pos, EncodePadded(e), PaddedList(es[1..]) + rest);
        PaddedListInverts(bytes, next.next, es[1..], rest);
        ConsEqual(e.item, ReadAll(bytes, next.next).list, ItemsOf(es[1..]));
      } else {
        assert ReadAll(bytes, st).list[0] != ItemsOf(es)[0];
      }
    }
  }

  lemma NoItems(es: seq<RawEntry>)
    requires |es| == 0
    ensures ItemsOf(es) == [] && forall e <- es :: Readable(e.item.path)
  {
  }

  lemma NoPadding(es: seq<RawEntry>)
    requires |es| == 0
    ensures AllWellFormed(es) && PaddedList(es) == []
  {
  }

  lemma ItemsCons(es: seq<RawEntry>)
    requires |es| > 0
    ensures ItemsOf(es) == [es[0].item] + ItemsOf(es[1..])
  {
  }

  lemma PaddedCons(es: seq<RawEntry>)
    requires AllWellFormed(es) && |es| > 0
    ensures WellFormed(es[0]) && AllWellFormed(es[1..]) && PaddedList(es) == EncodePadded(es[0]) + PaddedList(es[1..])
  {
    hide EncodePadded;
    hide WellFormed;
  }

  lemma AfterFirst(bytes: ByteString, pos: nat, first: ByteString, rest: ByteString)
    requires pos <= |bytes| && bytes[pos..] == first + rest
    ensures pos + |first| <= |bytes| && bytes[pos + |first|..] == rest
  {
    assert bytes[pos + |first|..] == bytes[pos..][|first|..];
  }

  lemma ConsEqual<T>(x: T, a: seq<T>, b: seq<T>)
    ensures [x] + a == [x] + b <==> a == b
  {
    assert ([x] + a)[1..] == a && ([x] + b)[1..] == b;
  }

  lemma ReadableCons(es: seq<RawEntry>)
    requires |es| > 0
    ensures (forall e <- es :: Readable(e.item.path)) <==> Readable(es[0].item.path) && forall e <- es[1..] :: Readable(e.item.path)
  {
    hide Readable;
    assert es == [es[0]] + es[1..];
  }

  lemma ReadAllEnds(bytes: ByteString, st: CursorState)
    requires st.remaining == 0
    ensures ReadAll(bytes, st) == Items([], true, st.pos)
  {
  }

  lemma ReadAllYields(bytes: ByteString, st: CursorState)
    requires Next(bytes, st).Yielded?
    ensures var rest := ReadAll(bytes, Next(bytes, st).next);
            ReadAll(bytes, st) == Items([Next(bytes, st).item] + rest.list, rest.ended, rest.pos)
  {
    hide Next;
  }

  lemma NextShrinks(bytes: ByteString, st: CursorState)
    requires Next(bytes, st).Yielded?
    ensures Next(bytes, st).next.remaining < st.remaining
  {
  }

  /** No entry adds a NUL to what it keeps of the path before. */
  predicate AddedNulFree(es: seq<RawEntry>, keeps: seq<nat>)
    requires |keeps| == |es|
  {
    |es| == 0 || (keeps[0] <= |es[0].item.path| && NUL !in es[0].item.path[keeps[0]..] && AddedNulFree(es[1..], keeps[1..]))
  }

  lemma {:induction false} NulFreeAdds(es: seq<RawEntry>, previous: ByteString, keeps: seq<nat>)
    requires KeepsFit(es, previous, keeps)
    requires forall e <- es :: NUL !in e.item.path
    ensures |keeps| == |es| && AddedNulFree(es, keeps)
  {
    if |es| > 0 {
      NulFreeAdds(es[1..], es[0].item.path, keeps[1..]);
    }
  }

  /**
   * Version 4: the list reads back, from whatever prefixes the writer chose to share, exactly when no entry
   * adds a NUL to its shared prefix.
   */
  lemma {:induction false} CompressedListInverts(bytes: ByteString, st: CursorState, es: seq<RawEntry>, keeps: seq<nat>, rest: ByteString)
    requires AllWellFormed(es) && st.version == 4 && st.remaining == |es| && st.pos <= |bytes|
    requires KeepsFit(es, st.path, keeps)
    requires bytes[st.pos..] == CompressedList(es, st.path, keeps) + rest
    ensures |keeps| == |es|
    ensures AddedNulFree(es, keeps) ==>
              ReadAll(bytes, st) == Items(ItemsOf(es), true, st.pos + |CompressedList(es, st.path, keeps)|)
    ensures ReadAll(bytes, st).list == ItemsOf(es) <==> AddedNulFree(es, keeps)
    decreases |es|
  {
    hide *;
    CompressedCons(es, st.path, keeps);
    if |es| == 0 {
      NoItems(es);
      ReadAllEnds(bytes, st);
    } else {
      var e := es[0];
      var first, others := EncodeCompressed(e, st.path, keeps[0]), CompressedList(es[1..], e.item.path, keeps[1..]);
      ItemsCons(es);
      Assoc(first, others, rest);
      CompressedInverts(bytes, st, e, keeps[0], others + rest);
      ReadAllYields(bytes, st);
      if NUL !in e.item.path[keeps[0]..] {
        var next := Next(bytes, st).next;
        AfterFirst(bytes, st.pos, first, others + rest);
        CompressedListInverts(bytes, next, es[1..], keeps[1..], rest);
        ConsEqual(e.item, ReadAll(bytes, next).list, ItemsOf(es[1..]));
      } else {
        assert ReadAll(bytes, st).list[0] != ItemsOf(es)[0];
      }
    }
  }

  lemma CompressedCons(es: seq<RawEntry>, previous: ByteString, keeps: seq<nat>)
    requires AllWellFormed(es) && KeepsFit(es, previous, keeps)
    ensures |keeps| == |es|
    ensures |es| == 0 ==> CompressedList(es, previous, keeps) == [] && AddedNulFree(es, keeps)
    ensures |es| > 0 ==>
              && WellFormed(es[0]) && AllWellFormed(es[1..]) && KeepsFit(es[1..], es[0].item.path, keeps[1..])
              && keeps[0] <= |previous| <= U64_MAX && keeps[0] <= |es[0].item.path|
              && previous[..keeps[0]] == es[0].item.path[..keeps[0]]
              && CompressedList(es, previous, keeps)
                 == EncodeCompressed(es[0], previous, keeps[0]) + CompressedList(es[1..], es[0].item.path, keeps[1..])
              && (AddedNulFree(es, keeps) <==> NUL !in es[0].item.path[keeps[0]..] && AddedNulFree(es[1..], keeps[1..]))
  {
    hide EncodeCompressed;
    hide WellFormed;
  }

  function Header(version: U32, count: U32): (r: ByteString)
    ensures |r| == 12
  {
    MagicDirc() + BE32(version) + BE32(count)
  }

  /** What opens: `DIRC`, a version from 2 to 4 and a count, both big-endian; whatever follows them. */
  lemma OpensExactly(bytes: ByteString)
    ensures Open(bytes) == Err(NotAnIndex) <==> |bytes| < 12 || bytes[..4] != [68, 73, 82, 67]
    ensures Open(bytes).Ok? <==> |bytes| >= 12 && bytes[..4] == [68, 73, 82, 67] && bytes[4..7] == [0, 0, 0] && 2 <= bytes[7] <= 4
    ensures Open(bytes).Err? ==> Open(bytes).error == NotAnIndex || Open(bytes).error == UnsupportedVersion
    ensures Open(bytes).Ok? ==>
            var st := Open(bytes).value;
            && st.version == bytes[7] as int && st.pos == 12 && st.path == []
            && st.remaining == bytes[8] as int * 0x100_0000 + bytes[9] as int * 0x1_0000 + bytes[10] as int * 0x100 + bytes[11] as int
  {
    assert MagicDirc() == [68, 73, 82, 67];
    if |bytes| >= 12 {
      var version := bytes[4..8];
      assert version[0] == bytes[4] && version[1] == bytes[5] && version[2] == bytes[6] && version[3] == bytes[7];
      assert bytes[4..7] == [bytes[4], bytes[5], bytes[6]];
    }
  }

  lemma OpenHeader(version: U32, count: U32, rest: ByteString)
    requires 2 <= version <= 4
    ensures Open(Header(version, count) + rest) == Ok(CursorState(version, count, 12, []))
    ensures (Header(version, count) + rest)[12..] == rest
  {
    hide MagicDirc;
    var s := Header(version, count) + rest;
    assert s[..4] == MagicDirc();
    assert s[4..8] == BE32(version);
    assert s[8..12] == BE32(count);
    RoundTrip32(version);
    RoundTrip32(count);
  }

  /** One NUL-free entry list reads back the same from a version 2, 3 or 4 file, whatever follows it there. */
  lemma VersionsAgree(es: seq<RawEntry>, keeps: seq<nat>, version: U32, rest: ByteString, rest': ByteString)
    requires AllWellFormed(es) && |es| <= U32_MAX && 2 <= version <= 3
    requires KeepsFit(es, [], keeps)
    requires forall e <- es :: NUL !in e.item.path
    ensures var padded := Header(version, |es|) + (PaddedList(es) + rest);
            var compressed := Header(4, |es|) + (CompressedList(es, [], keeps) + rest');
            && Open(padded).Ok? && Open(compressed).Ok?
            && ReadAll(padded, Open(padded).value).list == ReadAll(compressed, Open(compressed).value).list == ItemsOf(es)
            && ReadAll(padded, Open(padded).value).ended && ReadAll(compressed, Open(compressed).value).ended
  {
    hide Open;
    hide ReadAll;
    hide PaddedList;
    hide CompressedList;
    hide KeepsFit;
    hide Readable;
    hide Header;
    hide AllWellFormed;
    forall e <- es ensures Readable(e.item.path) {
      NulFreeReadable(e.item.path);
    }
    OpenHeader(version, |es|, PaddedList(es) + rest);
    OpenHeader(4, |es|, CompressedList(es, [], keeps) + rest');
    NulFreeAdds(es, [], keeps);
    PaddedListInverts(Header(version, |es|) + (PaddedList(es) + rest), CursorState(version, |es|, 12, []), es, rest);
    CompressedListInverts(Header(4, |es|) + (CompressedList(es, [], keeps) + rest'), CursorState(4, |es|, 12, []), es, keeps, rest');
  }

  lemma NulFreeReadable(path: ByteString)
    requires NUL !in path
    ensures Readable(path)
  {
  }
}
