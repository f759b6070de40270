/** Reading an untracked-cache body back: header, directory stream, bitmaps, IDs. */
module UntrReader {
  import opened Wrappers
  import opened Bytes
  import opened GitTypes
  import opened IndexFormat
  import opened Components
  import opened DirectoryTables
  import opened DirectoryTrees
  import opened WorkspaceCaches
  import Varint
  import Ewah
  import Sorting

  /** What stands before the directories. */
  datatype UntrFields = UntrFields(
    ident: ByteString, excludeStats: ByteString, dirFlags: U32, infoExclude: ByteString, excludesFile: ByteString,
    perDirectory: ByteString, count: nat)

  datatype Untr = Untr(
    head: UntrFields, tree: DirTree, valid: seq<bool>, checkOnly: seq<bool>, marked: seq<bool>, stats: ByteString, ids: seq<Digest>)

  // ---------------------------------------------------------------------------
  // Pieces
  // ---------------------------------------------------------------------------

  /** What follows the ident, up to and with the directory count. */
  function ReadFixed(s: ByteString, ident: ByteString): (r: Option<Parsed<UntrFields>>)
    ensures r.Some? ==> r.value.used <= |s| && |r.value.value.infoExclude| == 20 && |r.value.value.excludesFile| == 20
  {
    hide Position;
    if |s| < 116 then None
    else
      match Position(s[116..], NUL)
      case None => None
      case Some(k) =>
        match Varint.DecodeWrapping(s[117 + k..], 0)
        case None => None
        case Some(count) =>
          Some(Parsed(UntrFields(ident, s[..72], FromBE32(s[72..76]), s[76..96], s[96..116], s[116..116 + k], count.value), 117 + k + count.used))
  }

  function ReadUntrHead(s: ByteString): (r: Option<Parsed<UntrFields>>)
    ensures r.Some? ==> r.value.used <= |s| && |r.value.value.infoExclude| == 20 && |r.value.value.excludesFile| == 20
  {
    hide ReadFixed;
    match Varint.DecodeWrapping(s, 0)
    case None => None
    case Some(length) =>
      var a := length.used + length.value;
      if length.value == 0 || a > |s| || s[a - 1] != NUL then None
      else
        match ReadFixed(s[a..], s[length.used..a - 1])
        case None => None
        case Some(head) => Some(Parsed(head.value, a + head.used))
  }

  /** A bitmap of exactly `n` bits. */
  function ReadBits(s: ByteString, n: nat): (r: Option<Parsed<seq<bool>>>)
    ensures r.Some? ==> r.value.used <= |s| && |r.value.value| == n
  {
    match Ewah.Parse(s)
    case None => None
    case Some(b) =>
      if b.bits != n || |b.plain| != Ewah.WordCount(n) || b.used > |s| then None
      else Some(Parsed(seq(n, k requires 0 <= k < n => Ewah.Bit(b.plain[k / 64], k % 64)), b.used))
  }

  function Trues(bits: seq<bool>): (n: nat)
    ensures n <= |bits|
  {
    if |bits| == 0 then 0 else (if bits[0] then 1 else 0) + Trues(bits[1..])
  }

  function ReadIds(s: ByteString, n: nat): (r: seq<Digest>)
    requires |s| >= 20 * n
    ensures |r| == n
    decreases n
  {
    if n == 0 then [] else [s[..20]] + ReadIds(s[20..], n - 1)
  }

  datatype Bitmaps = Bitmaps(valid: seq<bool>, checkOnly: seq<bool>, marked: seq<bool>)

  function ReadBitmaps(s: ByteString, n: nat): (r: Option<Parsed<Bitmaps>>)
    ensures r.Some? ==> r.value.used <= |s|
  {
    hide ReadBits;
    match ReadBits(s, n)
    case None => None
    case Some(valid) =>
      match ReadBits(s[valid.used..], n)
      case None => None
      case Some(checkOnly) =>
        match ReadBits(s[valid.used + checkOnly.used..], n)
        case None => None
        case Some(marked) =>
          Some(Parsed(Bitmaps(valid.value, checkOnly.value, marked.value), valid.used + checkOnly.used + marked.used))
  }

  /** The stat data of each valid directory, an ID for each marked one, and a final NUL that ends the body. */
  datatype Tail = Tail(stats: ByteString, ids: seq<Digest>)

  function ReadTail(s: ByteString, b: Bitmaps): Option<Tail> {
    var stats, ids := 36 * Trues(b.valid), 20 * Trues(b.marked);
    if |s| != stats + ids + 1 || s[stats + ids] != NUL then None
    else Some(Tail(s[..stats], ReadIds(s[stats..], Trues(b.marked))))
  }

  function ReadUntr(s: ByteString): Option<Untr> {
    hide ReadUntrHead;
    hide ReadTree;
    hide ReadBitmaps;
    hide ReadTail;
    match ReadUntrHead(s)
    case None => None
    case Some(head) =>
      var h := head.value;
      match ReadTree(s[head.used..])
      case None => None
      case Some(tree) =>
        var a := head.used + tree.used;
        match ReadBitmaps(s[a..], h.count)
        case None => None
        case Some(bitmaps) =>
          match ReadTail(s[a + bitmaps.used..], bitmaps.value)
          case None => None
          case Some(tail) =>
            Some(Untr(h, tree.value, bitmaps.value.valid, bitmaps.value.checkOnly, bitmaps.value.marked, tail.stats, tail.ids))
  }

  // ---------------------------------------------------------------------------
  // Each piece reads back
  // ---------------------------------------------------------------------------

  function FixedPart(caches: Caches, count: nat): ByteString {
    Zeros(72) + BE32(caches.dirFlags) + OrZero(caches.infoExclude) + OrZero(caches.excludesFile)
    + GitignoreName() + [NUL] + Varint.Encode(count)
  }

  lemma GitignoreHasNoNul()
    ensures NUL !in GitignoreName()
  {
  }

  lemma ReadFixedInverts(caches: Caches, count: nat, ident: ByteString, rest: ByteString)
    requires count <= U64_MAX
    ensures ReadFixed(FixedPart(caches, count) + rest, ident)
            == Some(Parsed(Fields(caches, count).(ident := ident), |FixedPart(caches, count)|))
  {
    GitignoreHasNoNul();
    hide Position;
    hide BE32;
    hide FromBE32;
    hide OrZero;
    hide GitignoreName;
    hide Varint.Encode;
    hide Varint.DecodeWrapping;
    var name, number := GitignoreName(), Varint.Encode(count);
    var s, tail := FixedPart(caches, count) + rest, number + rest;
    var named := name + [NUL] + tail;
    assert s[..72] == Zeros(72) && s[72..76] == BE32(caches.dirFlags) && s[76..96] == OrZero(caches.infoExclude) && s[96..116] == OrZero(caches.excludesFile);
    assert s[116..] == named;
    RoundTrip32(caches.dirFlags);
    assert named[|name|] == NUL && named[..|name|] == name;
    PositionUnique(named, NUL, |name|);
    assert s[117 + |name|..] == tail;
    assert s[116..116 + |name|] == name;
    Varint.WrappingRoundTrip(count, rest);
  }

  lemma HeadShape(caches: Caches, count: nat, rest: ByteString)
    ensures UntrHead(caches, count) + rest
            == Varint.Encode(|caches.ident| + 1) + (caches.ident + [NUL] + (FixedPart(caches, count) + rest))
    ensures |UntrHead(caches, count)| == |Varint.Encode(|caches.ident| + 1)| + |caches.ident| + 1 + |FixedPart(caches, count)|
  {
    hide BE32;
    hide OrZero;
    hide GitignoreName;
    hide Varint.Encode;
  }

  lemma ReadHeadInverts(caches: Caches, count: nat, rest: ByteString)
    requires count <= 0xFFFF_FFFF && |caches.ident| < U64_MAX
    ensures ReadUntrHead(UntrHead(caches, count) + rest)
            == Some(Parsed(Fields(caches, count), |UntrHead(caches, count)|))
  {
    HeadShape(caches, count, rest);
    hide UntrHead;
    hide FixedPart;
    hide ReadFixed;
    hide OrZero;
    hide GitignoreName;
    hide Varint.Encode;
    hide Varint.DecodeWrapping;
    var length, fixed := Varint.Encode(|caches.ident| + 1), FixedPart(caches, count) + rest;
    var tail := caches.ident + [NUL] + fixed;
    var s := length + tail;
    Varint.WrappingRoundTrip(|caches.ident| + 1, tail);
    var a := |length| + |caches.ident| + 1;
    assert s[a - 1] == NUL && s[|length|..a - 1] == caches.ident && s[a..] == fixed;
    ReadFixedInverts(caches, count, caches.ident, rest);
  }

  function BitsFrom(n: nat, set_: nat -> bool): (r: seq<bool>)
    ensures |r| == n && forall k :: 0 <= k < n ==> r[k] == set_(k)
  {
    seq(n, (k: nat) => set_(k))
  }

  lemma BitAt(plain: seq<U64>, n: nat, set_: nat -> bool, k: nat)
    requires Ewah.Holds(plain, n, set_) && k < n
    ensures k / 64 < |plain| && (Ewah.Bit(plain[k / 64], k % 64) <==> set_(k))
  {
    hide Ewah.Bit;
    Ewah.BitPosition(k, k / 64, k % 64);
    assert Ewah.Bit(plain[k / 64], k % 64) <==> 64 * (k / 64) + k % 64 < n && set_(64 * (k / 64) + k % 64);
  }

  lemma ReadBitsInverts(s: ByteString, n: nat, set_: nat -> bool, rest: ByteString)
    requires n <= 0xFFFF_FFFF && Ewah.Encodes(s, n, set_)
    ensures ReadBits(s + rest, n) == Some(Parsed(BitsFrom(n, set_), |s|))
  {
    hide Ewah.Parse;
    hide Ewah.Encodes;
    hide Ewah.Bit;
    hide Ewah.HoldsBelow;
    Ewah.BitmapRoundTrip(s, n, set_, rest);
    var b := Ewah.Parse(s + rest).value;
    forall k | 0 <= k < n ensures k / 64 < |b.plain| && (Ewah.Bit(b.plain[k / 64], k % 64) <==> set_(k)) {
      BitAt(b.plain, n, set_, k);
    }
    assert ReadBits(s + rest, n).value.value == BitsFrom(n, set_);
  }

  lemma ReadBitmapsInverts(valid: ByteString, checkOnly: ByteString, marked: ByteString, n: nat, marks: nat -> bool, rest: ByteString)
    requires n <= 0xFFFF_FFFF
    requires Ewah.Encodes(valid, n, Always()) && Ewah.Encodes(checkOnly, n, Never()) && Ewah.Encodes(marked, n, marks)
    ensures ReadBitmaps(valid + checkOnly + marked + rest, n)
            == Some(Parsed(Bitmaps(BitsFrom(n, Always()), BitsFrom(n, Never()), BitsFrom(n, marks)), |valid| + |checkOnly| + |marked|))
  {
    hide ReadBits;
    hide Ewah.Encodes;
    hide BitsFrom;
    var s := valid + checkOnly + marked + rest;
    assert s == valid + (checkOnly + (marked + rest));
    ReadBitsInverts(valid, n, Always(), checkOnly + (marked + rest));
    assert s[|valid|..] == checkOnly + (marked + rest);
    ReadBitsInverts(checkOnly, n, Never(), marked + rest);
    assert s[|valid| + |checkOnly|..] == marked + rest;
    ReadBitsInverts(marked, n, marks, rest);
  }

  // ---------------------------------------------------------------------------
  // One ID per marked directory
  // ---------------------------------------------------------------------------

  /** The IDs of the directories that have one, in order. */
  function IdList(table: seq<Dir>, order: seq<nat>): seq<Digest>
    requires InRange(order, |table|)
  {
    if |order| == 0 then []
    else
      (match table[order[0]].gitignore
       case Some(id) => [id]
       case None => [])
      + IdList(table, order[1..])
  }

  lemma {:induction false} IdsReadBack(table: seq<Dir>, order: seq<nat>, rest: ByteString)
    requires InRange(order, |table|)
    ensures |Ids(table, order)| == 20 * |IdList(table, order)|
    ensures ReadIds(Ids(table, order) + rest, |IdList(table, order)|) == IdList(table, order)
  {
    if |order| > 0 {
      IdsReadBack(table, order[1..], rest);
      var tail := Ids(table, order[1..]) + rest;
      match table[order[0]].gitignore {
        case Some(id) =>
          assert Ids(table, order) + rest == id + tail;
          assert (id + tail)[..20] == id && (id + tail)[20..] == tail;
        case None =>
          assert Ids(table, order) == Ids(table, order[1..]);
      }
    }
  }

  lemma {:induction false} MarksCountIds(table: seq<Dir>, order: seq<nat>, bits: seq<bool>)
    requires InRange(order, |table|) && |bits| == |order|
    requires forall k :: 0 <= k < |bits| ==> bits[k] == table[order[k]].gitignore.Some?
    ensures Trues(bits) == |IdList(table, order)|
  {
    if |order| > 0 {
      MarksCountIds(table, order[1..], bits[1..]);
    }
  }

  lemma {:induction false} AllTrue(bits: seq<bool>)
    requires forall k :: 0 <= k < |bits| ==> bits[k]
    ensures Trues(bits) == |bits|
  {
    if |bits| > 0 { AllTrue(bits[1..]); }
  }

  lemma ReadTailInverts(table: seq<Dir>, order: seq<nat>)
    requires InRange(order, |table|)
    ensures ReadTail(Zeros(36 * |order|) + Ids(table, order) + [NUL],
                     Bitmaps(BitsFrom(|order|, Always()), BitsFrom(|order|, Never()), BitsFrom(|order|, Marked(table, order))))
            == Some(Tail(Zeros(36 * |order|), IdList(table, order)))
  {
    var n := |order|;
    var s := Zeros(36 * n) + Ids(table, order) + [NUL];
    AllTrue(BitsFrom(n, Always()));
    MarksCountIds(table, order, BitsFrom(n, Marked(table, order)));
    IdsReadBack(table, order, [NUL]);
    hide Ids;
    hide IdList;
    hide Trues;
    hide ReadIds;
    assert s[..36 * n] == Zeros(36 * n) && s[36 * n..] == Ids(table, order) + [NUL];
  }

  // ---------------------------------------------------------------------------
  // The whole body
  // ---------------------------------------------------------------------------

  function Expected(caches: Caches, table: seq<Dir>, order: seq<nat>): Untr
    requires Shaped(table) && |table| > 0 && InRange(order, |table|)
  {
    Untr(Fields(caches, |order|), TreeAt(table, 0), BitsFrom(|order|, Always()), BitsFrom(|order|, Never()),
         BitsFrom(|order|, Marked(table, order)), Zeros(36 * |order|), IdList(table, order))
  }

  /** The header of a body: what it was given, an ID of zeros for one that was not, no stat data, and `.gitignore`. */
  ghost predicate IsHeader(head: UntrFields, caches: Caches, count: nat) {
    && head.ident == caches.ident && head.dirFlags == caches.dirFlags && head.count == count
    && |head.infoExclude| == |head.excludesFile| == 20 && |head.excludeStats| == 72
    && (caches.infoExclude.Some? ==> head.infoExclude == caches.infoExclude.value)
    && (caches.infoExclude.None? ==> forall k :: 0 <= k < 20 ==> head.infoExclude[k] == 0)
    && (caches.excludesFile.Some? ==> head.excludesFile == caches.excludesFile.value)
    && (caches.excludesFile.None? ==> forall k :: 0 <= k < 20 ==> head.excludesFile[k] == 0)
    && (forall k :: 0 <= k < 72 ==> head.excludeStats[k] == 0)
    && head.perDirectory == [46, 103, 105, 116, 105, 103, 110, 111, 114, 101]
  }

  lemma HeaderRead(caches: Caches, table: seq<Dir>, order: seq<nat>)
    requires Shaped(table) && |table| > 0 && InRange(order, |table|)
    ensures var u := Expected(caches, table, order);
            && IsHeader(u.head, caches, |order|) && |u.stats| == 36 * |order| && forall k :: 0 <= k < |u.stats| ==> u.stats[k] == 0
  {
    assert GitignoreName() == [46, 103, 105, 116, 105, 103, 110, 111, 114, 101];
  }

  /** The body reads back as the header it was given, the table's tree, its bitmaps, and one ID per set bit of the last. */
  lemma UntrRoundTrip(body: ByteString, caches: Caches, table: seq<Dir>)
    requires Shaped(table) && |table| > 0 && |Preorder(table, 0)| <= 0xFFFF_FFFF && |caches.ident| < U64_MAX
    requires IsUntr(body, caches, table, Preorder(table, 0)) && InRange(Preorder(table, 0), |table|)
    requires Printable(TreeAt(table, 0))
    ensures ReadUntr(body) == Some(Expected(caches, table, Preorder(table, 0)))
    ensures IsHeader(ReadUntr(body).value.head, caches, |Preorder(table, 0)|)
    ensures var u := ReadUntr(body).value; |u.stats| == 36 * u.head.count && forall k :: 0 <= k < |u.stats| ==> u.stats[k] == 0
  {
    hide *;
    var order := Preorder(table, 0);
    HeaderRead(caches, table, order);
    LinesAreStream(table, 0);
    var valid, checkOnly, marked := UntrBitmaps(body, caches, table, order);
    BitmapsAndTail(valid, checkOnly, marked, table, order);
    var tree, bitmaps := TreeAt(table, 0), valid + checkOnly + marked;
    var tail := Zeros(36 * |order|) + Ids(table, order) + [NUL];
    StreamDecodes(tree, bitmaps + tail);
    ReadHeadInverts(caches, |order|, StreamOf(tree) + (bitmaps + tail));
    Assemble(body, caches, table, order, StreamOf(tree), bitmaps, tail);
  }

  lemma UntrBitmaps(body: ByteString, caches: Caches, table: seq<Dir>, order: seq<nat>)
    returns (valid: ByteString, checkOnly: ByteString, marked: ByteString)
    requires IsUntr(body, caches, table, order)
    ensures InRange(order, |table|)
    ensures Ewah.Encodes(valid, |order|, Always()) && Ewah.Encodes(checkOnly, |order|, Never())
    ensures Ewah.Encodes(marked, |order|, Marked(table, order))
    ensures body == UntrHead(caches, |order|) + (Lines(table, order)
                    + (valid + checkOnly + marked + (Zeros(36 * |order|) + Ids(table, order) + [NUL])))
  {
    hide UntrBody;
    hide Ewah.Encodes;
    valid, checkOnly, marked :|
      && Ewah.Encodes(valid, |order|, Always())
      && Ewah.Encodes(checkOnly, |order|, Never())
      && Ewah.Encodes(marked, |order|, Marked(table, order))
      && body == UntrBody(caches, table, order, valid, checkOnly, marked);
    BodyShape(body, caches, table, order, valid, checkOnly, marked);
  }

  function Maps(table: seq<Dir>, order: seq<nat>): Bitmaps {
    Bitmaps(BitsFrom(|order|, Always()), BitsFrom(|order|, Never()), BitsFrom(|order|, Marked(table, order)))
  }

  function Fields(caches: Caches, count: nat): UntrFields {
    UntrFields(caches.ident, Zeros(72), caches.dirFlags, OrZero(caches.infoExclude), OrZero(caches.excludesFile), GitignoreName(), count)
  }

  lemma BitmapsAndTail(valid: ByteString, checkOnly: ByteString, marked: ByteString, table: seq<Dir>, order: seq<nat>)
    requires |order| <= 0xFFFF_FFFF && InRange(order, |table|)
    requires Ewah.Encodes(valid, |order|, Always()) && Ewah.Encodes(checkOnly, |order|, Never())
    requires Ewah.Encodes(marked, |order|, Marked(table, order))
    ensures var tail := Zeros(36 * |order|) + Ids(table, order) + [NUL];
            && ReadBitmaps(valid + checkOnly + marked + tail, |order|)
               == Some(Parsed(Maps(table, order), |valid + checkOnly + marked|))
            && ReadTail(tail, Maps(table, order)) == Some(Tail(Zeros(36 * |order|), IdList(table, order)))
  {
    hide ReadBitmaps;
    hide ReadTail;
    hide Ewah.Encodes;
    hide Ids;
    hide IdList;
    hide BitsFrom;
    ReadBitmapsInverts(valid, checkOnly, marked, |order|, Marked(table, order), Zeros(36 * |order|) + Ids(table, order) + [NUL]);
    ReadTailInverts(table, order);
  }

  lemma Regroup(a: ByteString, b: ByteString, c: ByteString, d: ByteString, e: ByteString, f: ByteString, g: ByteString, h: ByteString)
    ensures a + b + c + d + e + f + g + h == a + (b + (c + d + e + (f + g + h)))
  {
    var left := a + b + c + d + e;
    Assoc(left, f, g);
    Assoc(left, f + g, h);
    var right := c + d + e;
    Assoc(a, b, c);
    Assoc(a, b + c, d);
    Assoc(a, b + c + d, e);
    Assoc(b, c, d);
    Assoc(b, c + d, e);
    assert left == a + (b + right);
    Assoc(a, b + right, f + g + h);
    Assoc(b, right, f + g + h);
  }

  lemma BodyShape(body: ByteString, caches: Caches, table: seq<Dir>, order: seq<nat>, valid: ByteString, checkOnly: ByteString, marked: ByteString)
    requires InRange(order, |table|) && body == UntrBody(caches, table, order, valid, checkOnly, marked)
    ensures body == UntrHead(caches, |order|) + (Lines(table, order)
                    + (valid + checkOnly + marked + (Zeros(36 * |order|) + Ids(table, order) + [NUL])))
  {
    hide UntrHead;
    hide Lines;
    hide Ids;
    Regroup(UntrHead(caches, |order|), Lines(table, order), valid, checkOnly, marked, Zeros(36 * |order|), Ids(table, order), [NUL]);
  }

  lemma ReadUntrBy(s: ByteString, head: Parsed<UntrFields>, tree: Parsed<DirTree>, bitmaps: Parsed<Bitmaps>, tail: Tail)
    requires ReadUntrHead(s) == Some(head) && head.used <= |s|
    requires ReadTree(s[head.used..]) == Some(tree) && head.used + tree.used <= |s|
    requires ReadBitmaps(s[head.used + tree.used..], head.value.count) == Some(bitmaps) && head.used + tree.used + bitmaps.used <= |s|
    requires ReadTail(s[head.used + tree.used + bitmaps.used..], bitmaps.value) == Some(tail)
    requires |head.value.infoExclude| == 20 && |head.value.excludesFile| == 20
    ensures ReadUntr(s) == Some(Untr(head.value, tree.value, bitmaps.value.valid, bitmaps.value.checkOnly, bitmaps.value.marked,
                                     tail.stats, tail.ids))
  {
    hide ReadUntrHead;
    hide ReadTree;
    hide ReadBitmaps;
    hide ReadTail;
  }

  lemma Skips(a: ByteString, b: ByteString, c: ByteString, d: ByteString)
    ensures var s := a + (b + (c + d));
            s[|a|..] == b + (c + d) && s[|a| + |b|..] == c + d && s[|a| + |b| + |c|..] == d
  {
  }

  lemma Assemble(body: ByteString, caches: Caches, table: seq<Dir>, order: seq<nat>, stream: ByteString, bitmaps: ByteString, tail: ByteString)
    requires Shaped(table) && |table| > 0 && InRange(order, |table|)
    requires body == UntrHead(caches, |order|) + (stream + (bitmaps + tail))
    requires ReadUntrHead(body) == Some(Parsed(Fields(caches, |order|), |UntrHead(caches, |order|)|))
    requires ReadTree(stream + (bitmaps + tail)) == Some(Parsed(TreeAt(table, 0), |stream|))
    requires ReadBitmaps(bitmaps + tail, |order|) == Some(Parsed(Maps(table, order), |bitmaps|))
    requires ReadTail(tail, Maps(table, order)) == Some(Tail(Zeros(36 * |order|), IdList(table, order)))
    ensures ReadUntr(body) == Some(Expected(caches, table, order))
  {
    hide *;
    ExpectedIs(caches, table, order);
    Skips(UntrHead(caches, |order|), stream, bitmaps, tail);
    ReadUntrBy(body, Parsed(Fields(caches, |order|), |UntrHead(caches, |order|)|), Parsed(TreeAt(table, 0), |stream|),
               Parsed(Maps(table, order), |bitmaps|), Tail(Zeros(36 * |order|), IdList(table, order)));
  }

  lemma ExpectedIs(caches: Caches, table: seq<Dir>, order: seq<nat>)
    requires Shaped(table) && |table| > 0 && InRange(order, |table|)
    ensures var f, m := Fields(caches, |order|), Maps(table, order);
            && |f.infoExclude| == 20 && |f.excludesFile| == 20 && f.count == |order|
            && Expected(caches, table, order) == Untr(f, TreeAt(table, 0), m.valid, m.checkOnly, m.marked,
                                                      Zeros(36 * |order|), IdList(table, order))
  {
    hide TreeAt;
    hide BitsFrom;
    hide IdList;
  }

  // ---------------------------------------------------------------------------
  // What a reader learns from a seeded index
  // ---------------------------------------------------------------------------

  /** Siblings of every level in strictly increasing byte order. */
  predicate SiblingsSorted(tree: DirTree) {
    && (forall i, j :: 0 <= i < j < |tree.children| ==> Less(tree.children[i].name, tree.children[j].name))
    && forall c <- tree.children :: SiblingsSorted(c)
  }

  ghost predicate RowsSorted(table: seq<Dir>) {
    forall k, i, j :: 0 <= k < |table| && 0 <= i < j < |table[k].children| ==>
      Less(NameAt(table, table[k].children[i]), NameAt(table, table[k].children[j]))
  }

  lemma RowPairSorted(before: seq<Dir>, table: seq<Dir>, list: seq<DirPath>, k: nat, i: nat, j: nat)
    requires Represents(before, list) && table == SortedTable(before) && k < |table| && i < j < |table[k].children|
    ensures Less(NameAt(table, table[k].children[i]), NameAt(table, table[k].children[j]))
  {
    hide Represents;
    hide Sorting.Sort;
    hide Less;
    SiblingsIncrease(before, list, k, i, j);
  }

  lemma SortedRowsSorted(before: seq<Dir>, table: seq<Dir>, list: seq<DirPath>)
    requires Represents(before, list) && table == SortedTable(before)
    ensures RowsSorted(table)
  {
    hide Represents;
    hide SortedTable;
    hide NameAt;
    hide Less;
    forall k, i, j | 0 <= k < |table| && 0 <= i < j < |table[k].children|
      ensures Less(NameAt(table, table[k].children[i]), NameAt(table, table[k].children[j]))
    {
      RowPairSorted(before, table, list, k, i, j);
    }
  }

  lemma DirectoriesSorted(items: seq<Item>)
    requires StrictlySorted(PathsOf(items))
    ensures RowsSorted(Directories(items))
  {
    hide *;
    TableRepresents(items);
    DirectoriesOfSorted(items);
    SortedRowsSorted(TableOf(items), Directories(items), DirList(PathsOf(items)));
  }

  lemma {:induction false} TreeSorted(table: seq<Dir>, i: nat)
    requires Shaped(table) && RowsSorted(table) && i < |table|
    ensures SiblingsSorted(TreeAt(table, i))
    decreases |table| - i, 1, 0
  {
    TreesSorted(table, i, table[i].children);
  }

  lemma {:induction false} TreesSorted(table: seq<Dir>, lo: nat, cs: seq<nat>)
    requires Shaped(table) && RowsSorted(table) && lo < |table| && Within(table, lo, cs)
    ensures forall t <- TreesAt(table, lo, cs) :: SiblingsSorted(t)
    decreases |table| - lo, 0, |cs|
  {
    hide RowsSorted;
    hide SiblingsSorted;
    if |cs| > 0 {
      TreeSorted(table, cs[0]);
      TreesSorted(table, lo, cs[1..]);
    }
  }

  /** The names of a path's directories hold no NUL when the path does not. */
  lemma NamesNulFree(paths: seq<ByteString>, d: DirPath)
    requires d in DirList(paths) && forall p <- paths :: NUL !in p
    ensures NUL !in NameOf(d)
  {
    CreatesEveryAncestor(paths, d);
    if |d| > 0 {
      var i :| 0 <= i < |paths| && d <= DirOf(paths[i]);
      ComponentInPath(paths[i], |d| - 1);
      assert NameOf(d) == DirOf(paths[i])[|d| - 1];
      assert paths[i] in paths;
    }
  }

  lemma {:induction false} ComponentInPath(path: ByteString, k: nat)
    requires k < |DirOf(path)|
    ensures forall b <- DirOf(path)[k] :: b in path
    decreases k
  {
    FirstComponent(path);
    hide Split;
    hide DirOf;
    var name, rest := DirOf(path)[0], path[|DirOf(path)[0]| + 1..];
    assert path == name + [SLASH] + rest;
    if k > 0 {
      ComponentInPath(rest, k - 1);
      assert DirOf(path)[k] == DirOf(rest)[k - 1];
    }
  }

  lemma {:induction false} TreePrintable(table: seq<Dir>, i: nat)
    requires Shaped(table) && i < |table|
    requires forall k :: 0 <= k < |table| ==> NUL !in table[k].name && |table[k].children| <= U64_MAX
    ensures Printable(TreeAt(table, i))
    decreases |table| - i, 1, 0
  {
    TreesPrintable(table, i, table[i].children);
  }

  lemma {:induction false} TreesPrintable(table: seq<Dir>, lo: nat, cs: seq<nat>)
    requires Shaped(table) && lo < |table| && Within(table, lo, cs)
    requires forall k :: 0 <= k < |table| ==> NUL !in table[k].name && |table[k].children| <= U64_MAX
    ensures forall t <- TreesAt(table, lo, cs) :: Printable(t)
    decreases |table| - lo, 0, |cs|
  {
    hide Printable;
    if |cs| > 0 {
      TreePrintable(table, cs[0]);
      TreesPrintable(table, lo, cs[1..]);
    }
  }

  lemma TableSize(items: seq<Item>)
    requires StrictlySorted(PathsOf(items)) && |DirList(PathsOf(items))| <= 0xFFFF_FFFF
    requires forall p <- PathsOf(items) :: NUL !in p
    ensures var table := Directories(items);
            && Shaped(table) && |table| > 0 && InRange(Preorder(table, 0), |table|) && |Preorder(table, 0)| == |table| == |DirList(PathsOf(items))|
            && Printable(TreeAt(table, 0))
  {
    var table, list := Directories(items), DirList(PathsOf(items));
    DirectoriesRepresent(items);
    RowsBounded(table, list);
    PreorderPermutes(table, list);
    PreorderInRange(table, 0);
    RepresentsFacts(table, list);
    hide Represents;
    hide DirList;
    hide Directories;
    hide Shaped;
    hide Preorder;
    hide StrictlySorted;
    forall k | 0 <= k < |table| ensures NUL !in table[k].name {
      assert list[k] in list;
      NamesNulFree(PathsOf(items), list[k]);
    }
    TreePrintable(table, 0);
  }

  /** The IDs a list of directories should carry: one for each that has a `.gitignore`, in order. */
  function GitignoreIds(items: seq<Item>, dirs: seq<DirPath>): seq<Digest> {
    if |dirs| == 0 then []
    else
      (match GitignoreOf(items, dirs[0])
       case Some(id) => [id]
       case None => [])
      + GitignoreIds(items, dirs[1..])
  }

  ghost predicate RowsCarry(table: seq<Dir>, list: seq<DirPath>, items: seq<Item>) {
    |table| == |list| && forall k :: 0 <= k < |table| ==> table[k].gitignore == GitignoreOf(items, list[k])
  }

  lemma DirectoriesCarry(items: seq<Item>)
    requires StrictlySorted(PathsOf(items))
    ensures RowsCarry(Directories(items), DirList(PathsOf(items)), items)
  {
    hide Sorting.Sort;
    hide Directories;
    hide StrictlySorted;
    DirectoriesOfSorted(items);
    hide GitignoreOf;
    hide ChildrenOf;
    hide DirList;
  }

  lemma {:induction false} IdsByPath(table: seq<Dir>, list: seq<DirPath>, items: seq<Item>, order: seq<nat>)
    requires RowsCarry(table, list, items) && InRange(order, |list|)
    ensures InRange(order, |table|) && IdList(table, order) == GitignoreIds(items, PathsAt(list, order))
  {
    hide GitignoreOf;
    if |order| > 0 {
      assert PathsAt(list, order) == [list[order[0]]] + PathsAt(list, order[1..]);
      assert PathsAt(list, order)[1..] == PathsAt(list, order[1..]);
      IdsByPath(table, list, items, order[1..]);
    }
  }

  lemma PermutationCovers(list: seq<DirPath>, order: seq<nat>, d: DirPath)
    requires InRange(order, |list|) && multiset(order) == multiset(Indexes(|list|))
    ensures d in PathsAt(list, order) <==> d in list
  {
    var at := PathsAt(list, order);
    if d in list {
      var j :| 0 <= j < |list| && list[j] == d;
      assert Indexes(|list|)[j] in multiset(order);
      assert j in order;
      var k :| 0 <= k < |order| && order[k] == j;
      assert at[k] == d;
    }
    if d in at {
      var k :| 0 <= k < |at| && at[k] == d;
      assert list[order[k]] == d;
    }
  }

  lemma PermutationDistinct(list: seq<DirPath>, order: seq<nat>)
    requires Distinct(list) && InRange(order, |list|) && multiset(order) == multiset(Indexes(|list|))
    ensures Distinct(PathsAt(list, order))
  {
    forall i, j | 0 <= i < j < |order| ensures list[order[i]] != list[order[j]] {
      IndexesCount(|list|, order[i]);
      TwiceAt(order, i, j);
      assert order[i] != order[j];
      if order[i] < order[j] { assert list[order[i]] != list[order[j]]; } else { assert list[order[j]] != list[order[i]]; }
    }
  }

  lemma BitsByPath(table: seq<Dir>, list: seq<DirPath>, items: seq<Item>, order: seq<nat>, k: nat)
    requires RowsCarry(table, list, items) && InRange(order, |list|) && k < |order|
    ensures BitsFrom(|order|, Always())[k] && !BitsFrom(|order|, Never())[k]
    ensures BitsFrom(|order|, Marked(table, order))[k] <==> GitignoreOf(items, PathsAt(list, order)[k]).Some?
  {
    hide GitignoreOf;
  }

  lemma ReadResult(caches: Caches, items: seq<Item>, table: seq<Dir>, list: seq<DirPath>, order: seq<nat>)
    requires RowsCarry(table, list, items) && Shaped(table) && |table| > 0 && |table| == |list| && Distinct(list)
    requires list == DirList(PathsOf(items)) && InRange(order, |table|) && InRange(order, |list|)
    requires multiset(order) == multiset(Indexes(|list|))
    requires PathsIn(TreeAt(table, 0), []) == PathsAt(list, order)
    ensures var u := Expected(caches, table, order);
            var dirs := PathsIn(u.tree, []);
            && |u.valid| == |u.checkOnly| == |u.marked| == |dirs|
            && (forall d :: d in dirs <==> d == [] || Ancestor(d, PathsOf(items)))
            && Distinct(dirs)
            && (forall k :: 0 <= k < |dirs| ==>
                  u.valid[k] && !u.checkOnly[k] && (u.marked[k] <==> GitignoreOf(items, dirs[k]).Some?))
            && u.ids == GitignoreIds(items, dirs) && |order| == |dirs|
  {
    hide *;
    ExpectedIs(caches, table, order);
    MapsAre(table, order);
    var dirs := PathsAt(list, order);
    forall d ensures d in dirs <==> d == [] || Ancestor(d, PathsOf(items)) {
      PermutationCovers(list, order, d);
      CreatesEveryAncestor(PathsOf(items), d);
    }
    PermutationDistinct(list, order);
    forall k | 0 <= k < |dirs|
      ensures BitsFrom(|order|, Always())[k] && !BitsFrom(|order|, Never())[k]
      ensures BitsFrom(|order|, Marked(table, order))[k] <==> GitignoreOf(items, dirs[k]).Some?
    {
      BitsByPath(table, list, items, order, k);
    }
    IdsByPath(table, list, items, order);
  }

  lemma MapsAre(table: seq<Dir>, order: seq<nat>)
    ensures Maps(table, order).valid == BitsFrom(|order|, Always())
    ensures Maps(table, order).checkOnly == BitsFrom(|order|, Never())
    ensures Maps(table, order).marked == BitsFrom(|order|, Marked(table, order))
  {
  }

  /**
   * What an untracked cache says of some entries: one directory for the root and each ancestor of an entry, each exactly once
   * and under its parent; siblings in byte order; every directory valid, none check-only, no stat data; and one ID for each
   * directory whose bit says it has a `.gitignore`, that file's.
   */
  ghost predicate Describes(u: Untr, caches: Caches, items: seq<Item>) {
    var dirs := PathsIn(u.tree, []);
    && IsHeader(u.head, caches, |dirs|)
    && |u.valid| == |u.checkOnly| == |u.marked| == |dirs|
    && (forall d :: d in dirs <==> d == [] || Ancestor(d, PathsOf(items)))
    && Distinct(dirs) && SiblingsSorted(u.tree)
    && (forall k :: 0 <= k < |dirs| ==>
          u.valid[k] && !u.checkOnly[k] && (u.marked[k] <==> GitignoreOf(items, dirs[k]).Some?))
    && |u.stats| == 36 * |dirs| && (forall k :: 0 <= k < |u.stats| ==> u.stats[k] == 0)
    && u.ids == GitignoreIds(items, dirs)
  }

  /** A reader of a seeded index's untracked cache finds the directories of its entries. */
  lemma ReaderFindsTheDirectories(body: ByteString, caches: Caches, items: seq<Item>)
    requires StrictlySorted(PathsOf(items)) && |DirList(PathsOf(items))| <= 0xFFFF_FFFF && |caches.ident| < U64_MAX
    requires forall p <- PathsOf(items) :: NUL !in p
    requires Shaped(Directories(items)) && |Directories(items)| > 0
    requires IsUntr(body, caches, Directories(items), Preorder(Directories(items), 0))
    ensures ReadUntr(body).Some? && Describes(ReadUntr(body).value, caches, items)
  {
    var table, list := Directories(items), DirList(PathsOf(items));
    TableSize(items);
    DirectoriesRepresent(items);
    DirectoriesSorted(items);
    DirectoriesCarry(items);
    CreatesEachOnce(PathsOf(items));
    hide *;
    UntrRoundTrip(body, caches, table);
    TreePaths(table, list, 0);
    TreeSorted(table, 0);
    PreorderPermutes(table, list);
    ReadResult(caches, items, table, list, Preorder(table, 0));
    ExpectedIs(caches, table, Preorder(table, 0));
    Described(ReadUntr(body).value, caches, items);
  }

  lemma Described(u: Untr, caches: Caches, items: seq<Item>)
    requires var dirs := PathsIn(u.tree, []);
             && IsHeader(u.head, caches, |dirs|)
             && |u.valid| == |u.checkOnly| == |u.marked| == |dirs|
             && (forall d :: d in dirs <==> d == [] || Ancestor(d, PathsOf(items)))
             && Distinct(dirs) && SiblingsSorted(u.tree)
             && (forall k :: 0 <= k < |dirs| ==>
                   u.valid[k] && !u.checkOnly[k] && (u.marked[k] <==> GitignoreOf(items, dirs[k]).Some?))
             && |u.stats| == 36 * |dirs| && (forall k :: 0 <= k < |u.stats| ==> u.stats[k] == 0)
             && u.ids == GitignoreIds(items, dirs)
    ensures Describes(u, caches, items)
  {
    hide IsHeader;
    hide PathsIn;
    hide GitignoreOf;
    hide SiblingsSorted;
    hide Ancestor;
    hide Distinct;
  }
}
