/**
 * Seeding an index with two extensions of gitformat-index(5): `UNTR`, the
 * untracked cache, and `FSMN`, the file system monitor's.
 */
module WorkspaceCaches {
  import opened Wrappers
  import opened Bytes
  import opened GitTypes
  import opened IndexFormat
  import opened Components
  import opened DirectoryTables
  import opened DirectoryTrees
  import Sorting
  import Varint
  import Ewah

  datatype Caches = Caches(
    ident: ByteString, dirFlags: U32, infoExclude: Option<Digest>, excludesFile: Option<Digest>, token: ByteString)

  // ---------------------------------------------------------------------------
  // Which indexes are read
  // ---------------------------------------------------------------------------

  /** The entries from `pos` on, as far as they are version 2 entries without extended flags. */
  function ReadPlain(index: ByteString, pos: nat, remaining: nat): Items
    decreases remaining
  {
    if remaining == 0 then Items([], true, pos)
    else
      match ReadHead(index, pos)
      case None => Items([], false, pos)
      case Some(head) =>
        if head.extended then Items([], false, pos)
        else
          match ReadPadded(index, pos, head)
          case None => Items([], false, pos)
          case Some(name) =>
            var rest := ReadPlain(index, name.pos, remaining - 1);
            Items([Item(name.path, head.staged)] + rest.list, rest.ended, rest.pos)
  }

  predicate Version2(index: ByteString) {
    |index| >= 32 && index[..4] == MagicDirc() && index[4..8] == BE32(2)
  }

  function PlainItems(index: ByteString): Items
    requires Version2(index)
  {
    ReadPlain(index, 12, FromBE32(index[8..12]))
  }

  /** An index this code wrote, or one like it: version 2, whole, no extended flags, room for the checksum. */
  predicate Seedable(index: ByteString) {
    Version2(index) && PlainItems(index).ended && PlainItems(index).pos + 20 <= |index|
  }

  // ---------------------------------------------------------------------------
  // The extensions
  // ---------------------------------------------------------------------------

  function OrZero(id: Option<Digest>): (r: ByteString)
    ensures |r| == 20
  {
    match id
    case Some(d) => d
    case None => Zeros(20)
  }

  function UntrHead(caches: Caches, count: nat): ByteString {
    Varint.Encode(|caches.ident| + 1) + caches.ident + [NUL] + Zeros(72) + BE32(caches.dirFlags)
    + OrZero(caches.infoExclude) + OrZero(caches.excludesFile) + GitignoreName() + [NUL] + Varint.Encode(count)
  }

  predicate HasGitignore(table: seq<Dir>, order: seq<nat>, i: nat) {
    i < |order| && order[i] < |table| && table[order[i]].gitignore.Some?
  }

  /** The bitmap of the directories with a `.gitignore`, by position in the stream. */
  function Marked(table: seq<Dir>, order: seq<nat>): nat -> bool {
    (i: nat) => HasGitignore(table, order, i)
  }

  function IdOf(dir: Dir): ByteString {
    match dir.gitignore
    case Some(id) => id
    case None => []
  }

  /** One ID per directory that has one, in stream order. */
  function Ids(table: seq<Dir>, order: seq<nat>): ByteString
    requires InRange(order, |table|)
  {
    if |order| == 0 then []
    else IdOf(table[order[0]]) + Ids(table, order[1..])
  }

  function UntrBody(caches: Caches, table: seq<Dir>, order: seq<nat>, valid: ByteString, checkOnly: ByteString, marked: ByteString): ByteString
    requires InRange(order, |table|)
  {
    UntrHead(caches, |order|) + Lines(table, order) + valid + checkOnly + marked
    + Zeros(36 * |order|) + Ids(table, order) + [NUL]
  }

  function Always(): nat -> bool {
    _ => true
  }

  function Never(): nat -> bool {
    _ => false
  }

  /** An untracked-cache body over a table: every directory valid, none check-only, those with a `.gitignore` marked. */
  ghost predicate IsUntr(body: ByteString, caches: Caches, table: seq<Dir>, order: seq<nat>)
  {
    InRange(order, |table|) &&
    exists valid, checkOnly, marked ::
      && Ewah.Encodes(valid, |order|, Always())
      && Ewah.Encodes(checkOnly, |order|, Never())
      && Ewah.Encodes(marked, |order|, Marked(table, order))
      && body == UntrBody(caches, table, order, valid, checkOnly, marked)
  }

  function FsmnBody(token: ByteString, dirty: ByteString): ByteString {
    BE32(2) + token + [NUL] + BE32(Low32(|dirty|)) + dirty
  }

  /** An fsmonitor body that marks none of `count` entries dirty. */
  ghost predicate IsFsmn(body: ByteString, token: ByteString, count: nat) {
    exists dirty :: Ewah.Encodes(dirty, count, Never()) && body == FsmnBody(token, dirty)
  }

  // ---------------------------------------------------------------------------
  // The loops
  // ---------------------------------------------------------------------------

  /** Every directory's children sorted by name, compared as bytes. */
  method SortSiblings(dirs: seq<Dir>) returns (r: seq<Dir>)
    ensures r == SortedTable(dirs)
  {
    hide Sorting.Sort;
    r := dirs;
    for k := 0 to |dirs|
      invariant |r| == |dirs|
      invariant forall j :: 0 <= j < k ==> r[j] == SortedRow(dirs, j)
      invariant forall j :: k <= j < |r| ==> r[j] == dirs[j]
    {
      var children := r[k].children;
      children := Sorting.Sort(SiblingOrder(dirs), children);
      r := r[k := r[k].(children := children)];
    }
  }

  /** What popping a stack to the end visits. */
  function Pending(table: seq<Dir>, stack: seq<nat>): seq<nat>
    requires Shaped(table) && InRange(stack, |table|)
  {
    if |stack| == 0 then []
    else Preorder(table, stack[|stack| - 1]) + Pending(table, stack[..|stack| - 1])
  }

  lemma {:induction false} PendingReversed(table: seq<Dir>, base: seq<nat>, lo: nat, cs: seq<nat>)
    requires Shaped(table) && InRange(base, |table|) && lo < |table| && Within(table, lo, cs)
    ensures InRange(base + Reverse(cs), |table|)
    ensures Pending(table, base + Reverse(cs)) == PreorderAll(table, lo, cs) + Pending(table, base)
  {
    if |cs| == 0 {
      NothingPending(table, base, lo, cs);
    } else {
      ForestCons(table, lo, cs);
      ReversedCons(base, cs);
      hide *;
      PendingReversed(table, base, lo, cs[1..]);
      PendingPush(table, base + Reverse(cs[1..]), cs[0]);
      Assoc(Preorder(table, cs[0]), PreorderAll(table, lo, cs[1..]), Pending(table, base));
    }
  }

  lemma NothingPending(table: seq<Dir>, base: seq<nat>, lo: nat, cs: seq<nat>)
    requires Shaped(table) && InRange(base, |table|) && lo < |table| && Within(table, lo, cs) && |cs| == 0
    ensures InRange(base + Reverse(cs), |table|)
    ensures Pending(table, base + Reverse(cs)) == PreorderAll(table, lo, cs) + Pending(table, base)
  {
    assert base + Reverse(cs) == base;
  }

  lemma ReversedCons(base: seq<nat>, cs: seq<nat>)
    requires |cs| > 0
    ensures base + Reverse(cs) == base + Reverse(cs[1..]) + [cs[0]]
  {
  }

  lemma PendingPush(table: seq<Dir>, base: seq<nat>, c: nat)
    requires Shaped(table) && InRange(base, |table|) && c < |table|
    ensures InRange(base + [c], |table|) && Pending(table, base + [c]) == Preorder(table, c) + Pending(table, base)
  {
    assert (base + [c])[..|base|] == base;
  }

  lemma PendingPop(table: seq<Dir>, stack: seq<nat>)
    requires Shaped(table) && InRange(stack, |table|) && |stack| > 0
    ensures var dir, base := stack[|stack| - 1], stack[..|stack| - 1];
            && InRange(base, |table|) && Within(table, dir, table[dir].children)
            && Pending(table, stack) == [dir] + PreorderAll(table, dir, table[dir].children) + Pending(table, base)
  {
  }

  /** Preorder by a stack of the directories still to visit. */
  method VisitOrder(table: seq<Dir>) returns (order: seq<nat>)
    requires Shaped(table) && |table| > 0
    ensures order == Preorder(table, 0)
  {
    order := [];
    var stack := [0];
    PendingOne(table);
    hide *;
    while |stack| > 0
      invariant InRange(stack, |table|)
      invariant order + Pending(table, stack) == Preorder(table, 0)
      decreases |Preorder(table, 0)| - |order|
    {
      ghost var before := order + Pending(table, stack);
      PendingPop(table, stack);
      var dir := stack[|stack| - 1];
      stack := stack[..|stack| - 1];
      PendingReversed(table, stack, dir, table[dir].children);
      ghost var below, base := PreorderAll(table, dir, table[dir].children), Pending(table, stack);
      assert order + ([dir] + below + base) == order + [dir] + (below + base);
      order := order + [dir];
      stack := stack + Reverse(table[dir].children);
    }
    PendingNothing(table, stack);
    assert order + [] == order;
  }

  lemma PendingOne(table: seq<Dir>)
    requires Shaped(table) && |table| > 0
    ensures InRange([0], |table|) && [] + Pending(table, [0]) == Preorder(table, 0)
  {
    assert [0 as nat][..0] == [];
  }

  lemma PendingNothing(table: seq<Dir>, stack: seq<nat>)
    requires Shaped(table) && |stack| == 0
    ensures InRange(stack, |table|) && Pending(table, stack) == []
  {
  }

  /** The pass over the entries: reading, and the directory table. */
  method ReadDirectories(index: ByteString, count: nat) returns (r: Option<seq<Dir>>, pos: nat)
    ensures r.Some? <==> ReadPlain(index, 12, count).ended
    ensures r.Some? ==> pos == ReadPlain(index, 12, count).pos && r.value == Pass(ReadPlain(index, 12, count).list).0
  {
    hide *;
    ghost var all := ReadPlain(index, 12, count);
    var dirs: seq<Dir> := [Dir([], [], None)];
    var open: seq<nat> := [];
    PassNothing([]);
    pos := 12;
    WholeSlices(all.list);
    for i := 0 to count
      invariant i <= |all.list|
      invariant (dirs, open) == Pass(all.list[..i]) && |dirs| > 0 && OpenIn(open, |dirs|)
      invariant ReadPlain(index, pos, count - i) == all.(list := all.list[i..])
    {
      ReadPlainUnfolds(index, pos, count - i);
      var head? := ReadHead(index, pos);
      if head?.None? {
        return None, pos;
      }
      var head := head?.value;
      if head.extended {
        return None, pos; // the writer never sets the extended flag
      }
      var name := ReadPadded(index, pos, head);
      if name.None? {
        return None, pos;
      }
      pos := name.value.pos;
      var item := Item(name.value.path, head.staged);
      NextItem(all.list, i, item, ReadPlain(index, pos, count - i - 1).list);
      PassMore(all.list[..i + 1]);
      dirs, open := AddEntry(dirs, open, item);
    }
    ReadPlainDone(index, pos);
    assert |all.list[count..]| == 0;
    r := Some(dirs);
  }

  lemma NextItem(list: seq<Item>, i: nat, item: Item, rest: seq<Item>)
    requires i <= |list| && list[i..] == [item] + rest
    ensures i < |list| && list[i] == item && list[..i + 1][..i] == list[..i] && list[..i + 1][i] == item && list[i + 1..] == rest
  {
    assert list[i] == list[i..][0] == item;
    assert list[i + 1..] == list[i..][1..];
  }

  lemma ReadPlainUnfolds(index: ByteString, pos: nat, remaining: nat)
    requires remaining > 0
    ensures ReadHead(index, pos).Some? ==> pos <= ReadHead(index, pos).value.pos <= |index|
    ensures ReadPlain(index, pos, remaining) ==
            match ReadHead(index, pos)
            case None => Items([], false, pos)
            case Some(head) =>
              if head.extended then Items([], false, pos)
              else
                match ReadPadded(index, pos, head)
                case None => Items([], false, pos)
                case Some(name) =>
                  var rest := ReadPlain(index, name.pos, remaining - 1);
                  Items([Item(name.path, head.staged)] + rest.list, rest.ended, rest.pos)
  {
    hide ReadHead;
    hide ReadPadded;
  }

  lemma ReadPlainDone(index: ByteString, pos: nat)
    ensures ReadPlain(index, pos, 0) == Items([], true, pos)
  {
  }

  method WriteUntrHead(caches: Caches, count: nat, untr: Vector<Byte>)
    requires |caches.ident| < U64_MAX && count <= U64_MAX
    modifies untr
    ensures untr.items == old(untr.items) + UntrHead(caches, count)
  {
    hide Varint.Encode;
    hide BE32;
    hide GitignoreName;
    Varint.EncodeVarint(|caches.ident| + 1, untr);
    untr.items := untr.items + caches.ident;
    untr.items := untr.items + [NUL];
    untr.items := untr.items + Zeros(72);
    untr.items := untr.items + BE32(caches.dirFlags);
    untr.items := untr.items + OrZero(caches.infoExclude);
    untr.items := untr.items + OrZero(caches.excludesFile);
    untr.items := untr.items + GitignoreName();
    untr.items := untr.items + [NUL];
    Varint.EncodeVarint(count, untr);
  }

  method WriteLines(table: seq<Dir>, order: seq<nat>, untr: Vector<Byte>)
    requires InRange(order, |table|)
    requires forall k :: 0 <= k < |table| ==> |table[k].children| <= U64_MAX
    modifies untr
    ensures untr.items == old(untr.items) + Lines(table, order)
  {
    ghost var head := untr.items;
    LinesNothing(table, order[..0], head);
    hide Lines;
    hide Varint.Encode;
    hide DirLine;
    for i := 0 to |order|
      invariant InRange(order[..i], |table|) && untr.items == head + Lines(table, order[..i])
    {
      LinesSnoc(table, order, i, head);
      Varint.EncodeVarint(0, untr);
      Varint.EncodeVarint(|table[order[i]].children|, untr);
      untr.items := untr.items + table[order[i]].name;
      untr.items := untr.items + [NUL];
    }
    assert order[..|order|] == order;
  }

  method WriteIds(table: seq<Dir>, order: seq<nat>, untr: Vector<Byte>)
    requires InRange(order, |table|)
    modifies untr
    ensures untr.items == old(untr.items) + Ids(table, order)
  {
    ghost var head := untr.items;
    LinesNothing(table, order[..0], head);
    hide Ids;
    for i := 0 to |order|
      invariant InRange(order[..i], |table|) && untr.items == head + Ids(table, order[..i])
    {
      IdsSnoc(table, order, i, head);
      match table[order[i]].gitignore {
        case Some(oid) => untr.items := untr.items + oid;
        case None =>
      }
    }
    assert order[..|order|] == order;
  }

  method WriteUntr(caches: Caches, table: seq<Dir>, order: seq<nat>) returns (body: ByteString)
    requires InRange(order, |table|)
    requires |caches.ident| < U64_MAX && |order| <= U64_MAX
    requires forall k :: 0 <= k < |table| ==> |table[k].children| <= U64_MAX
    ensures IsUntr(body, caches, table, order)
  {
    var untr := new Vector<Byte>();
    WriteUntrHead(caches, |order|, untr);
    assert untr.items == UntrHead(caches, |order|);
    WriteLines(table, order, untr);
    hide *;
    var valid := Ewah.Ewah(|order|, Always());
    var checkOnly := Ewah.Ewah(|order|, Never());
    var marked := Ewah.Ewah(|order|, Marked(table, order));
    untr.items := untr.items + valid;
    untr.items := untr.items + checkOnly;
    untr.items := untr.items + marked;
    untr.items := untr.items + Zeros(36 * |order|);
    WriteIds(table, order, untr);
    untr.items := untr.items + [NUL];
    body := untr.items;
    UntrIntro(body, caches, table, order, valid, checkOnly, marked);
  }

  lemma UntrIntro(body: ByteString, caches: Caches, table: seq<Dir>, order: seq<nat>, valid: ByteString, checkOnly: ByteString, marked: ByteString)
    requires InRange(order, |table|)
    requires Ewah.Encodes(valid, |order|, Always())
    requires Ewah.Encodes(checkOnly, |order|, Never())
    requires Ewah.Encodes(marked, |order|, Marked(table, order))
    requires body == UntrHead(caches, |order|) + Lines(table, order) + valid + checkOnly + marked
                     + Zeros(36 * |order|) + Ids(table, order) + [NUL]
    ensures IsUntr(body, caches, table, order)
  {
    hide Ewah.Encodes;
    hide UntrHead;
    hide Lines;
    hide Ids;
    assert body == UntrBody(caches, table, order, valid, checkOnly, marked);
  }

  lemma LinesNothing(table: seq<Dir>, order: seq<nat>, head: ByteString)
    requires |order| == 0
    ensures InRange(order, |table|) && head == head + Lines(table, order) && head == head + Ids(table, order)
  {
  }

  lemma LinesSnoc(table: seq<Dir>, order: seq<nat>, i: nat, head: ByteString)
    requires InRange(order, |table|) && i < |order|
    ensures InRange(order[..i], |table|) && InRange(order[..i + 1], |table|) && order[i] < |table|
    ensures head + Lines(table, order[..i]) + Varint.Encode(0) + Varint.Encode(|table[order[i]].children|)
            + table[order[i]].name + [NUL] == head + Lines(table, order[..i + 1])
  {
    assert order[..i + 1] == order[..i] + [order[i]];
    LinesConcat(table, order[..i], [order[i]]);
    assert [order[i]][1..] == [];
    assert Lines(table, [order[i]]) == DirLine(table[order[i]].name, |table[order[i]].children|);
  }

  lemma {:induction false} IdsConcat(table: seq<Dir>, a: seq<nat>, b: seq<nat>)
    requires InRange(a, |table|) && InRange(b, |table|)
    ensures InRange(a + b, |table|) && Ids(table, a + b) == Ids(table, a) + Ids(table, b)
  {
    if |a| == 0 {
      assert a + b == b;
    } else {
      assert (a + b)[1..] == a[1..] + b;
      IdsConcat(table, a[1..], b);
    }
  }

  lemma IdsOne(table: seq<Dir>, k: nat)
    requires k < |table|
    ensures InRange([k], |table|) && Ids(table, [k]) == IdOf(table[k])
  {
    assert [k][1..] == [];
  }

  lemma IdsSnoc(table: seq<Dir>, order: seq<nat>, i: nat, head: ByteString)
    requires InRange(order, |table|) && i < |order|
    ensures InRange(order[..i], |table|) && InRange(order[..i + 1], |table|) && order[i] < |table|
    ensures head + Ids(table, order[..i]) + IdOf(table[order[i]]) == head + Ids(table, order[..i + 1])
  {
    TakeSnoc(order, i);
    var before, last, upTo := order[..i], [order[i]], order[..i + 1];
    assert InRange(before, |table|) && InRange(last, |table|);
    hide *;
    IdsOne(table, order[i]);
    IdsConcat(table, before, last);
    Assoc(head, Ids(table, before), Ids(table, last));
  }

  method WriteFsmn(token: ByteString, count: nat) returns (body: ByteString)
    ensures IsFsmn(body, token, count)
  {
    hide Ewah.Encodes;
    body := BE32(2);
    body := body + token;
    body := body + [NUL];
    var dirty := Ewah.Ewah(count, Never());
    body := body + BE32(Low32(|dirty|));
    body := body + dirty;
    assert body == FsmnBody(token, dirty);
  }

  function UntrSignature(): (r: ByteString)
    ensures |r| == 4
  {
    Ascii("UNTR")
  }

  function FsmnSignature(): (r: ByteString)
    ensures |r| == 4
  {
    Ascii("FSMN")
  }

  /** The index without its checksum, the two extensions, and the new checksum. */
  function Appended(index: ByteString, untr: ByteString, fsmn: ByteString, sha1: ByteString -> Digest): ByteString
    requires |index| >= 20 && |untr| <= U32_MAX && |fsmn| <= U32_MAX
  {
    var content := index[..|index| - 20] + (UntrSignature() + BE32(|untr|) + untr) + (FsmnSignature() + BE32(|fsmn|) + fsmn);
    content + sha1(content)
  }

  /** The directories of an index, siblings sorted, in stream order. */
  function Directories(items: seq<Item>): (r: seq<Dir>)
    ensures |r| > 0
  {
    SortedTable(Pass(items).0)
  }

  /** Every turn of the pass hangs a new directory below an older one. */
  lemma {:induction false} OpenedIsShaped(dirs: seq<Dir>, open: seq<nat>, names: seq<Name>)
    requires |dirs| > 0 && OpenIn(open, |dirs|) && Shaped(dirs)
    ensures Shaped(Opened(dirs, open, names).0)
    decreases |names|
  {
    if |names| > 0 {
      var parent, grown := Top(open), Grown(dirs, Top(open), names[0]);
      forall k | 0 <= k < |grown| ensures Within(grown, k, grown[k].children) {
        if k < |dirs| {
          assert Within(dirs, k, dirs[k].children);
        }
      }
      OpenedIsShaped(grown, open + [|dirs|], names[1..]);
    }
  }

  /** For entries in any order the pass builds a table in which children come after their parents. */
  lemma {:induction false} PassIsShaped(items: seq<Item>)
    ensures Shaped(Pass(items).0)
  {
    if |items| > 0 {
      var before := Pass(items[..|items| - 1]);
      PassIsShaped(items[..|items| - 1]);
      var components := DirOf(items[|items| - 1].path);
      var kept := Kept(before.0, before.1, components);
      OpenedIsShaped(before.0, before.1[..kept], components[kept..]);
      PassEntryIs(before.0, before.1, items[|items| - 1]);
      hide Opened;
      hide Kept;
      hide DirOf;
      hide FileOf;
      hide GitignoreName;
      SameShape(Opened(before.0, before.1[..kept], components[kept..]).0, Pass(items).0);
    }
  }

  lemma SameShape(a: seq<Dir>, b: seq<Dir>)
    requires Shaped(a) && |a| == |b| && forall k :: 0 <= k < |a| ==> a[k].children == b[k].children
    ensures Shaped(b)
  {
    forall k | 0 <= k < |b| ensures Within(b, k, b[k].children) {
      assert Within(a, k, a[k].children);
    }
  }

  lemma SortedIsShaped(table: seq<Dir>)
    requires Shaped(table)
    ensures Shaped(SortedTable(table))
  {
    var sorted := SortedTable(table);
    forall k | 0 <= k < |sorted| ensures Within(sorted, k, sorted[k].children) {
      assert Within(table, k, table[k].children);
      var cs: seq<nat> := sorted[k].children;
      forall i | 0 <= i < |cs| ensures k < cs[i] < |table| {
        Sorting.SortMembers<nat>(SiblingOrder(table), table[k].children, cs[i]);
        assert cs[i] in table[k].children;
      }
    }
  }

  lemma DirectoriesShaped(items: seq<Item>)
    ensures Shaped(Directories(items))
  {
    PassIsShaped(items);
    SortedIsShaped(Pass(items).0);
  }

  /** The seeded index over some pair of extension bodies; none when the index is not ours or a body outgrows its length field. */
  ghost predicate Seeded(out: Option<ByteString>, index: ByteString, caches: Caches, sha1: ByteString -> Digest)
  {
    if !Seedable(index) then out == None
    else
      var items := PlainItems(index);
      exists untr, fsmn ::
        && Shaped(Directories(items.list)) && |Directories(items.list)| > 0
        && IsUntr(untr, caches, Directories(items.list), Preorder(Directories(items.list), 0))
        && IsFsmn(fsmn, caches.token, |items.list|)
        && out == if |untr| <= U32_MAX && |fsmn| <= U32_MAX then Some(Appended(index, untr, fsmn, sha1)) else None
  }

  lemma DirectoriesRepresent(items: seq<Item>)
    requires StrictlySorted(PathsOf(items))
    ensures var list := DirList(PathsOf(items));
            && Represents(Directories(items), list) && |Directories(items)| == |list|
            && |list| > 0 && list[0] == []
            && Shaped(Directories(items))
  {
    PassIsTable(items);
    TableRepresents(items);
    SortedRepresents(TableOf(items), DirList(PathsOf(items)));
    RepresentsIsShaped(Directories(items), DirList(PathsOf(items)));
    RepresentsFacts(Directories(items), DirList(PathsOf(items)));
  }

  lemma SeededIntro(out: Option<ByteString>, index: ByteString, caches: Caches, sha1: ByteString -> Digest, items: seq<Item>, untr: ByteString, fsmn: ByteString)
    requires Seedable(index) && items == PlainItems(index).list
    requires Shaped(Directories(items)) && |Directories(items)| > 0
    requires IsUntr(untr, caches, Directories(items), Preorder(Directories(items), 0))
    requires IsFsmn(fsmn, caches.token, |items|)
    requires out == if |untr| <= U32_MAX && |fsmn| <= U32_MAX then Some(Appended(index, untr, fsmn, sha1)) else None
    ensures Seeded(out, index, caches, sha1)
  {
    hide IsUntr;
    hide IsFsmn;
    hide Seedable;
    hide Directories;
    hide Preorder;
    hide Appended;
    hide Shaped;
  }

  /** The untracked cache of the entries' directories. */
  method BuildUntr(dirs: seq<Dir>, caches: Caches, ghost items: seq<Item>) returns (untr: ByteString)
    requires |caches.ident| < U64_MAX && CountsFit(Directories(items))
    requires dirs == Pass(items).0
    ensures Shaped(Directories(items)) && |Directories(items)| > 0
    ensures IsUntr(untr, caches, Directories(items), Preorder(Directories(items), 0))
  {
    hide *;
    DirectoriesShaped(items);
    DirectoriesIs(items);
    CountsFitMeans(Directories(items));
    var table := SortSiblings(dirs);
    PreorderInRange(table, 0);
    var order := VisitOrder(table);
    untr := WriteUntr(caches, table, order);
  }

  /** The lengths the extension counts are 64-bit, as the lengths of anything in memory are. */
  ghost predicate CountsFit(table: seq<Dir>) {
    && (Shaped(table) && |table| > 0 ==> |Preorder(table, 0)| <= U64_MAX)
    && (forall k :: 0 <= k < |table| ==> |table[k].children| <= U64_MAX)
  }

  lemma CountsFitMeans(table: seq<Dir>)
    requires CountsFit(table) && Shaped(table) && |table| > 0
    ensures |Preorder(table, 0)| <= U64_MAX && forall k :: 0 <= k < |table| ==> |table[k].children| <= U64_MAX
  {
    hide Preorder;
  }

  lemma DirectoriesIs(items: seq<Item>)
    ensures Directories(items) == SortedTable(Pass(items).0) && |Directories(items)| > 0
  {
  }

  /** For sorted entries the table is the one the entries determine. */
  lemma DirectoriesOfSorted(items: seq<Item>)
    requires StrictlySorted(PathsOf(items))
    ensures Directories(items) == SortedTable(TableOf(items))
  {
    hide *;
    DirectoriesIs(items);
    PassIsTable(items);
  }

  /** For sorted entries the counts fit as long as the number of directories does. */
  lemma SortedCountsFit(items: seq<Item>)
    requires StrictlySorted(PathsOf(items)) && |DirList(PathsOf(items))| <= U64_MAX
    ensures CountsFit(Directories(items))
  {
    var table, list := Directories(items), DirList(PathsOf(items));
    DirectoriesRepresent(items);
    hide Directories;
    hide Represents;
    hide DirList;
    hide Preorder;
    hide Shaped;
    RowsBounded(table, list);
    PreorderPermutes(table, list);
  }

  method WithWorkspaceCaches(index: ByteString, caches: Caches, sha1: ByteString -> Digest) returns (out: Option<ByteString>)
    requires |caches.ident| < U64_MAX
    requires Version2(index) ==> CountsFit(Directories(PlainItems(index).list))
    ensures Seeded(out, index, caches, sha1)
  {
    if |index| < 32 || index[..4] != MagicDirc() || index[4..8] != BE32(2) {
      return None;
    }
    var count := FromBE32(index[8..12]);
    ghost var items := PlainItems(index).list;
    hide ReadPlain;
    hide BE32;
    hide FromBE32;
    hide MagicDirc;
    hide Pass;
    hide CountsFit;
    hide Directories;
    var dirs, pos := ReadDirectories(index, count);
    if dirs.None? {
      return None;
    }
    if |index| < pos + 20 {
      return None;
    }
    hide Shaped;
    hide IsUntr;
    hide IsFsmn;
    hide Preorder;
    hide Seeded;
    var untr := BuildUntr(dirs.value, caches, items);
    PlainCount(index, 12, count);
    var fsmn := WriteFsmn(caches.token, count);
    if |untr| > U32_MAX || |fsmn| > U32_MAX {
      SeededIntro(None, index, caches, sha1, items, untr, fsmn);
      return None;
    }
    var content := index[..|index| - 20];
    content := content + (UntrSignature() + BE32(|untr|) + untr);
    content := content + (FsmnSignature() + BE32(|fsmn|) + fsmn);
    out := Some(content + sha1(content));
    SeededIntro(out, index, caches, sha1, items, untr, fsmn);
  }

  lemma {:induction false} PlainCount(index: ByteString, pos: nat, remaining: nat)
    requires ReadPlain(index, pos, remaining).ended
    ensures |ReadPlain(index, pos, remaining).list| == remaining
    decreases remaining
  {
    if remaining > 0 {
      ReadPlainUnfolds(index, pos, remaining);
      hide ReadHead;
      hide ReadPadded;
      PlainCount(index, ReadPadded(index, pos, ReadHead(index, pos).value).value.pos, remaining - 1);
    }
  }
}
