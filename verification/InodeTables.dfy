/** The inode table as a value: numbers by path, live records by number, and the next number to hand out. */
module InodeTables {
  import opened Wrappers
  import opened Bytes
  import opened GitTypes

  type Path = ByteString

  const ROOT_INO: nat := 1

  /** Numbers from here on are the overlay's own: 2^48. */
  const OVERLAY_INO_BASE: nat := 0x1_0000_0000_0000

  datatype Kind = RegularFile | Directory | OtherKind

  /** Where an inode's content comes from; only an overlay entry brings a number of its own. */
  datatype Node =
    | Base(kind: Kind, oid: ObjectId)
    | Overlay(kind: Kind, ino: nat)
    | Git(kind: Kind)
    | Odb(kind: Kind)
  {
    function PreferredIno(): Option<nat> {
      if Overlay? then Some(ino) else None
    }
  }

  datatype Record = Record(ino: nat, path: Path, node: Node, generation: nat, lookups: nat, opens: nat)

  datatype Table = Table(byPath: map<Path, nat>, records: map<nat, Record>, next: nat)

  function NewTable(root: Node): Table {
    Table(map[[] := ROOT_INO], map[ROOT_INO := Record(ROOT_INO, [], root, 0, 1, 0)], ROOT_INO + 1)
  }

  // ---------------------------------------------------------------------------
  // Numbering
  // ---------------------------------------------------------------------------

  function NumberFor(t: Table, path: Path): (r: (Table, nat))
    ensures path in r.0.byPath && r.0.byPath[path] == r.1
  {
    if path in t.byPath then (t, t.byPath[path])
    else (t.(byPath := t.byPath[path := t.next], next := t.next + 1), t.next)
  }

  function BindIfAbsent(t: Table, path: Path, ino: nat): Table {
    if path in t.byPath then t
    else t.(byPath := t.byPath[path := ino], next := if t.next <= ino < OVERLAY_INO_BASE then ino + 1 else t.next)
  }

  datatype Numbered = Numbered(path: Path, ino: nat)

  function Seed(t: Table, entries: seq<Numbered>): Table {
    if |entries| == 0 then t
    else
      var last := entries[|entries| - 1];
      BindIfAbsent(Seed(t, entries[..|entries| - 1]), last.path, last.ino)
  }

  /** The table a lookup numbers its path in. */
  function Bound(t: Table, path: Path, node: Node): (r: (Table, nat))
    ensures path in r.0.byPath && r.0.byPath[path] == r.1
    ensures r.0.records == t.records
  {
    NumberFor(match node.PreferredIno() case Some(ino) => BindIfAbsent(t, path, ino) case None => t, path)
  }

  function InsertLookup(t: Table, path: Path, node: Node): (r: (Table, Record))
  {
    var (bound, ino) := Bound(t, path, node);
    var record := if ino in bound.records then bound.records[ino] else Record(ino, path, node, 0, 0, 0);
    var counted := record.(node := node, lookups := record.lookups + 1);
    (bound.(records := bound.records[ino := counted]), counted)
  }

  // ---------------------------------------------------------------------------
  // Renaming
  // ---------------------------------------------------------------------------

  /** At a path, or below it. */
  predicate AtOrUnder(dir: Path, path: Path) {
    path == dir || (|path| > |dir| && path[|dir|] == SLASH && dir <= path)
  }

  /** The names a rename moves: one, unless what is renamed may have children. */
  function Moving(t: Table, from: Path): (r: set<Path>)
    ensures forall p <- r :: p in t.byPath && AtOrUnder(from, p)
  {
    var mayHaveChildren :=
      from !in t.byPath || t.byPath[from] !in t.records || t.records[t.byPath[from]].node.kind == Directory;
    if mayHaveChildren then set p | p in t.byPath && AtOrUnder(from, p)
    else {from}
  }

  function Retarget(from: Path, to: Path, path: Path): Path
    requires AtOrUnder(from, path)
  {
    to + path[|from|..]
  }

  function MoveOne(t: Table, path: Path, ino: nat, target: Path): Table {
    Table((t.byPath - {path})[target := ino],
          if ino in t.records then t.records[ino := t.records[ino].(path := target)] else t.records,
          t.next)
  }

  /** Moving names one after another, each with the number it had at the start. */
  function MoveAll(t: Table, from: Path, to: Path, order: seq<Path>): Table
    requires forall i :: 0 <= i < |order| ==> order[i] in t.byPath && AtOrUnder(from, order[i])
  {
    if |order| == 0 then t
    else
      var last := order[|order| - 1];
      MoveOne(MoveAll(t, from, to, order[..|order| - 1]), last, t.byPath[last], Retarget(from, to, last))
  }

  /** An order a hash map may hand the moving names out in. */
  predicate Enumerates(order: seq<Path>, names: set<Path>) {
    && (forall i, j :: 0 <= i < j < |order| ==> order[i] != order[j])
    && (forall i :: 0 <= i < |order| ==> order[i] in names)
    && (forall p <- names :: p in order)
  }

  lemma MoveNone(t: Table, from: Path, to: Path)
    ensures MoveAll(t, from, to, []) == t
  {
  }

  lemma MoveMore(t: Table, from: Path, to: Path, order: seq<Path>, path: Path)
    requires forall i :: 0 <= i < |order| ==> order[i] in t.byPath && AtOrUnder(from, order[i])
    requires path in t.byPath && AtOrUnder(from, path)
    ensures MoveAll(t, from, to, order + [path]) == MoveOne(MoveAll(t, from, to, order), path, t.byPath[path], Retarget(from, to, path))
  {
    hide MoveOne;
    hide Retarget;
    hide AtOrUnder;
    assert (order + [path])[..|order|] == order;
  }

  lemma EnumerateMore(order: seq<Path>, names: set<Path>, path: Path)
    requires Enumerates(order, names) && path !in names
    ensures Enumerates(order + [path], names + {path})
  {
  }

  // ---------------------------------------------------------------------------
  // Counting
  // ---------------------------------------------------------------------------

  /** `saturating_sub`. */
  function Less1(n: nat, m: nat): (r: nat)
    ensures m <= n ==> r + m == n
    ensures n <= m ==> r == 0
  {
    if m > n then 0 else n - m
  }

  /** A record back in the table, unless nothing holds it any more. */
  function Keep(t: Table, ino: nat, record: Record): Table {
    if record.lookups == 0 && record.opens == 0 && ino != ROOT_INO then t.(records := t.records - {ino})
    else t.(records := t.records[ino := record])
  }

  function Forget(t: Table, ino: nat, lookups: nat): Table {
    if ino == ROOT_INO || ino !in t.records then t
    else Keep(t, ino, t.records[ino].(lookups := Less1(t.records[ino].lookups, lookups)))
  }

  function Open(t: Table, ino: nat): Table {
    if ino !in t.records then t
    else t.(records := t.records[ino := t.records[ino].(opens := t.records[ino].opens + 1)])
  }

  function Close(t: Table, ino: nat): Table {
    if ino !in t.records then t
    else Keep(t, ino, t.records[ino].(opens := Less1(t.records[ino].opens, 1)))
  }

  function Refresh(t: Table, ino: nat, node: Node): Table {
    if ino !in t.records then t else t.(records := t.records[ino := t.records[ino].(node := node)])
  }

  // ---------------------------------------------------------------------------
  // Invalidation
  // ---------------------------------------------------------------------------

  datatype StaleEntry = StaleEntry(parent: nat, name: ByteString, ino: nat)

  /** `rposition` of a slash. */
  function LastSlash(path: Path): (r: Option<nat>)
    ensures r.Some? ==> r.value < |path| && path[r.value] == SLASH && SLASH !in path[r.value + 1..]
    ensures r.None? ==> SLASH !in path
  {
    if |path| == 0 then None
    else if path[|path| - 1] == SLASH then Some(|path| - 1)
    else
      var rest := path[..|path| - 1];
      assert path == rest + [path[|path| - 1]];
      match LastSlash(rest)
      case None => None
      case Some(k) =>
        assert path[k + 1..] == rest[k + 1..] + [path[|path| - 1]];
        Some(k)
  }

  /** The parent's path and the name in it. */
  function ParentAndName(path: Path): (r: (Path, ByteString))
    ensures SLASH !in r.1
    ensures path == r.0 + [SLASH] + r.1 || (r.0 == [] && path == r.1)
  {
    match LastSlash(path)
    case Some(k) => (path[..k], path[k + 1..])
    case None => ([], path)
  }

  function Repinned(r: Record): Record {
    if r.ino != ROOT_INO && r.node.kind == RegularFile then r.(generation := r.generation + 1) else r
  }

  function Repin(t: Table, root: Node): Table {
    t.(records := map i | i in t.records ::
         if i == ROOT_INO then t.records[i].(node := root) else Repinned(t.records[i]))
  }

  /** The kernel's name for a live record: its parent's number and the name there. */
  function StaleName(t: Table, path: Path, ino: nat): Option<StaleEntry> {
    var (parent, name) := ParentAndName(path);
    if parent in t.byPath then Some(StaleEntry(t.byPath[parent], name, ino)) else None
  }

  /** What a re-pin reports for one live record. */
  predicate Stale(t: Table, e: StaleEntry) {
    && e.ino in t.records && e.ino != ROOT_INO
    && |ParentAndName(t.records[e.ino].path).1| > 0
    && StaleName(t, t.records[e.ino].path, e.ino) == Some(e)
  }

  function RewrittenBehindKernel(t: Table, path: Path): (Table, Option<StaleEntry>) {
    if path !in t.byPath then (t, None)
    else
      var ino := t.byPath[path];
      if ino !in t.records || t.records[ino].node.kind != RegularFile then (t, None)
      else
        (t.(records := t.records[ino := t.records[ino].(generation := t.records[ino].generation + 1)]),
         StaleName(t, path, ino))
  }

  // ---------------------------------------------------------------------------
  // What an operation does to a record
  // ---------------------------------------------------------------------------

  /** The root is inode 1, looked up once for good; numbers start at 2, and the overlay's at 2^48. */
  lemma StartsWithRoot(root: Node)
    ensures var t := NewTable(root);
            && t.byPath == map[[] := 1] && t.next == 2 && OVERLAY_INO_BASE == 281_474_976_710_656
            && t.records == map[1 := Record(1, [], root, 0, 1, 0)]
  {
  }

  /**
   * A lookup answers with its path's record: a live one keeps its path, generation and opens and takes the new node and one
   * more lookup; a new one starts at generation 0. No other record changes.
   */
  lemma LookupRecords(t: Table, path: Path, node: Node)
    ensures var (after, record) := InsertLookup(t, path, node);
            && path in after.byPath
            && var ino := after.byPath[path];
               && ino in after.records && after.records[ino] == record && record.node == node
               && (ino in t.records ==>
                     var old_ := t.records[ino];
                     && record.path == old_.path && record.ino == old_.ino && record.generation == old_.generation
                     && record.lookups == old_.lookups + 1 && record.opens == old_.opens)
               && (ino !in t.records ==> record == Record(ino, path, node, 0, 1, 0))
               && (forall i :: i != ino ==> (i in after.records <==> i in t.records))
               && (forall i <- t.records :: i != ino ==> after.records[i] == t.records[i])
    ensures path in t.byPath ==> InsertLookup(t, path, node).0.byPath == t.byPath && InsertLookup(t, path, node).0.next == t.next
    ensures path !in t.byPath && node.Overlay? ==> InsertLookup(t, path, node).0.byPath == t.byPath[path := node.ino]
    ensures path !in t.byPath && !node.Overlay? ==>
              InsertLookup(t, path, node).0.byPath == t.byPath[path := t.next] && InsertLookup(t, path, node).0.next == t.next + 1
  {
  }

  /** A number a caller brings moves the counter past it, unless it is the overlay's or the path has one already. */
  lemma BindMovesCounter(t: Table, path: Path, ino: nat)
    ensures path in t.byPath ==> BindIfAbsent(t, path, ino) == t
    ensures path !in t.byPath ==>
            var after := BindIfAbsent(t, path, ino);
            && after.byPath == t.byPath[path := ino] && after.records == t.records
            && after.next == if ino < 281_474_976_710_656 && ino >= t.next then ino + 1 else t.next
  {
  }

  /** Pointing a live inode at another node changes that alone; rewriting a live regular file gives it one more generation. */
  lemma NodeAndGeneration(t: Table, ino: nat, node: Node, path: Path)
    ensures ino in t.records ==> Refresh(t, ino, node) == t.(records := t.records[ino := t.records[ino].(node := node)])
    ensures ino !in t.records ==> Refresh(t, ino, node) == t
    ensures var (after, stale) := RewrittenBehindKernel(t, path);
            if path in t.byPath && t.byPath[path] in t.records && t.records[t.byPath[path]].node.kind == RegularFile then
              var record := t.records[t.byPath[path]];
              && after == t.(records := t.records[t.byPath[path] := record.(generation := record.generation + 1)])
              && (stale.Some? <==> ParentAndName(path).0 in t.byPath)
              && (stale.Some? ==> stale.value == StaleEntry(t.byPath[ParentAndName(path).0], ParentAndName(path).1, t.byPath[path]))
            else after == t && stale == None
  {
  }

  /** The names a rename moves: the name itself; and all below it too, unless it is the name of a live inode that is no directory. */
  lemma MovesExactly(t: Table, from: Path, p: Path)
    ensures p in Moving(t, from) <==>
            && p in t.byPath
            && (p == from
                || (from + [47] <= p
                    && (from in t.byPath && t.byPath[from] in t.records ==> t.records[t.byPath[from]].node.kind == Directory)))
  {
    if p in t.byPath && |p| > |from| {
      assert from + [47] <= p <==> p[|from|] == 47 && from <= p by {
        if from <= p && p[|from|] == 47 {
          assert p[..|from| + 1] == from + [47];
        }
        if from + [47] <= p {
          assert p[..|from| + 1] == from + [47];
        }
      }
    }
  }

  /** A moving name keeps what follows the old path. */
  lemma RetargetIs(from: Path, to: Path, suffix: ByteString)
    requires suffix == [] || suffix[0] == 47
    ensures AtOrUnder(from, from + suffix) && Retarget(from, to, from + suffix) == to + suffix
  {
  }
}
