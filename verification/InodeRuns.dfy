/** What holds of the inode table over every run of its operations. */
module InodeRuns {
  import opened Wrappers
  import opened Bytes
  import opened InodeTables
  import opened InodeRenames

  datatype Op =
    | Number(path: Path)
    | Bind(path: Path, ino: nat)
    | Lookup(path: Path, node: Node)
    | Rename(from: Path, to: Path, order: seq<Path>)
    | Forgets(ino: nat, count: nat)
    | Opens(ino: nat)
    | Closes(ino: nat)
    | Refreshes(ino: nat, node: Node)
    | Repins(root: Node)
    | Rewrites(path: Path)

  /** A rename comes with the order the map hands its names out in. */
  predicate Enabled(t: Table, op: Op) {
    op.Rename? ==> Enumerates(op.order, Moving(t, op.from))
  }

  function Step(t: Table, op: Op): Table
    requires Enabled(t, op)
  {
    match op
    case Number(path) => NumberFor(t, path).0
    case Bind(path, ino) => BindIfAbsent(t, path, ino)
    case Lookup(path, node) => InsertLookup(t, path, node).0
    case Rename(from, to, order) => MoveAll(t, from, to, order)
    case Forgets(ino, count) => Forget(t, ino, count)
    case Opens(ino) => Open(t, ino)
    case Closes(ino) => Close(t, ino)
    case Refreshes(ino, node) => Refresh(t, ino, node)
    case Repins(root) => Repin(t, root)
    case Rewrites(path) => RewrittenBehindKernel(t, path).0
  }

  predicate Runs(t: Table, ops: seq<Op>)
    decreases |ops|, 0
  {
    |ops| == 0 || (Runs(t, ops[..|ops| - 1]) && Enabled(After(t, ops[..|ops| - 1]), ops[|ops| - 1]))
  }

  function After(t: Table, ops: seq<Op>): Table
    requires Runs(t, ops)
    decreases |ops|, 1
  {
    if |ops| == 0 then t else Step(After(t, ops[..|ops| - 1]), ops[|ops| - 1])
  }

  /** Seeding is a run of binds. */
  function Binds(entries: seq<Numbered>): (r: seq<Op>)
    ensures |r| == |entries|
  {
    seq(|entries|, i requires 0 <= i < |entries| => Bind(entries[i].path, entries[i].ino))
  }

  lemma {:induction false} SeedIsRun(t: Table, entries: seq<Numbered>)
    ensures Runs(t, Binds(entries)) && After(t, Binds(entries)) == Seed(t, entries)
    decreases |entries|
  {
    if |entries| > 0 {
      var rest := entries[..|entries| - 1];
      SeedIsRun(t, rest);
      assert Binds(entries)[..|entries| - 1] == Binds(rest);
    }
  }

  // ---------------------------------------------------------------------------
  // Numbers
  // ---------------------------------------------------------------------------

  /** A live record reached through a name has that name's path. */
  predicate NamesAgree(t: Table) {
    forall p <- t.byPath :: t.byPath[p] in t.records ==> t.records[t.byPath[p]].path == p
  }

  /** Numbers below the overlay's are below the counter. */
  predicate Behind(n: nat, next: nat) {
    n < next || n >= OVERLAY_INO_BASE
  }

  predicate CounterAhead(t: Table) {
    (forall p <- t.byPath :: Behind(t.byPath[p], t.next)) && (forall i <- t.records :: Behind(i, t.next))
  }

  predicate Sound(t: Table) {
    Injective(t.byPath) && NamesAgree(t) && CounterAhead(t)
  }

  /** No path has this number, and no live record has it under another path. */
  predicate Unclaimed(t: Table, path: Path, ino: nat) {
    (forall p <- t.byPath :: t.byPath[p] != ino) && (ino in t.records ==> t.records[ino].path == path)
  }

  /** The number an unnumbered path would get. */
  function NewNumber(t: Table, op: Op): nat {
    match op
    case Bind(_, ino) => ino
    case Lookup(_, Overlay(_, ino)) => ino
    case _ => t.next
  }

  /** What a caller checks first: a path that has no number gets an unclaimed one. */
  predicate Careful(t: Table, op: Op) {
    match op
    case Number(path) => path in t.byPath || Unclaimed(t, path, NewNumber(t, op))
    case Bind(path, _) => path in t.byPath || Unclaimed(t, path, NewNumber(t, op))
    case Lookup(path, _) => path in t.byPath || Unclaimed(t, path, NewNumber(t, op))
    case _ => true
  }

  /** Where a rename that has moved some names has a name's number, if it still has it. */
  function PlaceOf(from: Path, to: Path, moved: seq<Path>, p: Path): Path
    requires forall i :: 0 <= i < |moved| ==> AtOrUnder(from, moved[i])
  {
    if p in moved then Retarget(from, to, p) else p
  }

  /** No number is anywhere but where its name was sent: a rename may lose a name it moves onto, never double a number. */
  ghost predicate InPlace(before: map<Path, nat>, after: map<Path, nat>, from: Path, to: Path, moved: seq<Path>)
    requires forall i :: 0 <= i < |moved| ==> AtOrUnder(from, moved[i])
  {
    forall p <- before, q <- after :: after[q] == before[p] ==> q == PlaceOf(from, to, moved, p)
  }

  /** Moving one more name, whatever the names moved before it. */
  lemma MoveStaysInPlace(t: Table, mid: Table, from: Path, to: Path, order: seq<Path>)
    requires |order| > 0 && Injective(t.byPath)
    requires forall i :: 0 <= i < |order| ==> order[i] in t.byPath && AtOrUnder(from, order[i])
    requires forall i, j :: 0 <= i < j < |order| ==> order[i] != order[j]
    requires InPlace(t.byPath, mid.byPath, from, to, order[..|order| - 1]) && NamesAgree(mid)
    ensures var last := order[|order| - 1];
            var after := MoveOne(mid, last, t.byPath[last], Retarget(from, to, last));
            InPlace(t.byPath, after.byPath, from, to, order) && NamesAgree(after)
  {
    hide Retarget;
    hide AtOrUnder;
    var rest, last := order[..|order| - 1], order[|order| - 1];
    var ino, target := t.byPath[last], Retarget(from, to, last);
    var after := MoveOne(mid, last, ino, target);
    assert last !in rest;
    forall p <- t.byPath, q <- after.byPath | after.byPath[q] == t.byPath[p] ensures q == PlaceOf(from, to, order, p) {
      assert p in order <==> p in rest || p == last;
      if q != target {
        assert mid.byPath[q] == t.byPath[p] && q == PlaceOf(from, to, rest, p);
      }
    }
    assert PlaceOf(from, to, rest, last) == last;
    assert forall q <- mid.byPath :: mid.byPath[q] == ino ==> q == last;
  }

  lemma {:induction false} MoveAllStaysInPlace(t: Table, from: Path, to: Path, order: seq<Path>)
    requires Injective(t.byPath) && NamesAgree(t)
    requires forall i :: 0 <= i < |order| ==> order[i] in t.byPath && AtOrUnder(from, order[i])
    requires forall i, j :: 0 <= i < j < |order| ==> order[i] != order[j]
    ensures InPlace(t.byPath, MoveAll(t, from, to, order).byPath, from, to, order) && NamesAgree(MoveAll(t, from, to, order))
    decreases |order|
  {
    if |order| > 0 {
      hide AtOrUnder;
      hide NamesAgree;
      hide InPlace;
      var rest := order[..|order| - 1];
      MoveAllStaysInPlace(t, from, to, rest);
      MoveAllStep(t, from, to, order);
      MoveStaysInPlace(t, MoveAll(t, from, to, rest), from, to, order);
    }
  }

  /** A rename keeps the table sound whatever its endpoints and whatever order the names come in. */
  lemma RenameStaysSound(t: Table, from: Path, to: Path, order: seq<Path>)
    requires Sound(t) && Enumerates(order, Moving(t, from))
    ensures Sound(MoveAll(t, from, to, order))
  {
    hide Moving;
    hide MoveAll;
    hide AtOrUnder;
    MoveAllStaysInPlace(t, from, to, order);
    MoveAllKeeps(t, from, to, order);
    var after := MoveAll(t, from, to, order);
    forall q <- after.byPath ensures exists p <- t.byPath :: t.byPath[p] == after.byPath[q] {
      assert after.byPath[q] in after.byPath.Values;
    }
  }

  /** A table in which one more path is numbered, and at most that number's record has changed. */
  lemma BoundIsSoundExactly(t: Table, path: Path, ino: nat, after: Table)
    requires Sound(t) && path !in t.byPath && after.byPath == t.byPath[path := ino]
    requires t.next <= after.next && Behind(ino, after.next)
    requires forall i <- after.records :: i in t.records || i == ino
    requires forall i <- t.records :: i in after.records && after.records[i].path == t.records[i].path
    requires ino in after.records && ino !in t.records ==> after.records[ino].path == path
    ensures Sound(after) <==> Unclaimed(t, path, ino)
  {
    if p :| p in t.byPath && t.byPath[p] == ino {
      assert after.byPath[p] == after.byPath[path];
    } else {
      assert Injective(after.byPath) && CounterAhead(after);
      assert after.byPath[path] == ino;
    }
  }

  /** Numbering an unnumbered path keeps the table sound exactly when the number is unclaimed. */
  lemma NewNumberIsSoundExactly(t: Table, op: Op)
    requires Sound(t) && (op.Number? || op.Bind? || op.Lookup?) && op.path !in t.byPath
    ensures Sound(Step(t, op)) <==> Unclaimed(t, op.path, NewNumber(t, op))
  {
    hide Sound;
    hide Unclaimed;
    BoundIsSoundExactly(t, op.path, NewNumber(t, op), Step(t, op));
  }

  /** A step keeps the table sound exactly when it gives no path a number that is claimed. */
  lemma StepSoundExactly(t: Table, op: Op)
    requires Sound(t) && Enabled(t, op)
    ensures Sound(Step(t, op)) <==> Careful(t, op)
  {
    if op.Rename? {
      RenameStaysSound(t, op.from, op.to, op.order);
    } else if (op.Number? || op.Bind? || op.Lookup?) && op.path !in t.byPath {
      NewNumberIsSoundExactly(t, op);
    } else {
      assert Step(t, op).byPath == t.byPath;
    }
  }

  predicate CarefulRun(t: Table, ops: seq<Op>)
    requires Runs(t, ops)
  {
    |ops| == 0 || (CarefulRun(t, ops[..|ops| - 1]) && Careful(After(t, ops[..|ops| - 1]), ops[|ops| - 1]))
  }

  /** The table is sound in every state of a run. */
  predicate SoundThroughout(t: Table, ops: seq<Op>)
    requires Runs(t, ops)
  {
    Sound(After(t, ops)) && (|ops| > 0 ==> SoundThroughout(t, ops[..|ops| - 1]))
  }

  /**
   * For every run: numbers are one to one and live records keep the names that reach them in every state exactly when
   * no step gives a path without a number one that another path or another path's live record has.
   */
  lemma {:induction false} RunSoundExactly(root: Node, ops: seq<Op>)
    requires Runs(NewTable(root), ops)
    ensures SoundThroughout(NewTable(root), ops) <==> CarefulRun(NewTable(root), ops)
    decreases |ops|
  {
    if |ops| > 0 {
      var rest, last := ops[..|ops| - 1], ops[|ops| - 1];
      RunSoundExactly(root, rest);
      var now := After(NewTable(root), rest);
      hide Sound;
      hide Careful;
      hide Step;
      if Sound(now) {
        StepSoundExactly(now, last);
      }
    }
  }

  /** Only a rename takes a number to another path, and then to the place the rename sends it. */
  lemma NumberMovesOnlyByRename(t: Table, op: Op, p: Path, q: Path)
    requires Sound(t) && Enabled(t, op) && Careful(t, op)
    requires p in t.byPath && q in Step(t, op).byPath && Step(t, op).byPath[q] == t.byPath[p]
    ensures q == if op.Rename? && p in Moving(t, op.from) then Retarget(op.from, op.to, p) else p
  {
    if op.Rename? {
      hide Moving;
      hide MoveAll;
      hide Retarget;
      hide AtOrUnder;
      MoveAllStaysInPlace(t, op.from, op.to, op.order);
      assert p in op.order <==> p in Moving(t, op.from);
    }
  }

  /** Nothing else takes a path's number away. */
  lemma NumbersAreStable(t: Table, op: Op)
    requires Enabled(t, op) && !op.Rename?
    ensures forall p <- t.byPath :: p in Step(t, op).byPath && Step(t, op).byPath[p] == t.byPath[p]
  {
  }

  /**
   * Being unbound is not enough for a number an overlay brings: after `a` is renamed onto `b`, the number `b` had
   * is bound nowhere, and a lookup that brings it reaches the old record of `b` under a new name.
   */
  lemma UnboundIsNotUnclaimed(root: Node, file: Node, order: seq<Path>)
    requires file == Git(RegularFile) && order == [[97]]
    ensures var ops := [Lookup([97], file), Lookup([98], file), Rename([97], [98], order)];
            && Runs(NewTable(root), ops) && CarefulRun(NewTable(root), ops)
            && var t := After(NewTable(root), ops);
               && (forall p <- t.byPath :: t.byPath[p] != 3)
               && !NamesAgree(Step(t, Lookup([99], Overlay(RegularFile, 3))))
  {
    var a: Path, b: Path := [97], [98];
    var t2 := TwoFiles(root, file);
    LookTwice(root, file);
    RenameOver(root, file, order);
    ThreeSteps(NewTable(root), Lookup(a, file), Lookup(b, file), Rename(a, b, order));
    hide *;
    var t := Step(t2, Rename(a, b, order));
    BroughtBack(root, file, t);
  }

  /** The table after looking up `a` and `b`. */
  function TwoFiles(root: Node, file: Node): Table {
    Table(map[[] := 1, [97] := 2, [98] := 3],
          map[1 := Record(1, [], root, 0, 1, 0), 2 := Record(2, [97], file, 0, 1, 0), 3 := Record(3, [98], file, 0, 1, 0)], 4)
  }

  lemma LookTwice(root: Node, file: Node)
    requires file == Git(RegularFile)
    ensures var t, a, b := NewTable(root), Lookup([97], file), Lookup([98], file);
            && Enabled(t, a) && Careful(t, a) && Enabled(Step(t, a), b) && Careful(Step(t, a), b)
            && Step(Step(t, a), b) == TwoFiles(root, file)
  {
    var t1 := Step(NewTable(root), Lookup([97], file));
    assert t1.byPath == map[[] := 1, [97] := 2];
    assert Step(t1, Lookup([98], file)).byPath == TwoFiles(root, file).byPath;
    assert Step(t1, Lookup([98], file)).records == TwoFiles(root, file).records;
  }

  lemma RenameOver(root: Node, file: Node, order: seq<Path>)
    requires file == Git(RegularFile) && order == [[97]]
    ensures var t2, op := TwoFiles(root, file), Rename([97], [98], order);
            && Enabled(t2, op) && Careful(t2, op)
            && Step(t2, op) == Table(map[[] := 1, [98] := 2],
                                     map[1 := Record(1, [], root, 0, 1, 0), 2 := Record(2, [98], file, 0, 1, 0), 3 := Record(3, [98], file, 0, 1, 0)], 4)
  {
    var t2 := TwoFiles(root, file);
    var a: Path, b: Path := [97], [98];
    assert Moving(t2, a) == {a};
    assert Retarget(a, b, a) == b;
    assert order[..0] == [];
    assert MoveAll(t2, a, b, order) == MoveOne(t2, a, 2, b);
  }

  lemma BroughtBack(root: Node, file: Node, t: Table)
    requires t == Table(map[[] := 1, [98] := 2],
                        map[1 := Record(1, [], root, 0, 1, 0), 2 := Record(2, [98], file, 0, 1, 0), 3 := Record(3, [98], file, 0, 1, 0)], 4)
    ensures (forall p <- t.byPath :: t.byPath[p] != 3) && !NamesAgree(Step(t, Lookup([99], Overlay(RegularFile, 3))))
  {
    var c: Path := [99];
    var after := Step(t, Lookup(c, Overlay(RegularFile, 3)));
    assert after.byPath[c] == 3 && after.records[3].path == [98];
  }

  lemma ThreeSteps(t: Table, a: Op, b: Op, c: Op)
    requires Enabled(t, a) && Enabled(Step(t, a), b) && Enabled(Step(Step(t, a), b), c)
    ensures Runs(t, [a, b, c]) && After(t, [a, b, c]) == Step(Step(Step(t, a), b), c)
    ensures CarefulRun(t, [a, b, c]) <==> Careful(t, a) && Careful(Step(t, a), b) && Careful(Step(Step(t, a), b), c)
  {
    hide Step;
    hide Enabled;
    hide Careful;
    assert [a, b, c][..2] == [a, b] && [a, b][..1] == [a] && [a][..0] == [];
    assert After(t, [a]) == Step(t, a);
    assert After(t, [a, b]) == Step(Step(t, a), b);
    assert CarefulRun(t, [a]) <==> Careful(t, a);
    assert CarefulRun(t, [a, b]) <==> Careful(t, a) && Careful(Step(t, a), b);
  }

  // ---------------------------------------------------------------------------
  // Fresh numbers
  // ---------------------------------------------------------------------------

  /** Every number any path has had in a run. */
  function Issued(t: Table, ops: seq<Op>): set<nat>
    requires Runs(t, ops)
    decreases |ops|
  {
    After(t, ops).byPath.Values + if |ops| == 0 then {} else Issued(t, ops[..|ops| - 1])
  }

  lemma CounterGrows(t: Table, op: Op)
    requires Enabled(t, op)
    ensures Step(t, op).next >= t.next
  {
    if op.Rename? {
      MoveAllKeeps(t, op.from, op.to, op.order);
    }
  }

  /** A rename in any order keeps the counter, issues no number and keeps every record's counts. */
  lemma {:induction false} MoveAllKeeps(t: Table, from: Path, to: Path, order: seq<Path>)
    requires forall i :: 0 <= i < |order| ==> order[i] in t.byPath && AtOrUnder(from, order[i])
    ensures var after := MoveAll(t, from, to, order);
            && after.next == t.next && after.byPath.Values <= t.byPath.Values
            && after.records.Keys == t.records.Keys
            && forall i <- t.records :: after.records[i] == t.records[i].(path := after.records[i].path)
    decreases |order|
  {
    if |order| > 0 {
      MoveAllKeeps(t, from, to, order[..|order| - 1]);
      MoveAllStep(t, from, to, order);
    }
  }

  predicate AllBehind(numbers: set<nat>, next: nat) {
    forall n <- numbers :: Behind(n, next)
  }

  lemma ValuesBehind(t: Table, op: Op)
    requires Enabled(t, op) && AllBehind(t.byPath.Values, t.next)
    ensures AllBehind(Step(t, op).byPath.Values, Step(t, op).next)
  {
    if op.Rename? {
      MoveAllKeeps(t, op.from, op.to, op.order);
    } else {
      var after := Step(t, op);
      forall n <- after.byPath.Values ensures Behind(n, after.next) {
        var p :| p in after.byPath && after.byPath[p] == n;
        if p in t.byPath { assert t.byPath[p] in t.byPath.Values; }
      }
    }
  }

  lemma {:induction false} IssuedBehind(root: Node, ops: seq<Op>)
    requires Runs(NewTable(root), ops)
    ensures var t := After(NewTable(root), ops);
            AllBehind(t.byPath.Values, t.next) && AllBehind(Issued(NewTable(root), ops), t.next)
    decreases |ops|
  {
    if |ops| > 0 {
      var rest, last := ops[..|ops| - 1], ops[|ops| - 1];
      IssuedBehind(root, rest);
      ValuesBehind(After(NewTable(root), rest), last);
      CounterGrows(After(NewTable(root), rest), last);
    }
  }

  /** Over every run at all, a number from the counter is one no path has ever had, until the counter reaches the overlay's numbers. */
  lemma FreshNumberIsNew(root: Node, ops: seq<Op>, path: Path)
    requires Runs(NewTable(root), ops)
    requires var t := After(NewTable(root), ops); path !in t.byPath && t.next < OVERLAY_INO_BASE
    ensures NumberFor(After(NewTable(root), ops), path).1 !in Issued(NewTable(root), ops)
  {
    IssuedBehind(root, ops);
  }

  // ---------------------------------------------------------------------------
  // Liveness
  // ---------------------------------------------------------------------------

  /** What the kernel holds of one inode, from the calls it made alone. */
  datatype Held = Held(lookups: nat, opens: nat)

  predicate Alive(ino: nat, held: Held) {
    ino == ROOT_INO || held.lookups > 0 || held.opens > 0
  }

  /** The inode a call is about. */
  function About(t: Table, op: Op): Option<nat> {
    match op
    case Lookup(path, node) => Some(Bound(t, path, node).1)
    case Forgets(ino, _) => Some(ino)
    case Opens(ino) => Some(ino)
    case Closes(ino) => Some(ino)
    case _ => None
  }

  function Count(held: Held, ino: nat, op: Op): Held {
    match op
    case Lookup(_, _) => held.(lookups := held.lookups + 1)
    case Forgets(_, count) => if ino == ROOT_INO then held else held.(lookups := if count >= held.lookups then 0 else held.lookups - count)
    case Opens(_) => if Alive(ino, held) then held.(opens := held.opens + 1) else held
    case Closes(_) => held.(opens := if held.opens == 0 then 0 else held.opens - 1)
    case _ => held
  }

  function HeldAfter(t: Table, ops: seq<Op>, ino: nat): Held
    requires Runs(t, ops)
    decreases |ops|
  {
    if |ops| == 0 then Held(if ino == ROOT_INO then 1 else 0, 0)
    else
      var rest, last := ops[..|ops| - 1], ops[|ops| - 1];
      var held := HeldAfter(t, rest, ino);
      if About(After(t, rest), last) == Some(ino) then Count(held, ino, last) else held
  }

  /** A table in which one inode's record stands for what is held of it. */
  predicate Tracks(t: Table, ino: nat, held: Held) {
    && (ino in t.records <==> Alive(ino, held))
    && (ino in t.records ==> t.records[ino].ino == ino && t.records[ino].lookups == held.lookups && t.records[ino].opens == held.opens)
  }

  lemma StepTracks(t: Table, op: Op, ino: nat, held: Held)
    requires Enabled(t, op) && Tracks(t, ino, held) && (ino == ROOT_INO ==> held.lookups > 0)
    ensures Tracks(Step(t, op), ino, if About(t, op) == Some(ino) then Count(held, ino, op) else held)
    ensures ino == ROOT_INO && About(t, op) == Some(ino) ==> Count(held, ino, op).lookups > 0
  {
    if op.Rename? {
      MoveAllKeeps(t, op.from, op.to, op.order);
    }
  }

  /**
   * In every state of every run a record exists exactly for the root and for what the kernel still
   * holds by a lookup or an open, with exactly those counts.
   */
  lemma {:induction false} LiveExactlyWhileHeld(root: Node, ops: seq<Op>, ino: nat)
    requires Runs(NewTable(root), ops)
    ensures Tracks(After(NewTable(root), ops), ino, HeldAfter(NewTable(root), ops, ino))
    ensures ino == ROOT_INO ==> HeldAfter(NewTable(root), ops, ino).lookups > 0
    decreases |ops|
  {
    if |ops| > 0 {
      var rest := ops[..|ops| - 1];
      LiveExactlyWhileHeld(root, rest, ino);
      StepTracks(After(NewTable(root), rest), ops[|ops| - 1], ino, HeldAfter(NewTable(root), rest, ino));
    }
  }

  // ---------------------------------------------------------------------------
  // Re-pinning
  // ---------------------------------------------------------------------------

  /** `name` in directory `parent` is `path`. */
  predicate Rejoins(path: Path, parent: Path, name: ByteString) {
    SLASH !in name && (path == parent + [SLASH] + name || (parent == [] && path == name))
  }

  lemma RejoinUnique(path: Path, parent: Path, name: ByteString)
    requires Rejoins(path, parent, name)
    ensures ParentAndName(path) == (parent, name)
  {
    var (p, n) := ParentAndName(path);
    HasSlash(path, p, n);
    HasSlash(path, parent, name);
    LaterSlash(path, parent, name, p, n);
    LaterSlash(path, p, n, parent, name);
  }

  lemma HasSlash(path: Path, parent: Path, name: ByteString)
    ensures path == parent + [SLASH] + name ==>
              SLASH in path && parent == path[..|parent|] && name == path[|parent| + 1..]
  {
    if path == parent + [SLASH] + name {
      assert path[|parent|] == SLASH;
    }
  }

  lemma LaterSlash(path: Path, a: Path, b: ByteString, c: Path, d: ByteString)
    ensures path == a + [SLASH] + b && path == c + [SLASH] + d && |a| < |c| ==> SLASH in b
  {
    if path == a + [SLASH] + b && path == c + [SLASH] + d && |a| < |c| {
      assert b[|c| - |a| - 1] == path[|c|] == SLASH;
    }
  }

  /**
   * A re-pin keeps numbering and counts, gives a new generation to exactly the live regular files, and reports
   * exactly the live inodes other than the root whose path is a name in a numbered directory, under that directory's number.
   */
  lemma RepinReports(t: Table, root: Node, e: StaleEntry)
    requires forall i <- t.records :: t.records[i].ino == i
    ensures Repin(t, root).byPath == t.byPath && Repin(t, root).next == t.next && Repin(t, root).records.Keys == t.records.Keys
    ensures forall i <- t.records ::
              var before, after := t.records[i], Repin(t, root).records[i];
              && after.lookups == before.lookups && after.opens == before.opens && after.path == before.path
              && after.ino == before.ino && after.node == (if i == ROOT_INO then root else before.node)
              && after.generation == before.generation + (if i != ROOT_INO && before.node.kind == RegularFile then 1 else 0)
    ensures Stale(t, e) <==>
              && e.ino in t.records && e.ino != ROOT_INO && |e.name| > 0
              && exists parent <- t.byPath :: t.byPath[parent] == e.parent && Rejoins(t.records[e.ino].path, parent, e.name)
  {
    if e.ino in t.records && e.ino != ROOT_INO {
      var path := t.records[e.ino].path;
      if parent :| parent in t.byPath && t.byPath[parent] == e.parent && Rejoins(path, parent, e.name) {
        RejoinUnique(path, parent, e.name);
      }
      if Stale(t, e) {
        var parent := ParentAndName(path).0;
        assert parent in t.byPath && t.byPath[parent] == e.parent && Rejoins(path, parent, e.name);
      }
    }
  }
}
