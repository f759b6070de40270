/** The mount's inode table, updated in place. */
module MountInodes {
  import opened Wrappers
  import opened InodeTables

  /** Rewriting the root and then bumping generations is the re-pin. */
  lemma RepinIs(before: Table, root: Node, mid: map<nat, Record>, after: map<nat, Record>)
    requires ROOT_INO in before.records && before.records[ROOT_INO].ino == ROOT_INO
    requires mid == before.records[ROOT_INO := before.records[ROOT_INO].(node := root)]
    requires after.Keys == mid.Keys && forall i <- mid :: after[i] == Repinned(mid[i])
    ensures after == Repin(before, root).records
  {
    var expected := Repin(before, root).records;
    assert expected.Keys == after.Keys;
    assert forall i <- after :: after[i] == expected[i];
  }

  class InodeTable {
    var byPath: map<Path, nat>
    var records: map<nat, Record>
    var next: nat

    ghost predicate Valid()
      reads this
    {
      ROOT_INO in records && forall i <- records :: records[i].ino == i
    }

    function State(): Table
      reads this
    {
      Table(byPath, records, next)
    }

    constructor (root: Node)
      ensures Valid() && State() == NewTable(root)
    {
      byPath := map[[] := ROOT_INO];
      records := map[ROOT_INO := Record(ROOT_INO, [], root, 0, 1, 0)];
      next := ROOT_INO + 1;
    }

    method NumberForPath(path: Path) returns (ino: nat)
      requires Valid()
      modifies this
      ensures Valid()
      ensures State() == NumberFor(old(State()), path).0 && ino == NumberFor(old(State()), path).1
    {
      if path in byPath {
        return byPath[path];
      }
      ino := next;
      next := next + 1;
      byPath := byPath[path := ino];
    }

    method Bind(path: Path, ino: nat)
      requires Valid()
      modifies this
      ensures Valid() && State() == BindIfAbsent(old(State()), path, ino)
    {
      if path in byPath {
        return;
      }
      byPath := byPath[path := ino];
      if ino >= next && ino < OVERLAY_INO_BASE {
        next := ino + 1;
      }
    }

    method SeedAll(entries: seq<Numbered>)
      requires Valid()
      modifies this
      ensures Valid() && State() == Seed(old(State()), entries)
    {
      for i := 0 to |entries|
        invariant Valid() && State() == Seed(old(State()), entries[..i])
      {
        assert entries[..i + 1][..i] == entries[..i];
        Bind(entries[i].path, entries[i].ino);
      }
      assert entries[..|entries|] == entries;
    }

    method Lookup(path: Path, node: Node) returns (record: Record)
      requires Valid()
      modifies this
      ensures Valid()
      ensures (State(), record) == InsertLookup(old(State()), path, node)
    {
      if node.PreferredIno().Some? {
        Bind(path, node.PreferredIno().value);
      }
      var ino := NumberForPath(path);
      record := if ino in records then records[ino] else Record(ino, path, node, 0, 0, 0);
      record := record.(node := node, lookups := record.lookups + 1);
      records := records[ino := record];
    }

    /** Move one name. */
    method MoveName(path: Path, ino: nat, target: Path)
      requires Valid()
      modifies this`byPath, this`records
      ensures Valid() && State() == MoveOne(old(State()), path, ino, target)
    {
      byPath := (byPath - {path})[target := ino];
      if ino in records {
        records := records[ino := records[ino].(path := target)];
      }
    }

    /**
     * Move a path and everything numbered under it. The names to move are collected first and then
     * handed out in whatever order the map has them; the result is the table that order gives.
     */
    method RenameSubtree(from: Path, to: Path) returns (moved: seq<(nat, Path)>, ghost order: seq<Path>)
      requires Valid()
      modifies this
      ensures Valid()
      ensures Enumerates(order, Moving(old(State()), from))
      ensures State() == MoveAll(old(State()), from, to, order)
      ensures |moved| == |order|
      ensures forall i :: 0 <= i < |order| ==> moved[i] == (old(byPath)[order[i]], Retarget(from, to, order[i]))
    {
      hide Moving;
      hide Retarget;
      hide AtOrUnder;
      hide MoveOne;
      var names: set<Path> := Moving(State(), from);
      var numbers := byPath;
      var pending := names;
      moved, order := [], [];
      MoveNone(State(), from, to);
      while pending != {}
        invariant Valid()
        invariant pending <= names
        invariant Enumerates(order, names - pending)
        invariant forall i :: 0 <= i < |order| ==> order[i] in names
        invariant State() == MoveAll(old(State()), from, to, order)
        invariant |moved| == |order|
        invariant forall i :: 0 <= i < |order| ==> moved[i] == (numbers[order[i]], Retarget(from, to, order[i]))
        decreases |pending|
      {
        var path: Path :| path in pending;
        pending := pending - {path};
        var ino, target := numbers[path], Retarget(from, to, path);
        MoveName(path, ino, target);
        moved := moved + [(ino, target)];
        MoveMore(old(State()), from, to, order, path);
        EnumerateMore(order, names - pending - {path}, path);
        assert names - pending == names - pending - {path} + {path};
        order := order + [path];
      }
    }

    method RefreshNode(ino: nat, node: Node)
      requires Valid()
      modifies this
      ensures Valid() && State() == Refresh(old(State()), ino, node)
    {
      if ino in records {
        records := records[ino := records[ino].(node := node)];
      }
    }

    method ForgetLookups(ino: nat, lookups: nat)
      requires Valid()
      modifies this
      ensures Valid() && State() == Forget(old(State()), ino, lookups)
    {
      if ino == ROOT_INO {
        return;
      }
      var dropIt := false;
      if ino in records {
        records := records[ino := records[ino].(lookups := Less1(records[ino].lookups, lookups))];
        dropIt := records[ino].lookups == 0 && records[ino].opens == 0;
      }
      if dropIt {
        records := records - {ino};
        assert records == old(records) - {ino};
      }
    }

    method OpenHandle(ino: nat)
      requires Valid()
      modifies this
      ensures Valid() && State() == Open(old(State()), ino)
    {
      if ino in records {
        records := records[ino := records[ino].(opens := records[ino].opens + 1)];
      }
    }

    method CloseHandle(ino: nat)
      requires Valid()
      modifies this
      ensures Valid() && State() == Close(old(State()), ino)
    {
      var dropIt := false;
      if ino in records {
        records := records[ino := records[ino].(opens := Less1(records[ino].opens, 1))];
        dropIt := records[ino].lookups == 0 && records[ino].opens == 0 && records[ino].ino != ROOT_INO;
      }
      if dropIt {
        records := records - {ino};
        assert records == old(records) - {ino};
      }
    }

    /** Give every live regular file a new generation. */
    method BumpGenerations()
      requires Valid()
      modifies this`records
      ensures Valid() && records.Keys == old(records).Keys
      ensures forall i <- records :: records[i] == Repinned(old(records[i]))
    {
      ghost var before := records;
      var pending := set i | i in records && records[i].ino != ROOT_INO;
      while pending != {}
        invariant Valid() && records.Keys == before.Keys && pending <= before.Keys - {ROOT_INO}
        invariant forall i <- records :: records[i] == if i in pending then before[i] else Repinned(before[i])
        decreases |pending|
      {
        var ino: nat :| ino in pending;
        pending := pending - {ino};
        if records[ino].node.kind == RegularFile {
          records := records[ino := records[ino].(generation := records[ino].generation + 1)];
        }
      }
    }

    /** The dentries behind some live paths. */
    method StaleEntries(paths: map<nat, Path>) returns (stale: seq<StaleEntry>)
      ensures forall e :: e in stale <==>
                && e.ino in paths && |ParentAndName(paths[e.ino]).1| > 0
                && StaleName(State(), paths[e.ino], e.ino) == Some(e)
      ensures forall i, j :: 0 <= i < j < |stale| ==> stale[i].ino != stale[j].ino
    {
      hide ParentAndName;
      var table := State();
      stale := [];
      var pending := paths.Keys;
      while pending != {}
        invariant pending <= paths.Keys
        invariant forall e :: e in stale <==>
                    && e.ino in paths && |ParentAndName(paths[e.ino]).1| > 0
                    && StaleName(table, paths[e.ino], e.ino) == Some(e) && e.ino !in pending
        invariant forall i, j :: 0 <= i < j < |stale| ==> stale[i].ino != stale[j].ino
        decreases |pending|
      {
        var ino: nat :| ino in pending;
        pending := pending - {ino};
        var (parent, name) := ParentAndName(paths[ino]);
        assert forall i :: 0 <= i < |stale| ==> stale[i] in stale;
        if |name| > 0 && parent in byPath {
          stale := stale + [StaleEntry(byPath[parent], name, ino)];
        }
      }
    }

    /** Point at another root; report every kernel-held name, each inode once. */
    method RepinRoot(root: Node) returns (stale: seq<StaleEntry>)
      requires Valid()
      modifies this`records
      ensures Valid() && State() == Repin(old(State()), root)
      ensures forall e :: e in stale <==> Stale(old(State()), e)
      ensures forall i, j :: 0 <= i < j < |stale| ==> stale[i].ino != stale[j].ino
    {
      hide ParentAndName;
      ghost var before := State();
      if ROOT_INO in records {
        records := records[ROOT_INO := records[ROOT_INO].(node := root)];
      }
      var paths := map i | i in records && records[i].ino != ROOT_INO :: records[i].path;
      ghost var mid := records;
      BumpGenerations();
      RepinIs(before, root, mid, records);
      stale := StaleEntries(paths);
    }

    method Rewritten(path: Path) returns (stale: Option<StaleEntry>)
      requires Valid()
      modifies this
      ensures Valid()
      ensures (State(), stale) == RewrittenBehindKernel(old(State()), path)
    {
      if path !in byPath {
        return None;
      }
      var ino := byPath[path];
      if ino !in records || records[ino].node.kind != RegularFile {
        return None;
      }
      records := records[ino := records[ino].(generation := records[ino].generation + 1)];
      var (parent, name) := ParentAndName(path);
      if parent !in byPath {
        return None;
      }
      stale := Some(StaleEntry(byPath[parent], name, ino));
    }
  }
}
