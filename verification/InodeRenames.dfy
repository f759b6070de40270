/** What a rename does to the inode table, whatever order the moving names come in. */
module InodeRenames {
  import opened Bytes
  import opened InodeTables

  /** Neither path is at or below the other. */
  predicate Apart(from: Path, to: Path) {
    !AtOrUnder(from, to) && !AtOrUnder(to, from)
  }

  predicate Injective(byPath: map<Path, nat>) {
    forall p <- byPath, q <- byPath :: byPath[p] == byPath[q] ==> p == q
  }

  /** With endpoints apart nothing moves onto a name that is moving itself. */
  lemma TargetsStayOut(from: Path, to: Path, path: Path)
    requires AtOrUnder(from, path)
    ensures Apart(from, to) ==> !AtOrUnder(from, Retarget(from, to, path))
  {
    var target, suffix := Retarget(from, to, path), path[|from|..];
    assert path == from + suffix && target == to + suffix;
    if AtOrUnder(from, target) {
      assert target[..|from|] == from;
      if |from| <= |to| {
        assert to[..|from|] == target[..|from|];
        if |from| < |to| {
          assert target[|from|] == to[|from|];
        } else {
          assert to == from;
        }
        assert AtOrUnder(from, to);
      } else {
        assert from[..|to|] == target[..|to|] == to;
        assert from[|to|] == target[|to|] == suffix[0];
        assert AtOrUnder(to, from);
      }
    }
  }

  lemma RetargetInjective(from: Path, to: Path, p: Path, q: Path)
    requires AtOrUnder(from, p) && AtOrUnder(from, q)
    requires Retarget(from, to, p) == Retarget(from, to, q)
    ensures p == q
  {
    assert p == from + p[|from|..] && q == from + q[|from|..];
    assert p[|from|..] == Retarget(from, to, p)[|to|..] == Retarget(from, to, q)[|to|..] == q[|from|..];
  }

  /** The target some moving name has. */
  predicate TargetOf(from: Path, to: Path, names: set<Path>, q: Path)
    requires forall p <- names :: AtOrUnder(from, p)
  {
    exists p <- names :: Retarget(from, to, p) == q
  }

  ghost predicate RenamedNames(before: map<Path, nat>, after: map<Path, nat>, from: Path, to: Path, names: set<Path>)
    requires forall p <- names :: p in before && AtOrUnder(from, p)
  {
    && (forall p <- names :: Retarget(from, to, p) in after && after[Retarget(from, to, p)] == before[p])
    && (forall q <- after :: TargetOf(from, to, names, q) || (q in before && q !in names && after[q] == before[q]))
    && (forall q <- before :: q in names || q in after)
  }

  ghost predicate RenamedRecords(byPath: map<Path, nat>, before: map<nat, Record>, after: map<nat, Record>, from: Path, to: Path, names: set<Path>)
    requires forall p <- names :: p in byPath && AtOrUnder(from, p)
  {
    && after.Keys == before.Keys
    && (forall p <- names :: byPath[p] in before ==> after[byPath[p]] == before[byPath[p]].(path := Retarget(from, to, p)))
    && (forall i <- before :: (forall p <- names :: byPath[p] != i) ==> after[i] == before[i])
  }

  /** `after` is `before` with the numbers of `names` carried to their targets, and nothing else changed. */
  ghost predicate Renamed(before: Table, after: Table, from: Path, to: Path, names: set<Path>)
    requires forall p <- names :: p in before.byPath && AtOrUnder(from, p)
  {
    && after.next == before.next
    && RenamedNames(before.byPath, after.byPath, from, to, names)
    && RenamedRecords(before.byPath, before.records, after.records, from, to, names)
  }

  /** No moving name's target is another moving name. */
  predicate Clear(from: Path, to: Path, names: set<Path>)
    requires forall p <- names :: AtOrUnder(from, p)
  {
    forall p <- names, q <- names :: Retarget(from, to, p) == q ==> p == q
  }

  lemma ApartIsClear(from: Path, to: Path, names: set<Path>)
    requires Apart(from, to) && forall p <- names :: AtOrUnder(from, p)
    ensures Clear(from, to, names)
  {
    forall p <- names ensures !AtOrUnder(from, Retarget(from, to, p)) {
      TargetsStayOut(from, to, p);
    }
  }

  lemma MoveAllStep(t: Table, from: Path, to: Path, order: seq<Path>)
    requires |order| > 0 && forall i :: 0 <= i < |order| ==> order[i] in t.byPath && AtOrUnder(from, order[i])
    ensures var rest, last := order[..|order| - 1], order[|order| - 1];
            MoveAll(t, from, to, order) == MoveOne(MoveAll(t, from, to, rest), last, t.byPath[last], Retarget(from, to, last))
  {
  }

  function NamesOf(order: seq<Path>): (r: set<Path>)
    ensures forall p :: p in r <==> p in order
  {
    set p | p in order
  }

  /** One more name moved. */
  lemma MoveKeepsRenamed(t: Table, mid: Table, from: Path, to: Path, names: set<Path>, last: Path)
    requires Injective(t.byPath)
    requires forall p <- names + {last} :: p in t.byPath && AtOrUnder(from, p)
    requires Clear(from, to, names + {last})
    requires last !in names && Renamed(t, mid, from, to, names)
    ensures Renamed(t, MoveOne(mid, last, t.byPath[last], Retarget(from, to, last)), from, to, names + {last})
  {
    hide RenamedNames;
    hide RenamedRecords;
    hide AtOrUnder;
    hide Retarget;
    assert last in names + {last};
    forall p <- names ensures Retarget(from, to, p) != last && Retarget(from, to, p) != Retarget(from, to, last) {
      assert p in names + {last};
      if Retarget(from, to, p) == Retarget(from, to, last) {
        RetargetInjective(from, to, p, last);
      }
    }
    MoveName(t.byPath, mid.byPath, from, to, names, last);
    MoveRecord(t.byPath, t.records, mid.records, from, to, names, last);
  }

  lemma MoveName(before: map<Path, nat>, mid: map<Path, nat>, from: Path, to: Path, names: set<Path>, last: Path)
    requires forall p <- names + {last} :: p in before && AtOrUnder(from, p)
    requires last !in names && RenamedNames(before, mid, from, to, names)
    requires forall p <- names :: Retarget(from, to, p) != last && Retarget(from, to, p) != Retarget(from, to, last)
    ensures RenamedNames(before, (mid - {last})[Retarget(from, to, last) := before[last]], from, to, names + {last})
  {
    var target := Retarget(from, to, last);
    var after := (mid - {last})[target := before[last]];
    hide Retarget;
    hide AtOrUnder;
    forall q <- after ensures TargetOf(from, to, names + {last}, q) || (q in before && q !in names + {last} && after[q] == before[q]) {
      if q == target {
        assert last in names + {last};
      } else if TargetOf(from, to, names, q) {
        var p :| p in names && Retarget(from, to, p) == q;
        assert p in names + {last};
      }
    }
  }

  lemma MoveRecord(byPath: map<Path, nat>, before: map<nat, Record>, mid: map<nat, Record>, from: Path, to: Path, names: set<Path>, last: Path)
    requires Injective(byPath) && forall p <- names + {last} :: p in byPath && AtOrUnder(from, p)
    requires last !in names && RenamedRecords(byPath, before, mid, from, to, names)
    ensures var ino := byPath[last];
            RenamedRecords(byPath, before, if ino in mid then mid[ino := mid[ino].(path := Retarget(from, to, last))] else mid, from, to, names + {last})
  {
    var ino, all := byPath[last], names + {last};
    var after := if ino in mid then mid[ino := mid[ino].(path := Retarget(from, to, last))] else mid;
    hide Retarget;
    hide AtOrUnder;
    assert forall p <- names :: byPath[p] != ino;
    forall p <- all | byPath[p] in before ensures after[byPath[p]] == before[byPath[p]].(path := Retarget(from, to, p)) {
      if p in names {
        assert after[byPath[p]] == mid[byPath[p]];
      }
    }
    forall i <- before | forall p <- all :: byPath[p] != i ensures after[i] == before[i] {
      assert last in all && i != ino;
      assert forall p <- names :: p in all;
    }
  }

  lemma {:induction false} PartlyMoved(t: Table, from: Path, to: Path, order: seq<Path>)
    requires Injective(t.byPath)
    requires forall i :: 0 <= i < |order| ==> order[i] in t.byPath && AtOrUnder(from, order[i])
    requires forall i, j :: 0 <= i < j < |order| ==> order[i] != order[j]
    requires Clear(from, to, NamesOf(order))
    ensures Renamed(t, MoveAll(t, from, to, order), from, to, NamesOf(order))
    decreases |order|
  {
    if |order| > 0 {
      var rest, last := order[..|order| - 1], order[|order| - 1];
      hide Retarget;
      assert NamesOf(order) == NamesOf(rest) + {last};
      PartlyMoved(t, from, to, rest);
      MoveAllStep(t, from, to, order);
      MoveKeepsRenamed(t, MoveAll(t, from, to, rest), from, to, NamesOf(rest), last);
    }
  }

  /**
   * When no name moves onto another that is moving, a rename carries the number of every moving name to the
   * name's place under the new path, in every order; no other name or record changes.
   */
  lemma RenameCarriesSubtree(t: Table, from: Path, to: Path, order: seq<Path>)
    requires Injective(t.byPath) && Enumerates(order, Moving(t, from)) && Clear(from, to, Moving(t, from))
    ensures Renamed(t, MoveAll(t, from, to, order), from, to, Moving(t, from))
  {
    assert NamesOf(order) == Moving(t, from);
    PartlyMoved(t, from, to, order);
  }

  /** What `Renamed` says determines the table. */
  lemma RenamedUnique(t: Table, a: Table, b: Table, from: Path, to: Path, names: set<Path>)
    requires forall p <- names :: p in t.byPath && AtOrUnder(from, p)
    requires Renamed(t, a, from, to, names) && Renamed(t, b, from, to, names)
    ensures a == b
  {
    forall q ensures q in a.byPath ==> q in b.byPath && a.byPath[q] == b.byPath[q] { SameName(t, a, b, from, to, names, q); }
    forall q ensures q in b.byPath ==> q in a.byPath { SameName(t, b, a, from, to, names, q); }
    assert a.byPath == b.byPath;
    forall i | i in a.records ensures a.records[i] == b.records[i] {
      if p :| p in names && t.byPath[p] == i {
        assert a.records[t.byPath[p]] == b.records[t.byPath[p]];
      }
    }
    assert a.records == b.records;
  }

  lemma SameName(t: Table, a: Table, b: Table, from: Path, to: Path, names: set<Path>, q: Path)
    requires forall p <- names :: p in t.byPath && AtOrUnder(from, p)
    requires Renamed(t, a, from, to, names) && Renamed(t, b, from, to, names)
    ensures q in a.byPath ==> q in b.byPath && a.byPath[q] == b.byPath[q]
  {
    if q in a.byPath {
      if TargetOf(from, to, names, q) {
        var p :| p in names && Retarget(from, to, p) == q;
        assert a.byPath[q] == t.byPath[p] == b.byPath[q];
      } else {
        assert q in t.byPath && q !in names && a.byPath[q] == t.byPath[q];
        assert q in b.byPath;
      }
    }
  }

  /** Moving `p` onto `q` before `q` itself has moved loses the place; the other order keeps it. */
  lemma {:induction false} WhoMovesFirst(t: Table, from: Path, to: Path, order: seq<Path>, i: nat, j: nat)
    requires forall k :: 0 <= k < |order| ==> order[k] in t.byPath && AtOrUnder(from, order[k])
    requires forall a, b :: 0 <= a < b < |order| ==> order[a] != order[b]
    requires i < |order| && j < |order| && i != j && Retarget(from, to, order[i]) == order[j]
    ensures order[j] in MoveAll(t, from, to, order).byPath <==> j < i
    decreases |order|
  {
    var n := |order| - 1;
    var rest, last := order[..n], order[n];
    var p, q := order[i], order[j];
    MoveAllStep(t, from, to, order);
    if last == q {
      if Retarget(from, to, q) == q { RetargetInjective(from, to, p, q); }
    } else if last != p {
      WhoMovesFirst(t, from, to, rest, i, j);
      if Retarget(from, to, last) == q { RetargetInjective(from, to, p, last); }
    }
  }

  lemma {:induction false} SomeOrder(names: set<Path>) returns (order: seq<Path>)
    ensures Enumerates(order, names)
  {
    if names == {} {
      order := [];
    } else {
      var p :| p in names;
      var rest := SomeOrder(names - {p});
      order := rest + [p];
    }
  }

  lemma Swapped(order: seq<Path>, names: set<Path>, i: nat, j: nat)
    requires Enumerates(order, names) && i < |order| && j < |order|
    ensures Enumerates(order[i := order[j]][j := order[i]], names)
  {
    var swapped := order[i := order[j]][j := order[i]];
    forall p <- names ensures p in swapped {
      var k :| 0 <= k < |order| && order[k] == p;
      assert swapped[if k == i then j else if k == j then i else k] == p;
    }
  }

  ghost predicate OrderIrrelevant(t: Table, from: Path, to: Path) {
    forall a, b :: Enumerates(a, Moving(t, from)) && Enumerates(b, Moving(t, from)) ==> MoveAll(t, from, to, a) == MoveAll(t, from, to, b)
  }

  /** The order the moving names come in is irrelevant exactly when none moves onto another. */
  lemma OrderIrrelevantExactly(t: Table, from: Path, to: Path)
    requires Injective(t.byPath)
    ensures OrderIrrelevant(t, from, to) <==> Clear(from, to, Moving(t, from))
  {
    var names := Moving(t, from);
    if Clear(from, to, names) {
      forall a, b | Enumerates(a, names) && Enumerates(b, names) ensures MoveAll(t, from, to, a) == MoveAll(t, from, to, b) {
        RenameCarriesSubtree(t, from, to, a);
        RenameCarriesSubtree(t, from, to, b);
        RenamedUnique(t, MoveAll(t, from, to, a), MoveAll(t, from, to, b), from, to, names);
      }
    } else {
      var p, q :| p in names && q in names && Retarget(from, to, p) == q && p != q;
      TwoOrders(t, from, to, p, q);
    }
  }

  lemma TwoOrders(t: Table, from: Path, to: Path, p: Path, q: Path)
    requires p in Moving(t, from) && q in Moving(t, from) && p != q && Retarget(from, to, p) == q
    ensures !OrderIrrelevant(t, from, to)
  {
    hide Moving;
    hide MoveAll;
    hide Retarget;
    var names := Moving(t, from);
    var a := SomeOrder(names);
    var i :| 0 <= i < |a| && a[i] == p;
    var j :| 0 <= j < |a| && a[j] == q;
    var b := a[i := a[j]][j := a[i]];
    Swapped(a, names, i, j);
    WhoMovesFirst(t, from, to, a, i, j);
    WhoMovesFirst(t, from, to, b, j, i);
  }

  /**
   * It does matter for a directory renamed below itself: `d` and `d/d` moved to `d/d` keep both
   * numbers in one order and lose one in the other.
   */
  lemma NestedRenameDependsOnOrder(t: Table, first: seq<Path>, second: seq<Path>)
    requires t.byPath == map[[100] := 2, [100, SLASH, 100] := 3] && t.records == map[]
    requires first == [[100, SLASH, 100], [100]] && second == [[100], [100, SLASH, 100]]
    ensures Enumerates(first, Moving(t, [100])) && Enumerates(second, Moving(t, [100]))
    ensures MoveAll(t, [100], [100, SLASH, 100], first).byPath == map[[100, SLASH, 100, SLASH, 100] := 3, [100, SLASH, 100] := 2]
    ensures MoveAll(t, [100], [100, SLASH, 100], second).byPath == map[[100, SLASH, 100, SLASH, 100] := 3]
  {
    var d: Path, dd: Path, ddd: Path := [100], [100, SLASH, 100], [100, SLASH, 100, SLASH, 100];
    assert Moving(t, d) == {d, dd};
    assert Retarget(d, dd, d) == dd && Retarget(d, dd, dd) == ddd;
    MoveAllStep(t, d, dd, first);
    MoveAllStep(t, d, dd, second);
    assert first[..1] == [dd] && second[..1] == [d];
    MoveAllStep(t, d, dd, [dd]);
    MoveAllStep(t, d, dd, [d]);
    assert [dd][..0] == [] && [d][..0] == [];
  }
}
