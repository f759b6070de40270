/** The bounded cache of decoded trees. */
module TreeCaches {
  import opened Wrappers
  import opened GitTypes
  import opened DecodedTrees
  import R = Recency
  import Tallies

  /** The approximate heap cost of a tree, given the size of one entry's own fields. */
  function HeapBytes(entrySize: nat): DecodedTree -> nat {
    (tree: DecodedTree) => EntryBytes(tree.entries, entrySize) + |tree.byName| * 4
  }

  function EntryBytes(entries: seq<DecodedEntry>, entrySize: nat): nat {
    if |entries| == 0 then 0
    else |entries[0].name| + |entries[0].oid.raw| + entrySize + EntryBytes(entries[1..], entrySize)
  }

  /** What one entry costs: its name, its ID and the record itself. */
  function EntryWeight(entrySize: nat): DecodedEntry -> nat {
    (e: DecodedEntry) => |e.name| + |e.oid.raw| + entrySize
  }

  /** A tree costs the sum over its entries and four bytes for each index by name. */
  lemma {:induction false} HeapIsSum(entries: seq<DecodedEntry>, byName: seq<nat>, entrySize: nat)
    ensures HeapBytes(entrySize)(DecodedTree(entries, byName)) == Tallies.Sum(entries, EntryWeight(entrySize)) + 4 * |byName|
  {
    if |entries| > 0 {
      HeapIsSum(entries[1..], byName, entrySize);
    }
  }

  function Within(maxBytes: nat): (nat, nat) -> bool {
    (total: nat, count: nat) => total <= maxBytes
  }

  class TreeCache {
    const maxBytes: nat
    const entrySize: nat
    var byOid: map<ObjectId, (DecodedTree, nat)>
    var byTick: map<nat, ObjectId>
    var tick: nat
    var bytes: nat
    var hits: nat
    var misses: nat
    ghost var filed: seq<R.Filed<ObjectId, DecodedTree>>

    ghost predicate Counted()
      reads this
    {
      R.Files(byOid, byTick, tick, filed) && bytes == R.Total(Contents(), HeapBytes(entrySize))
    }

    ghost predicate Valid()
      reads this
    {
      Counted() && bytes <= maxBytes
    }

    /** What is cached, least recently used first. */
    ghost function Contents(): seq<R.Held<ObjectId, DecodedTree>>
      reads this
    {
      R.List(filed)
    }

    constructor (maxBytes: nat, entrySize: nat)
      ensures Valid() && Contents() == [] && this.maxBytes == maxBytes && this.entrySize == entrySize
    {
      this.maxBytes, this.entrySize := maxBytes, entrySize;
      byOid, byTick, tick, bytes, hits, misses := map[], map[], 0, 0, 0, 0;
      filed := [];
    }

    method Get(oid: ObjectId) returns (tree: Option<DecodedTree>)
      requires Valid()
      modifies this
      ensures Valid()
      ensures Contents() == R.Touch(old(Contents()), oid)
      ensures match R.Position(old(Contents()), oid)
              case None => tree == None && misses == old(misses) + 1 && hits == old(hits)
              case Some(i) => tree == Some(old(Contents())[i].value) && hits == old(hits) + 1 && misses == old(misses)
    {
      hide *;
      Opened();
      R.HeldAt(byOid, byTick, tick, filed, oid);
      R.TouchIs(Contents(), oid);
      ContentsIs(this);
      if oid !in byOid {
        misses := misses + 1;
        ContentsIs(this);
        Closed();
        return None;
      }
      ghost var i := R.Position(R.List(filed), oid).value;
      var (held, oldTick) := byOid[oid];
      R.RemoveFiled(byOid, byTick, tick, filed, i);
      R.PushFiled(byOid - {oid}, byTick - {oldTick}, tick, R.RemoveAt(filed, i), oid, held);
      R.TotalRemoveAt(R.List(filed), i, HeapBytes(entrySize));
      R.TotalSnoc(R.RemoveAt(R.List(filed), i), R.Held(oid, held), HeapBytes(entrySize));
      assert (byOid - {oid})[oid := (held, tick + 1)] == byOid[oid := (held, tick + 1)];
      R.ListAt(filed, i);
      hits := hits + 1;
      tick := tick + 1;
      byTick := byTick - {oldTick};
      byTick := byTick[tick := oid];
      byOid := byOid[oid := (held, tick)];
      filed := R.RemoveAt(filed, i) + [R.Filed(tick, oid, held)];
      ContentsIs(this);
      Closed();
      tree := Some(held);
    }

    lemma Opened()
      requires Valid()
      ensures R.Files(byOid, byTick, tick, filed) && bytes == R.Total(R.List(filed), HeapBytes(entrySize)) && bytes <= maxBytes
      ensures Contents() == R.List(filed)
    {
      hide R.Files;
    }

    lemma Closed()
      requires R.Files(byOid, byTick, tick, filed) && bytes == R.Total(R.List(filed), HeapBytes(entrySize)) && bytes <= maxBytes
      ensures Valid()
    {
      hide R.Files;
    }

    /** Forget one tree, if it is held. */
    method Remove(oid: ObjectId)
      requires Counted()
      modifies this`byOid, this`byTick, this`bytes, this`filed
      ensures Counted() && oid !in byOid && bytes <= old(bytes)
      ensures Contents() == R.Without(old(Contents()), oid)
    {
      hide *;
      CountedMeans();
      R.HeldAt(byOid, byTick, tick, filed, oid);
      R.WithoutIs(R.List(filed), oid);
      ContentsIs(this);
      if oid in byOid {
        ghost var i := R.Position(R.List(filed), oid).value;
        var (held, oldTick) := byOid[oid];
        R.RemoveFiled(byOid, byTick, tick, filed, i);
        R.TotalRemoveAt(R.List(filed), i, HeapBytes(entrySize));
        R.ListAt(filed, i);
        byOid := byOid - {oid};
        bytes := bytes - HeapBytes(entrySize)(held);
        byTick := byTick - {oldTick};
        filed := R.RemoveAt(filed, i);
        ContentsIs(this);
        CountedIf();
      }
    }

    /**
     * Insert a tree: nothing changes if it cannot fit alone; otherwise the tree replaces any
     * under its ID as the newest, and the oldest are evicted until the budget is met.
     */
    method Insert(oid: ObjectId, tree: DecodedTree)
      requires Valid()
      modifies this
      ensures Valid() && hits == old(hits) && misses == old(misses)
      ensures var cost := HeapBytes(entrySize);
              Contents() ==
              if cost(tree) > maxBytes then old(Contents())
              else R.Keep(R.Without(old(Contents()), oid) + [R.Held(oid, tree)], cost, Within(maxBytes))
    {
      hide *;
      var cost := HeapBytes(entrySize)(tree);
      if cost > maxBytes {
        return;
      }
      Opened();
      CountedIf();
      Remove(oid);
      CountedMeans();
      ContentsIs(this);
      R.PushFiled(byOid, byTick, tick, filed, oid, tree);
      R.TotalSnoc(R.List(filed), R.Held(oid, tree), HeapBytes(entrySize));
      tick := tick + 1;
      byOid := byOid[oid := (tree, tick)];
      byTick := byTick[tick := oid];
      bytes := bytes + cost;
      filed := filed + [R.Filed(tick, oid, tree)];
      ghost var all := R.List(filed);
      while bytes > maxBytes
        invariant R.Files(byOid, byTick, tick, filed) && bytes == R.Total(R.List(filed), HeapBytes(entrySize))
        invariant R.Keep(R.List(filed), HeapBytes(entrySize), Within(maxBytes)) == R.Keep(all, HeapBytes(entrySize), Within(maxBytes))
        invariant hits == old(hits) && misses == old(misses)
        decreases |byTick|
      {
        R.OldestFirst(byOid, byTick, tick, filed);
        R.KeepStep(R.List(filed), HeapBytes(entrySize), Within(maxBytes));
        WithinIs(maxBytes, bytes, |filed|);
        if byTick.Keys == {} {
          break;
        }
        FirstOut();
        var oldestTick := R.Least(byTick.Keys);
        var oldest := byTick[oldestTick];
        byTick := byTick - {oldestTick};
        var evicted := byOid[oldest].0;
        byOid := byOid - {oldest};
        bytes := bytes - HeapBytes(entrySize)(evicted);
        filed := filed[1..];
      }
      R.KeepStep(R.List(filed), HeapBytes(entrySize), Within(maxBytes));
      WithinIs(maxBytes, bytes, |filed|);
      Closed();
      ContentsIs(this);
    }

    /** Taking out the oldest. */
    lemma FirstOut()
      requires R.Files(byOid, byTick, tick, filed) && bytes == R.Total(R.List(filed), HeapBytes(entrySize))
      requires byTick.Keys != {}
      ensures |filed| > 0
      ensures var t := R.Least(byTick.Keys);
              && t in byTick && byTick[t] in byOid
              && var held := byOid[byTick[t]].0;
                 && R.Files(byOid - {byTick[t]}, byTick - {t}, tick, filed[1..])
                 && bytes >= HeapBytes(entrySize)(held)
                 && bytes - HeapBytes(entrySize)(held) == R.Total(R.List(filed[1..]), HeapBytes(entrySize))
      ensures R.List(filed[1..]) == R.List(filed)[1..]
    {
      hide HeapBytes;
      R.OldestFirst(byOid, byTick, tick, filed);
      R.RemoveFiled(byOid, byTick, tick, filed, 0);
      R.TotalRemoveAt(R.List(filed), 0, HeapBytes(entrySize));
      assert R.FiledIn(byOid, byTick, tick, filed[0]);
      hide R.Files;
      assert R.RemoveAt(filed, 0) == filed[1..];
      assert R.RemoveAt(R.List(filed), 0) == R.List(filed)[1..];
    }

    lemma CountedMeans()
      requires Counted()
      ensures R.Files(byOid, byTick, tick, filed) && bytes == R.Total(R.List(filed), HeapBytes(entrySize))
    {
      hide R.Files;
    }

    lemma CountedIf()
      requires R.Files(byOid, byTick, tick, filed) && bytes == R.Total(R.List(filed), HeapBytes(entrySize))
      ensures Counted()
    {
      hide R.Files;
    }
  }

  lemma WithinIs(maxBytes: nat, total: nat, count: nat)
    ensures Within(maxBytes)(total, count) <==> total <= maxBytes
  {
  }

  lemma ContentsIs(c: TreeCache)
    ensures c.Contents() == R.List(c.filed)
  {
  }

  /**
   * What an insertion keeps is the longest run of most recent trees that fits the budget, and that always
   * includes the new tree.
   */
  lemma InsertKeepsLongestSuffix(list: seq<R.Held<ObjectId, DecodedTree>>, new_: R.Held<ObjectId, DecodedTree>, entrySize: nat, maxBytes: nat)
    returns (i: nat)
    requires HeapBytes(entrySize)(new_.value) <= maxBytes
    ensures i <= |list|
    ensures R.Keep(list + [new_], HeapBytes(entrySize), Within(maxBytes)) == list[i..] + [new_]
    ensures R.Total(list[i..] + [new_], HeapBytes(entrySize)) <= maxBytes
    ensures forall j :: 0 <= j < i ==> R.Total(list[j..] + [new_], HeapBytes(entrySize)) > maxBytes
  {
    var all, cost := list + [new_], HeapBytes(entrySize);
    i := R.KeepsLongestSuffix(all, cost, Within(maxBytes));
    R.KeepsNewest(all, cost, Within(maxBytes));
    hide HeapBytes;
    assert forall j :: 0 <= j <= |list| ==> all[j..] == list[j..] + [new_];
  }
}
