/** The bounded cache of registered backing files: bounded by bytes and by count, never replacing. */
module BackingCaches {
  import opened Wrappers
  import opened Bytes
  import R = Recency

  const BACKING_CACHE_BYTES: nat := 0x1000_0000
  const BACKING_CACHE_ENTRIES: nat := 0x1_0000

  /** 256 MiB, and 65536 files. */
  lemma Bounds()
    ensures BACKING_CACHE_BYTES == 256 * 1024 * 1024 && BACKING_CACHE_ENTRIES == 65_536
  {
  }

  type Key = ByteString

  datatype Backing = Backing(bytes: nat, id: nat)

  function Size(): Backing -> nat {
    (b: Backing) => b.bytes
  }

  /** Room for one more entry of this size. */
  function RoomFor(bytes: nat): (nat, nat) -> bool {
    (total: nat, count: nat) => total + bytes <= BACKING_CACHE_BYTES && count < BACKING_CACHE_ENTRIES
  }

  class BackingCache {
    var bytes: nat
    var tick: nat
    var entries: map<Key, (Backing, nat)>
    var order: map<nat, Key>
    ghost var filed: seq<R.Filed<Key, Backing>>

    ghost predicate Counted()
      reads this
    {
      R.Files(entries, order, tick, filed) && bytes == R.Total(R.List(filed), Size())
    }

    ghost predicate Valid()
      reads this
    {
      Counted() && bytes <= BACKING_CACHE_BYTES && |filed| <= BACKING_CACHE_ENTRIES
    }

    /** What is cached, least recently used first. */
    ghost function Contents(): seq<R.Held<Key, Backing>>
      reads this
    {
      R.List(filed)
    }

    constructor ()
      ensures Valid() && Contents() == []
    {
      bytes, tick, entries, order, filed := 0, 0, map[], map[], [];
    }

    lemma Means()
      requires Valid()
      ensures R.Files(entries, order, tick, filed) && bytes == R.Total(R.List(filed), Size())
      ensures bytes <= BACKING_CACHE_BYTES && |filed| <= BACKING_CACHE_ENTRIES && Contents() == R.List(filed)
      ensures |entries| == |filed|
    {
      R.FiledOnce(entries, order, tick, filed);
      hide R.Files;
    }

    lemma Holds()
      requires R.Files(entries, order, tick, filed) && bytes == R.Total(R.List(filed), Size())
      ensures bytes <= BACKING_CACHE_BYTES && |filed| <= BACKING_CACHE_ENTRIES ==> Valid()
      ensures Contents() == R.List(filed) && |entries| == |filed|
    {
      R.FiledOnce(entries, order, tick, filed);
      hide R.Files;
    }

    method Get(key: Key) returns (backing: Option<Backing>)
      requires Valid()
      modifies this
      ensures Valid() && Contents() == R.Touch(old(Contents()), key)
      ensures backing == match R.Position(old(Contents()), key)
                         case None => None
                         case Some(i) => Some(old(Contents())[i].value)
    {
      hide *;
      Means();
      R.HeldAt(entries, order, tick, filed, key);
      R.TouchIs(Contents(), key);
      if key !in entries {
        return None;
      }
      ghost var i := R.Position(R.List(filed), key).value;
      var (held, oldTick) := entries[key];
      R.RemoveFiled(entries, order, tick, filed, i);
      R.PushFiled(entries - {key}, order - {oldTick}, tick, R.RemoveAt(filed, i), key, held);
      R.TotalRemoveAt(R.List(filed), i, Size());
      R.TotalSnoc(R.RemoveAt(R.List(filed), i), R.Held(key, held), Size());
      assert (entries - {key})[key := (held, tick + 1)] == entries[key := (held, tick + 1)];
      R.ListAt(filed, i);
      order := order - {oldTick};
      tick := tick + 1;
      entries := entries[key := (held, tick)];
      order := order[tick := key];
      filed := R.RemoveAt(filed, i) + [R.Filed(tick, key, held)];
      Holds();
      backing := Some(held);
    }

    lemma FirstOut()
      requires R.Files(entries, order, tick, filed) && bytes == R.Total(R.List(filed), Size())
      requires order.Keys != {}
      ensures |filed| > 0
      ensures var t := R.Least(order.Keys);
              && t in order && order[t] in entries
              && var held := entries[order[t]].0;
                 && R.Files(entries - {order[t]}, order - {t}, tick, filed[1..])
                 && bytes >= held.bytes && bytes - held.bytes == R.Total(R.List(filed[1..]), Size())
      ensures R.List(filed[1..]) == R.List(filed)[1..]
    {
      R.OldestFirst(entries, order, tick, filed);
      R.RemoveFiled(entries, order, tick, filed, 0);
      R.TotalRemoveAt(R.List(filed), 0, Size());
      assert R.FiledIn(entries, order, tick, filed[0]);
      hide R.Files;
      assert R.RemoveAt(filed, 0) == filed[1..];
      assert R.RemoveAt(R.List(filed), 0) == R.List(filed)[1..];
    }

    /**
     * Insert as the newest: nothing happens for a key already held or an entry larger than the whole
     * budget; otherwise the oldest are evicted until there is room.
     */
    method Insert(key: Key, backing: Backing)
      requires Valid()
      modifies this
      ensures Valid()
      ensures Contents() ==
              if backing.bytes > BACKING_CACHE_BYTES || R.Position(old(Contents()), key).Some? then old(Contents())
              else R.Keep(old(Contents()), Size(), RoomFor(backing.bytes)) + [R.Held(key, backing)]
    {
      hide *;
      Means();
      R.HeldAt(entries, order, tick, filed, key);
      if backing.bytes > BACKING_CACHE_BYTES || key in entries {
        return;
      }
      ghost var all := R.List(filed);
      while bytes + backing.bytes > BACKING_CACHE_BYTES || |entries| >= BACKING_CACHE_ENTRIES
        invariant R.Files(entries, order, tick, filed) && bytes == R.Total(R.List(filed), Size())
        invariant |entries| == |filed| && key !in entries
        invariant R.Keep(R.List(filed), Size(), RoomFor(backing.bytes)) == R.Keep(all, Size(), RoomFor(backing.bytes))
        decreases |order|
      {
        R.OldestFirst(entries, order, tick, filed);
        R.KeepStep(R.List(filed), Size(), RoomFor(backing.bytes));
        RoomIs(backing.bytes, bytes, |filed|);
        if order.Keys == {} {
          break;
        }
        FirstOut();
        var oldestTick := R.Least(order.Keys);
        var oldest := order[oldestTick];
        order := order - {oldestTick};
        var evicted := entries[oldest].0;
        entries := entries - {oldest};
        bytes := bytes - evicted.bytes;
        filed := filed[1..];
        R.FiledOnce(entries, order, tick, filed);
      }
      R.KeepStep(R.List(filed), Size(), RoomFor(backing.bytes));
      RoomIs(backing.bytes, bytes, |filed|);
      R.PushFiled(entries, order, tick, filed, key, backing);
      R.TotalSnoc(R.List(filed), R.Held(key, backing), Size());
      SizeIs(backing);
      tick := tick + 1;
      order := order[tick := key];
      bytes := bytes + backing.bytes;
      entries := entries[key := (backing, tick)];
      filed := filed + [R.Filed(tick, key, backing)];
      Holds();
    }

    method Remove(key: Key)
      requires Valid()
      modifies this
      ensures Valid() && Contents() == R.Without(old(Contents()), key)
    {
      hide *;
      Means();
      R.HeldAt(entries, order, tick, filed, key);
      R.WithoutIs(Contents(), key);
      if key in entries {
        ghost var i := R.Position(R.List(filed), key).value;
        var (evicted, oldTick) := entries[key];
        R.RemoveFiled(entries, order, tick, filed, i);
        R.TotalRemoveAt(R.List(filed), i, Size());
        R.ListAt(filed, i);
        SizeIs(evicted);
        entries := entries - {key};
        order := order - {oldTick};
        bytes := bytes - evicted.bytes;
        filed := R.RemoveAt(filed, i);
        Holds();
      }
    }
  }

  lemma RoomIs(bytes: nat, total: nat, count: nat)
    ensures RoomFor(bytes)(total, count) <==> total + bytes <= 0x1000_0000 && count < 0x1_0000
    ensures BACKING_CACHE_BYTES == 0x1000_0000 && BACKING_CACHE_ENTRIES == 0x1_0000
  {
  }

  lemma SizeIs(b: Backing)
    ensures Size()(b) == b.bytes
  {
  }

  /** What an insertion keeps is the longest run of most recent entries that leaves room for the new one. */
  lemma InsertKeepsLongestSuffix(list: seq<R.Held<Key, Backing>>, backing: Backing) returns (i: nat)
    ensures i <= |list| && R.Keep(list, Size(), RoomFor(backing.bytes)) == list[i..]
    ensures i < |list| ==> R.Total(list[i..], Size()) + backing.bytes <= BACKING_CACHE_BYTES && |list| - i < BACKING_CACHE_ENTRIES
    ensures forall j :: 0 <= j < i ==>
              R.Total(list[j..], Size()) + backing.bytes > BACKING_CACHE_BYTES || |list| - j >= BACKING_CACHE_ENTRIES
  {
    i := R.KeepsLongestSuffix(list, Size(), RoomFor(backing.bytes));
  }
}
