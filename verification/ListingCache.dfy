/** The bounded cache of directory listings: bounded by directories and by entries, trimmed below both. */
module ListingCaches {
  import opened Wrappers
  import opened Bytes
  import Sorting
  import R = Recency

  type Path = ByteString

  /** A directory's complete listing, in the server's order, by child name. */
  datatype Listing = Listing(entries: seq<ByteString>)

  datatype Slot = Slot(listing: Listing, used: nat)

  function Entries(): Listing -> nat {
    (l: Listing) => |l.entries|
  }

  /** Room below nine tenths of both bounds. */
  function Headroom(dirs: nat, entries: nat): (nat, nat) -> bool {
    (total: nat, count: nat) => count <= dirs * 9 / 10 && total <= entries * 9 / 10
  }

  /** Slots that hold exactly these listings, each with the clock of its last use. */
  predicate Slotted(dirs: map<Path, Slot>, clock: nat, filed: seq<R.Filed<Path, Listing>>) {
    && R.Increasing(filed)
    && (forall e <- filed :: e.key in dirs && dirs[e.key] == Slot(e.value, e.tick) && e.tick <= clock)
    && (forall k <- dirs :: R.Filed(dirs[k].used, k, dirs[k].listing) in filed)
  }

  lemma SlottedOnce(dirs: map<Path, Slot>, clock: nat, filed: seq<R.Filed<Path, Listing>>)
    requires Slotted(dirs, clock, filed)
    ensures forall i, j :: 0 <= i < j < |filed| ==> filed[i].key != filed[j].key
    ensures |dirs| == |filed|
  {
    forall i | 0 <= i < |filed| ensures filed[i].key in dirs && dirs[filed[i].key].used == filed[i].tick {
      assert filed[i] in filed;
    }
    forall i, j | 0 <= i < j < |filed| ensures filed[i].key != filed[j].key {
      assert filed[i].tick < filed[j].tick;
    }
    SlotsCounted(dirs, filed);
  }

  lemma {:induction false} SlotsCounted(dirs: map<Path, Slot>, filed: seq<R.Filed<Path, Listing>>)
    requires forall i, j :: 0 <= i < j < |filed| ==> filed[i].key != filed[j].key
    requires forall i :: 0 <= i < |filed| ==> filed[i].key in dirs
    requires forall k <- dirs :: R.Filed(dirs[k].used, k, dirs[k].listing) in filed
    ensures |dirs| == |filed|
  {
    if |filed| == 0 {
      assert dirs == map[];
    } else {
      var n := |filed| - 1;
      var rest, fewer := filed[..n], dirs - {filed[n].key};
      assert filed == rest + [filed[n]];
      SlotsCounted(fewer, rest);
      assert dirs.Keys == fewer.Keys + {filed[n].key};
    }
  }

  lemma SlotAt(dirs: map<Path, Slot>, clock: nat, filed: seq<R.Filed<Path, Listing>>, key: Path)
    requires Slotted(dirs, clock, filed)
    ensures key in dirs <==> R.Position(R.List(filed), key).Some?
    ensures key in dirs ==>
              filed[R.Position(R.List(filed), key).value] == R.Filed(dirs[key].used, key, dirs[key].listing)
  {
    var position := R.Position(R.List(filed), key);
    if position.Some? {
      assert filed[position.value] in filed;
    }
    if key in dirs {
      var e := R.Filed(dirs[key].used, key, dirs[key].listing);
      var i :| 0 <= i < |filed| && filed[i] == e;
      assert R.List(filed)[i].key == key;
    }
  }

  lemma RemoveSlot(dirs: map<Path, Slot>, clock: nat, filed: seq<R.Filed<Path, Listing>>, i: nat)
    requires Slotted(dirs, clock, filed) && i < |filed|
    ensures Slotted(dirs - {filed[i].key}, clock, R.RemoveAt(filed, i))
    ensures R.List(R.RemoveAt(filed, i)) == R.RemoveAt(R.List(filed), i)
  {
    R.RemoveIncreasing(filed, i);
    R.RemoveAtMembers(filed, i);
    hide R.RemoveAt;
    hide R.List;
    OneSlotLess(dirs, clock, filed, filed[i], R.RemoveAt(filed, i));
  }

  lemma OneSlotLess(dirs: map<Path, Slot>, clock: nat, filed: seq<R.Filed<Path, Listing>>, e: R.Filed<Path, Listing>, fewer: seq<R.Filed<Path, Listing>>)
    requires Slotted(dirs, clock, filed) && e in filed
    requires R.Increasing(fewer) && forall x :: x in fewer <==> x in filed && x != e
    ensures Slotted(dirs - {e.key}, clock, fewer)
  {
    hide R.Increasing;
    var dirs' := dirs - {e.key};
    forall x <- fewer ensures x.key in dirs' && dirs'[x.key] == Slot(x.value, x.tick) && x.tick <= clock {
      assert x in filed;
    }
    forall k <- dirs' ensures R.Filed(dirs'[k].used, k, dirs'[k].listing) in fewer {
      assert R.Filed(dirs[k].used, k, dirs[k].listing) in filed;
    }
  }

  lemma PushSlot(dirs: map<Path, Slot>, clock: nat, filed: seq<R.Filed<Path, Listing>>, key: Path, listing: Listing)
    requires Slotted(dirs, clock, filed) && key !in dirs
    ensures Slotted(dirs[key := Slot(listing, clock + 1)], clock + 1, filed + [R.Filed(clock + 1, key, listing)])
    ensures R.List(filed + [R.Filed(clock + 1, key, listing)]) == R.List(filed) + [R.Held(key, listing)]
  {
    var e := R.Filed(clock + 1, key, listing);
    var more := filed + [e];
    forall i | 0 <= i < |filed| ensures filed[i].tick <= clock {
      assert filed[i] in filed;
    }
    assert R.Increasing(more);
    forall x <- more ensures x.tick <= clock + 1 && (x == e || x.key != key) {
      if x != e { assert x in filed; }
    }
    assert e in more;
  }

  lemma LaterClock(dirs: map<Path, Slot>, clock: nat, filed: seq<R.Filed<Path, Listing>>)
    requires Slotted(dirs, clock, filed)
    ensures Slotted(dirs, clock + 1, filed)
  {
  }

  // ---------------------------------------------------------------------------
  // Slots by age
  // ---------------------------------------------------------------------------

  datatype Aged = Aged(used: nat, path: Path)

  predicate Older(a: Aged, b: Aged) {
    a.used <= b.used
  }

  function ByAge(filed: seq<R.Filed<Path, Listing>>): (r: seq<Aged>)
    ensures |r| == |filed|
  {
    seq(|filed|, i requires 0 <= i < |filed| => Aged(filed[i].tick, filed[i].key))
  }

  /** Every slot once, in whatever order the map has them. */
  predicate Collected(dirs: map<Path, Slot>, s: seq<Aged>) {
    && (forall a <- s :: a.path in dirs && dirs[a.path].used == a.used)
    && (forall k <- dirs :: Aged(dirs[k].used, k) in s)
    && Distinct(s)
  }

  lemma CollectedMultiset(s: seq<Aged>, t: seq<Aged>)
    requires Distinct(s)
    requires Distinct(t)
    requires forall a :: a in s <==> a in t
    ensures multiset(s) == multiset(t)
  {
    forall a ensures multiset(s)[a] == multiset(t)[a] {
      DistinctAt(s, a);
      DistinctAt(t, a);
    }
  }

  /** Sorting the slots by last use gives the recency list, whatever order they were collected in. */
  lemma SortedIsByAge(dirs: map<Path, Slot>, clock: nat, filed: seq<R.Filed<Path, Listing>>, s: seq<Aged>)
    requires Slotted(dirs, clock, filed) && Collected(dirs, s)
    ensures Sorting.Sort(Older, s) == ByAge(filed)
  {
    var aged := ByAge(filed);
    hide Sorting.Sort;
    forall i, j | 0 <= i < j < |aged| ensures aged[i].used < aged[j].used {
      assert filed[i].tick < filed[j].tick;
    }
    forall a ensures a in s <==> a in aged {
      if a in s {
        var e := R.Filed(a.used, a.path, dirs[a.path].listing);
        var i :| 0 <= i < |filed| && filed[i] == e;
        assert aged[i] == a;
      }
      if a in aged {
        var i :| 0 <= i < |aged| && aged[i] == a;
        assert filed[i] in filed;
      }
    }
    CollectedMultiset(s, aged);
    OlderPreorder();
    Sorting.SortSorts(Older, s);
    Sorting.SortPermutes(Older, s);
    Sorting.SortedUnique(Older, aged, Sorting.Sort(Older, s));
  }

  lemma OlderPreorder()
    ensures Sorting.TotalPreorder(Older)
  {
  }

  // ---------------------------------------------------------------------------
  // The cache
  // ---------------------------------------------------------------------------

  class ListingCache {
    const capacityDirs: nat
    const capacityEntries: nat
    var dirs: map<Path, Slot>
    var entries: nat
    var clock: nat
    ghost var filed: seq<R.Filed<Path, Listing>>

    ghost predicate Counted()
      reads this
    {
      Slotted(dirs, clock, filed) && entries == R.Total(R.List(filed), Entries())
    }

    ghost predicate Valid()
      reads this
    {
      && Counted() && capacityDirs > 0 && capacityEntries > 0
      && |filed| <= capacityDirs && entries <= capacityEntries
    }

    /** What is cached, least recently used first. */
    ghost function Contents(): seq<R.Held<Path, Listing>>
      reads this
    {
      R.List(filed)
    }

    constructor (capacityDirs: nat, capacityEntries: nat)
      ensures Valid() && Contents() == []
      ensures this.capacityDirs == (if capacityDirs < 1 then 1 else capacityDirs)
      ensures this.capacityEntries == (if capacityEntries < 1 then 1 else capacityEntries)
    {
      this.capacityDirs := if capacityDirs < 1 then 1 else capacityDirs;
      this.capacityEntries := if capacityEntries < 1 then 1 else capacityEntries;
      dirs, entries, clock, filed := map[], 0, 0, [];
    }

    lemma Means()
      requires Counted()
      ensures Slotted(dirs, clock, filed) && entries == R.Total(R.List(filed), Entries()) && Contents() == R.List(filed)
      ensures |dirs| == |filed|
    {
      SlottedOnce(dirs, clock, filed);
      hide Slotted;
    }

    lemma ValidMeans()
      requires Valid()
      ensures Counted() && capacityDirs > 0 && capacityEntries > 0
      ensures |filed| <= capacityDirs && entries <= capacityEntries
    {
      hide Slotted;
    }

    lemma Holds()
      requires Slotted(dirs, clock, filed) && entries == R.Total(R.List(filed), Entries())
      ensures Counted() && Contents() == R.List(filed)
      ensures capacityDirs > 0 && capacityEntries > 0 && |filed| <= capacityDirs && entries <= capacityEntries ==> Valid()
    {
      hide Slotted;
    }

    method Get(dir: Path) returns (listing: Option<Listing>)
      requires Valid()
      modifies this
      ensures Valid() && Contents() == R.Touch(old(Contents()), dir)
      ensures listing == match R.Position(old(Contents()), dir)
                         case None => None
                         case Some(i) => Some(old(Contents())[i].value)
    {
      hide *;
      ValidMeans();
      Means();
      SlotAt(dirs, clock, filed, dir);
      R.TouchIs(Contents(), dir);
      clock := clock + 1;
      if dir !in dirs {
        LaterClock(dirs, clock - 1, filed);
        Holds();
        return None;
      }
      ghost var i := R.Position(R.List(filed), dir).value;
      var held := dirs[dir].listing;
      RemoveSlot(dirs, clock - 1, filed, i);
      PushSlot(dirs - {dir}, clock - 1, R.RemoveAt(filed, i), dir, held);
      R.TotalRemoveAt(R.List(filed), i, Entries());
      R.TotalSnoc(R.RemoveAt(R.List(filed), i), R.Held(dir, held), Entries());
      assert (dirs - {dir})[dir := Slot(held, clock)] == dirs[dir := Slot(held, clock)];
      R.ListAt(filed, i);
      dirs := dirs[dir := Slot(held, clock)];
      filed := R.RemoveAt(filed, i) + [R.Filed(clock, dir, held)];
      Holds();
      listing := Some(held);
    }

    /** Forget one listing, if it is held. */
    method Discard(dir: Path)
      requires Counted()
      modifies this`dirs, this`entries, this`filed
      ensures Counted() && dir !in dirs && Contents() == R.Without(old(Contents()), dir)
    {
      hide *;
      Means();
      SlotAt(dirs, clock, filed, dir);
      R.WithoutIs(Contents(), dir);
      if dir in dirs {
        ghost var i := R.Position(R.List(filed), dir).value;
        var replaced := dirs[dir].listing;
        RemoveSlot(dirs, clock, filed, i);
        R.TotalRemoveAt(R.List(filed), i, Entries());
        R.ListAt(filed, i);
        EntriesIs(replaced);
        dirs := dirs - {dir};
        entries := entries - |replaced.entries|;
        filed := R.RemoveAt(filed, i);
        Holds();
      }
    }

    /** Insert or replace as the newest; past either bound, evict the oldest until there is headroom below both. */
    method Insert(dir: Path, listing: Listing)
      requires Valid()
      modifies this
      ensures Valid()
      ensures var all := R.Without(old(Contents()), dir) + [R.Held(dir, listing)];
              Contents() ==
              if |all| <= capacityDirs && R.Total(all, Entries()) <= capacityEntries then all
              else R.Keep(all, Entries(), Headroom(capacityDirs, capacityEntries))
    {
      hide *;
      ValidMeans();
      var added := |listing.entries|;
      Discard(dir);
      Means();
      PushSlot(dirs, clock, filed, dir, listing);
      R.TotalSnoc(R.List(filed), R.Held(dir, listing), Entries());
      EntriesIs(listing);
      clock := clock + 1;
      dirs := dirs[dir := Slot(listing, clock)];
      entries := entries + added;
      filed := filed + [R.Filed(clock, dir, listing)];
      Holds();
      Means();
      if |dirs| > capacityDirs || entries > capacityEntries {
        Trim();
      }
    }

    /** Every slot's age and path, in map order. */
    method Collect() returns (s: seq<Aged>)
      ensures Collected(dirs, s)
    {
      s := [];
      var pending := dirs.Keys;
      while pending != {}
        invariant pending <= dirs.Keys
        invariant Collected(map k | k in dirs && k !in pending :: dirs[k], s)
        decreases |pending|
      {
        var path: Path :| path in pending;
        pending := pending - {path};
        var a := Aged(dirs[path].used, path);
        assert a !in s;
        s := s + [a];
      }
      assert (map k | k in dirs && k !in pending :: dirs[k]) == dirs;
    }

    method Trim()
      requires Counted() && capacityDirs > 0 && capacityEntries > 0
      modifies this`dirs, this`entries, this`filed
      ensures Valid()
      ensures Contents() == R.Keep(old(Contents()), Entries(), Headroom(capacityDirs, capacityEntries))
    {
      hide *;
      var targetDirs, targetEntries := capacityDirs * 9 / 10, capacityEntries * 9 / 10;
      Means();
      var collected := Collect();
      SortedIsByAge(dirs, clock, filed, collected);
      var byAge := Sorting.Sort(Older, collected);
      ghost var all, room := filed, Headroom(capacityDirs, capacityEntries);
      var i := 0;
      WholeSlices(filed);
      while i < |byAge|
        invariant i <= |byAge| && byAge == ByAge(all) && |byAge| == |all| && filed == all[i..]
        invariant Slotted(dirs, clock, filed) && entries == R.Total(R.List(filed), Entries()) && |dirs| == |filed|
        invariant R.Keep(R.List(filed), Entries(), room) == R.Keep(R.List(all), Entries(), room)
      {
        R.KeepStep(R.List(filed), Entries(), room);
        HeadroomIs(capacityDirs, capacityEntries, entries, |dirs|);
        if |dirs| <= targetDirs && entries <= targetEntries {
          break;
        }
        OldestOut();
        AgeAt(all, i);
        var path := byAge[i].path;
        assert path in dirs;
        entries := entries - |dirs[path].listing.entries|;
        dirs := dirs - {path};
        filed := filed[1..];
        i := i + 1;
        SlottedOnce(dirs, clock, filed);
      }
      R.KeepStep(R.List(filed), Entries(), room);
      HeadroomIs(capacityDirs, capacityEntries, entries, |dirs|);
      Holds();
    }

    lemma OldestOut()
      requires Slotted(dirs, clock, filed) && entries == R.Total(R.List(filed), Entries()) && |filed| > 0
      ensures var e := filed[0];
              && e.key in dirs && dirs[e.key].listing == e.value
              && Slotted(dirs - {e.key}, clock, filed[1..])
              && entries >= |e.value.entries| && entries - |e.value.entries| == R.Total(R.List(filed[1..]), Entries())
      ensures R.List(filed[1..]) == R.List(filed)[1..]
    {
      RemoveSlot(dirs, clock, filed, 0);
      R.TotalRemoveAt(R.List(filed), 0, Entries());
      assert filed[0] in filed;
      hide Slotted;
      assert R.RemoveAt(filed, 0) == filed[1..];
      assert R.RemoveAt(R.List(filed), 0) == R.List(filed)[1..];
    }
  }

  lemma EntriesIs(l: Listing)
    ensures Entries()(l) == |l.entries|
  {
  }

  lemma HeadroomIs(dirs: nat, entries: nat, total: nat, count: nat)
    ensures Headroom(dirs, entries)(total, count) <==> count <= dirs * 9 / 10 && total <= entries * 9 / 10
    ensures dirs * 9 / 10 <= dirs && entries * 9 / 10 <= entries
  {
  }

  lemma AgeAt(all: seq<R.Filed<Path, Listing>>, i: nat)
    requires i < |all|
    ensures ByAge(all)[i].path == all[i..][0].key && all[i..][1..] == all[i + 1..]
  {
  }

  /**
   * The listing just inserted survives its own insertion exactly when nothing has to be trimmed or it fits
   * the trimmed bounds by itself; otherwise the trim empties the cache.
   */
  lemma NewestSurvivesExactly(list: seq<R.Held<Path, Listing>>, x: R.Held<Path, Listing>, dirs: nat, entries: nat)
    ensures var kept := R.Keep(list + [x], Entries(), Headroom(dirs, entries));
            if Headroom(dirs, entries)(|x.value.entries|, 1) then x in kept else kept == []
  {
    var all, room := list + [x], Headroom(dirs, entries);
    var i := R.KeepsLongestSuffix(all, Entries(), room);
    if room(|x.value.entries|, 1) {
      R.KeepsNewest(all, Entries(), room);
    } else if i < |all| {
      assert all[i..] == all[i..|all| - 1] + [x];
      R.TotalSnoc(all[i..|all| - 1], x, Entries());
    }
  }

  /** A cache of one directory trims to none: the second directory ever inserted leaves it empty. */
  lemma OneDirectoryTrimsToNone(first: R.Held<Path, Listing>, second: R.Held<Path, Listing>, entries: nat)
    ensures R.Keep([first, second], Entries(), Headroom(1, entries)) == []
  {
    NewestSurvivesExactly([first], second, 1, entries);
    assert [first] + [second] == [first, second];
  }
}
