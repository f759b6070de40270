/** The blob cache's index: sizes, last uses and pins, kept within a byte quota. */
module BlobIndexes {
  import opened Wrappers
  import opened Bytes
  import Sorting

  type Key = ByteString

  datatype Entry = Entry(size: nat, lastUsed: nat, pins: nat)

  datatype Index = Index(entries: map<Key, Entry>, bytes: int, clock: nat)

  /** A lookup marks an entry used; the clock moves on either way. */
  function Use(ix: Index, key: Key): (Index, bool) {
    var clock := ix.clock + 1;
    if key in ix.entries then (Index(ix.entries[key := ix.entries[key].(lastUsed := clock)], ix.bytes, clock), true)
    else (ix.(clock := clock), false)
  }

  function Pin(ix: Index, key: Key): (Index, bool) {
    var clock := ix.clock + 1;
    if key in ix.entries then
      (Index(ix.entries[key := ix.entries[key].(lastUsed := clock, pins := ix.entries[key].pins + 1)], ix.bytes, clock), true)
    else (ix.(clock := clock), false)
  }

  function Unpin(ix: Index, key: Key): Index {
    if key in ix.entries then
      var pins := ix.entries[key].pins;
      ix.(entries := ix.entries[key := ix.entries[key].(pins := if pins > 0 then pins - 1 else 0)])
    else ix
  }

  /** A published blob replaces whatever the index held under its key, unpinned. */
  function Insert(ix: Index, key: Key, size: nat): Index {
    var clock := ix.clock + 1;
    var previous := if key in ix.entries then ix.entries[key].size else 0;
    Index(ix.entries[key := Entry(size, clock, 0)], ix.bytes - previous + size, clock)
  }

  /** `saturating_sub`. */
  function Drop(ix: Index, key: Key): Index
    requires key in ix.entries
  {
    var size := ix.entries[key].size;
    Index(ix.entries - {key}, if ix.bytes > size then ix.bytes - size else 0, ix.clock)
  }

  /** Evict along `order` while over quota; a file that cannot be deleted keeps its entry. */
  function EvictAlong(ix: Index, order: seq<Key>, quota: nat, stuck: set<Key>): Index
    decreases |order|
  {
    if |order| == 0 || ix.bytes <= quota then ix
    else if order[0] in stuck || order[0] !in ix.entries then EvictAlong(ix, order[1..], quota, stuck)
    else EvictAlong(Drop(ix, order[0]), order[1..], quota, stuck)
  }

  /** No use is later than the clock. */
  predicate Clocked(ix: Index) {
    forall k <- ix.entries :: ix.entries[k].lastUsed <= ix.clock
  }

  /** A lookup, an open and a publication make their key the last used, strictly; of another key nothing changes. */
  lemma HitIsNewest(ix: Index, key: Key, other: Key, size: nat)
    requires Clocked(ix) && other in ix.entries && other != key
    ensures forall after <- [Use(ix, key).0, Pin(ix, key).0, Insert(ix, key, size)] ::
              && Clocked(after) && other in after.entries && after.entries[other] == ix.entries[other]
              && (key in after.entries ==> after.entries[other].lastUsed < after.entries[key].lastUsed)
    ensures Use(ix, key).1 == Pin(ix, key).1 == (key in ix.entries)
  {
    assert ix.entries[other].lastUsed <= ix.clock;
  }

  /** Nothing but those moves a use: a release and an eviction leave every last use as it was. */
  lemma OthersKeepUses(ix: Index, key: Key, k: Key)
    requires k in ix.entries
    ensures k in Unpin(ix, key).entries && Unpin(ix, key).entries[k].lastUsed == ix.entries[k].lastUsed
    ensures key in ix.entries && k != key ==> k in Drop(ix, key).entries && Drop(ix, key).entries[k] == ix.entries[k]
    ensures Clocked(ix) ==> Clocked(Unpin(ix, key))
  {
  }

  // ---------------------------------------------------------------------------
  // Totals
  // ---------------------------------------------------------------------------

  ghost function Total(entries: map<Key, Entry>): nat
    decreases |entries|
  {
    if entries == map[] then 0
    else
      var k :| k in entries;
      entries[k].size + Total(entries - {k})
  }

  lemma {:induction false} TotalRemove(entries: map<Key, Entry>, key: Key)
    requires key in entries
    ensures Total(entries) == entries[key].size + Total(entries - {key})
    decreases |entries|
  {
    var k: Key :| k in entries && Total(entries) == entries[k].size + Total(entries - {k});
    if k != key {
      TotalRemove(entries - {k}, key);
      TotalRemove(entries - {key}, k);
      assert entries - {k} - {key} == entries - {key} - {k};
    }
  }

  lemma TotalPut(entries: map<Key, Entry>, key: Key, e: Entry)
    ensures Total(entries[key := e]) + (if key in entries then entries[key].size else 0) == Total(entries) + e.size
  {
    TotalRemove(entries[key := e], key);
    assert entries[key := e] - {key} == entries - {key};
    if key in entries {
      TotalRemove(entries, key);
    } else {
      assert entries - {key} == entries;
    }
  }

  /** The byte count is the sum of the sizes held. */
  ghost predicate Counted(ix: Index) {
    ix.bytes == Total(ix.entries)
  }

  lemma UseCounts(ix: Index, key: Key)
    requires Counted(ix)
    ensures Counted(Use(ix, key).0) && Counted(Pin(ix, key).0) && Counted(Unpin(ix, key))
  {
    hide Total;
    if key in ix.entries {
      TotalPut(ix.entries, key, Use(ix, key).0.entries[key]);
      TotalPut(ix.entries, key, Pin(ix, key).0.entries[key]);
      TotalPut(ix.entries, key, Unpin(ix, key).entries[key]);
    }
  }

  lemma InsertCounts(ix: Index, key: Key, size: nat)
    requires Counted(ix)
    ensures Counted(Insert(ix, key, size))
  {
    hide Total;
    TotalPut(ix.entries, key, Entry(size, ix.clock + 1, 0));
  }

  /** Dropping an entry takes exactly its size; the subtraction never saturates. */
  lemma DropCounts(ix: Index, key: Key)
    requires Counted(ix) && key in ix.entries
    ensures Counted(Drop(ix, key)) && Drop(ix, key).bytes == ix.bytes - ix.entries[key].size
  {
    hide Total;
    TotalRemove(ix.entries, key);
  }

  // ---------------------------------------------------------------------------
  // Eviction
  // ---------------------------------------------------------------------------

  /** An order to evict in: the unpinned entries by last use, less those already passed over. */
  ghost predicate EvictionOrder(ix: Index, order: seq<Key>, stuck: set<Key>) {
    && (forall i :: 0 <= i < |order| ==> order[i] in ix.entries && ix.entries[order[i]].pins == 0)
    && (forall i, j :: 0 <= i < j < |order| ==> order[i] != order[j] && ix.entries[order[i]].lastUsed <= ix.entries[order[j]].lastUsed)
    && (forall k <- ix.entries :: ix.entries[k].pins == 0 ==> k in order || k in stuck)
  }

  /** The candidates: every unpinned entry, by last use. */
  ghost predicate Candidates(ix: Index, order: seq<Key>) {
    EvictionOrder(ix, order, {})
  }

  /** What an eviction may leave and take. */
  ghost predicate Evicted(before: Index, after: Index, quota: nat, stuck: set<Key>) {
    && after.clock == before.clock
    && (forall k <- after.entries :: k in before.entries && after.entries[k] == before.entries[k])
    && (forall k <- before.entries :: k !in after.entries ==> before.entries[k].pins == 0 && k !in stuck)
    && (after.bytes <= quota || forall k <- after.entries :: after.entries[k].pins > 0 || k in stuck)
    && (forall k <- before.entries, r <- after.entries ::
          k !in after.entries && after.entries[r].pins == 0 && r !in stuck ==> before.entries[k].lastUsed <= after.entries[r].lastUsed)
    && (after.entries == before.entries ||
        exists k <- before.entries :: k !in after.entries && after.bytes + before.entries[k].size > quota)
  }

  lemma PassOver(ix: Index, order: seq<Key>, stuck: set<Key>)
    requires EvictionOrder(ix, order, stuck) && |order| > 0 && order[0] in stuck
    ensures EvictionOrder(ix, order[1..], stuck)
  {
    assert order == [order[0]] + order[1..];
  }

  lemma TakeFirst(ix: Index, order: seq<Key>, stuck: set<Key>)
    requires EvictionOrder(ix, order, stuck) && |order| > 0
    ensures EvictionOrder(Drop(ix, order[0]), order[1..], stuck)
  {
    assert order == [order[0]] + order[1..];
  }

  /**
   * Evicting along an order takes only unpinned, deletable entries, oldest use first, no more than needed, and
   * ends within quota or with nothing left but pinned and undeletable entries.
   */
  lemma {:induction false} EvictsToQuota(ix: Index, order: seq<Key>, quota: nat, stuck: set<Key>)
    requires Counted(ix) && EvictionOrder(ix, order, stuck)
    ensures var after := EvictAlong(ix, order, quota, stuck);
            Counted(after) && Evicted(ix, after, quota, stuck)
    decreases |order|
  {
    hide Counted;
    if |order| == 0 || ix.bytes <= quota {
    } else if order[0] in stuck {
      PassOver(ix, order, stuck);
      EvictsToQuota(ix, order[1..], quota, stuck);
    } else {
      DropCounts(ix, order[0]);
      TakeFirst(ix, order, stuck);
      EvictsToQuota(Drop(ix, order[0]), order[1..], quota, stuck);
      SameBytes(Drop(ix, order[0]), EvictAlong(Drop(ix, order[0]), order[1..], quota, stuck));
      OneMore(ix, order, EvictAlong(Drop(ix, order[0]), order[1..], quota, stuck), quota, stuck);
    }
  }

  lemma SameBytes(a: Index, b: Index)
    requires Counted(a) && Counted(b)
    ensures a.entries == b.entries ==> a.bytes == b.bytes
  {
  }

  lemma OneMore(ix: Index, order: seq<Key>, after: Index, quota: nat, stuck: set<Key>)
    requires EvictionOrder(ix, order, stuck) && |order| > 0 && order[0] !in stuck && ix.bytes > quota
    requires Drop(ix, order[0]).bytes == ix.bytes - ix.entries[order[0]].size
    requires Evicted(Drop(ix, order[0]), after, quota, stuck)
    requires after.entries == Drop(ix, order[0]).entries ==> after.bytes == Drop(ix, order[0]).bytes
    ensures Evicted(ix, after, quota, stuck)
  {
    var first, mid := order[0], Drop(ix, order[0]);
    assert first !in after.entries;
    forall r <- after.entries | after.entries[r].pins == 0 && r !in stuck ensures ix.entries[first].lastUsed <= after.entries[r].lastUsed {
      assert r in order;
    }
    if after.entries == mid.entries {
      assert after.bytes + ix.entries[first].size > quota;
    } else {
      var k :| k in mid.entries && k !in after.entries && after.bytes + mid.entries[k].size > quota;
      assert k in ix.entries;
    }
  }

  // ---------------------------------------------------------------------------
  // The index in place
  // ---------------------------------------------------------------------------

  datatype Candidate = Candidate(key: Key, lastUsed: nat)

  predicate Older(a: Candidate, b: Candidate) {
    a.lastUsed <= b.lastUsed
  }

  /** The keys of some candidates. */
  function KeysOf(s: seq<Candidate>): (r: seq<Key>)
    ensures |r| == |s| && forall i :: 0 <= i < |r| ==> r[i] == s[i].key
  {
    seq(|s|, i requires 0 <= i < |s| => s[i].key)
  }

  /** Each unpinned entry once, in the map's order. */
  ghost predicate Collected(entries: map<Key, Entry>, s: seq<Candidate>) {
    && (forall c <- s :: c.key in entries && entries[c.key].pins == 0 && entries[c.key].lastUsed == c.lastUsed)
    && (forall k <- entries :: entries[k].pins == 0 ==> Candidate(k, entries[k].lastUsed) in s)
    && (forall i, j :: 0 <= i < j < |s| ==> s[i].key != s[j].key)
  }

  lemma OlderPreorder()
    ensures Sorting.TotalPreorder(Older)
  {
  }

  /** A permutation collects the same candidates. */
  lemma StillCollected(entries: map<Key, Entry>, s: seq<Candidate>, t: seq<Candidate>)
    requires Collected(entries, s) && multiset(s) == multiset(t)
    ensures Collected(entries, t)
  {
    assert Distinct(s);
    DistinctCounts(s);
    DistinctCounts(t);
    forall c ensures c in t <==> c in s {
      assert c in t <==> c in multiset(t);
    }
    forall i, j | 0 <= i < j < |t| ensures t[i].key != t[j].key {
      assert t[i] in t && t[j] in t && t[i] != t[j];
    }
  }

  lemma InAgeOrder(ix: Index, s: seq<Candidate>)
    requires Collected(ix.entries, s) && Sorting.SortedBy(Older, s)
    ensures Candidates(ix, KeysOf(s))
  {
    var order := KeysOf(s);
    forall i | 0 <= i < |order| ensures order[i] in ix.entries && ix.entries[order[i]].pins == 0 && ix.entries[order[i]].lastUsed == s[i].lastUsed {
      assert s[i] in s;
    }
    forall i, j | 0 <= i < j < |order| ensures order[i] != order[j] && ix.entries[order[i]].lastUsed <= ix.entries[order[j]].lastUsed {
      assert Older(s[i], s[j]);
    }
    forall k <- ix.entries | ix.entries[k].pins == 0 ensures k in order {
      var c := Candidate(k, ix.entries[k].lastUsed);
      assert c in s;
      var i :| 0 <= i < |s| && s[i] == c;
      assert order[i] == k;
    }
  }

  /** Sorting the collected candidates by last use gives an eviction order. */
  lemma SortedCandidates(ix: Index, s: seq<Candidate>)
    requires Collected(ix.entries, s)
    ensures Candidates(ix, KeysOf(Sorting.Sort(Older, s)))
  {
    OlderPreorder();
    hide *;
    Sorting.SortSorts(Older, s);
    Sorting.SortPermutes(Older, s);
    StillCollected(ix.entries, s, Sorting.Sort(Older, s));
    InAgeOrder(ix, Sorting.Sort(Older, s));
  }

  class BlobIndex {
    var entries: map<Key, Entry>
    var bytes: int
    var clock: nat

    function State(): Index
      reads this
    {
      Index(entries, bytes, clock)
    }

    constructor ()
      ensures State() == Index(map[], 0, 0)
    {
      entries, bytes, clock := map[], 0, 0;
    }

    method Touch(key: Key) returns (present: bool)
      modifies this
      ensures (State(), present) == Use(old(State()), key)
    {
      clock := clock + 1;
      present := key in entries;
      if present {
        entries := entries[key := entries[key].(lastUsed := clock)];
      }
    }

    method PinOpened(key: Key) returns (present: bool)
      modifies this
      ensures (State(), present) == Pin(old(State()), key)
    {
      clock := clock + 1;
      present := key in entries;
      if present {
        entries := entries[key := entries[key].(pins := entries[key].pins + 1, lastUsed := clock)];
      }
    }

    method Release(key: Key)
      modifies this
      ensures State() == Unpin(old(State()), key)
    {
      if key in entries {
        var pins := entries[key].pins;
        entries := entries[key := entries[key].(pins := if pins > 0 then pins - 1 else 0)];
      }
    }

    method Publish(key: Key, size: nat)
      modifies this
      ensures State() == Insert(old(State()), key, size)
    {
      clock := clock + 1;
      if key in entries {
        bytes := bytes - entries[key].size;
      }
      entries := entries[key := Entry(size, clock, 0)];
      bytes := bytes + size;
    }

    method Collect() returns (s: seq<Candidate>)
      ensures Collected(entries, s)
    {
      s := [];
      var pending := entries.Keys;
      while pending != {}
        invariant pending <= entries.Keys
        invariant Collected(map k | k in entries && k !in pending :: entries[k], s)
        decreases |pending|
      {
        var key: Key :| key in pending;
        pending := pending - {key};
        if entries[key].pins == 0 {
          var c := Candidate(key, entries[key].lastUsed);
          forall i | 0 <= i < |s| ensures s[i].key != key { assert s[i] in s; }
          s := s + [c];
        }
      }
      assert (map k | k in entries && k !in pending :: entries[k]) == entries;
    }

    /** Evict to the quota; `stuck` are the keys whose files cannot be deleted. */
    method EvictToQuota(quota: nat, stuck: set<Key>) returns (ghost order: seq<Key>)
      modifies this
      ensures Candidates(old(State()), order)
      ensures State() == EvictAlong(old(State()), order, quota, stuck)
    {
      hide *;
      var collected := Collect();
      StateIs(this);
      SortedCandidates(State(), collected);
      var candidates := Sorting.Sort(Older, collected);
      order := KeysOf(candidates);
      EvictEnd(State(), order, quota, stuck);
      if bytes <= quota {
        return;
      }
      WholeSlices(order);
      var i := 0;
      while i < |candidates|
        invariant i <= |candidates| == |order|
        invariant EvictAlong(Index(entries, bytes, clock), order[i..], quota, stuck) == EvictAlong(old(State()), order, quota, stuck)
      {
        EvictStep(Index(entries, bytes, clock), order, i, quota, stuck);
        if bytes <= quota {
          break;
        }
        var key := candidates[i].key;
        if key !in stuck && key in entries {
          var size := entries[key].size;
          entries := entries - {key};
          bytes := if bytes > size then bytes - size else 0;
        }
        i := i + 1;
      }
      EvictEnd(Index(entries, bytes, clock), order[i..], quota, stuck);
      StateIs(this);
    }
  }

  lemma StateIs(b: BlobIndex)
    ensures b.State() == Index(b.entries, b.bytes, b.clock)
  {
  }

  lemma EvictEnd(ix: Index, order: seq<Key>, quota: nat, stuck: set<Key>)
    ensures |order| == 0 || ix.bytes <= quota ==> EvictAlong(ix, order, quota, stuck) == ix
  {
  }

  lemma EvictStep(ix: Index, order: seq<Key>, i: nat, quota: nat, stuck: set<Key>)
    requires i < |order|
    ensures EvictAlong(ix, order[i..], quota, stuck) ==
            if ix.bytes <= quota then ix
            else if order[i] in stuck || order[i] !in ix.entries then EvictAlong(ix, order[i + 1..], quota, stuck)
            else
              var size := ix.entries[order[i]].size;
              EvictAlong(Index(ix.entries - {order[i]}, if ix.bytes > size then ix.bytes - size else 0, ix.clock), order[i + 1..], quota, stuck)
  {
    assert order[i..][1..] == order[i + 1..];
  }
}
