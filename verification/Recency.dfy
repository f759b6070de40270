/** What a bounded least-recently-used cache holds, as one list from the oldest use to the newest. */
module Recency {
  import opened Wrappers

  datatype Held<K, V> = Held(key: K, value: V)

  predicate DistinctKeys<K(==), V>(list: seq<Held<K, V>>) {
    forall i, j :: 0 <= i < j < |list| ==> list[i].key != list[j].key
  }

  function Total<K, V>(list: seq<Held<K, V>>, cost: V -> nat): nat {
    if |list| == 0 then 0 else cost(list[0].value) + Total(list[1..], cost)
  }

  /** Where a key is held. */
  function Position<K(==), V>(list: seq<Held<K, V>>, key: K): (r: Option<nat>)
    ensures r.Some? ==> r.value < |list| && list[r.value].key == key
    ensures r.None? <==> forall i :: 0 <= i < |list| ==> list[i].key != key
  {
    if |list| == 0 then None
    else if list[0].key == key then Some(0)
    else
      match Position(list[1..], key)
      case None => assert forall i :: 0 < i < |list| ==> list[i] == list[1..][i - 1]; None
      case Some(i) => Some(i + 1)
  }

  function RemoveAt<T>(s: seq<T>, i: nat): (r: seq<T>)
    requires i < |s|
    ensures |r| == |s| - 1
  {
    s[..i] + s[i + 1..]
  }

  function Without<K(==), V>(list: seq<Held<K, V>>, key: K): seq<Held<K, V>> {
    match Position(list, key)
    case None => list
    case Some(i) => RemoveAt(list, i)
  }

  /** A use makes an entry the newest. */
  function Touch<K(==), V>(list: seq<Held<K, V>>, key: K): seq<Held<K, V>> {
    match Position(list, key)
    case None => list
    case Some(i) => RemoveAt(list, i) + [list[i]]
  }

  /** Evict the oldest until there is room for the total and the count that remain. */
  function Keep<K, V>(list: seq<Held<K, V>>, cost: V -> nat, room: (nat, nat) -> bool): seq<Held<K, V>> {
    if |list| == 0 || room(Total(list, cost), |list|) then list else Keep(list[1..], cost, room)
  }

  /** What is kept is the longest run of newest entries for which there is room. */
  lemma {:induction false} KeepsLongestSuffix<K, V>(list: seq<Held<K, V>>, cost: V -> nat, room: (nat, nat) -> bool) returns (i: nat)
    ensures i <= |list| && Keep(list, cost, room) == list[i..]
    ensures i < |list| ==> room(Total(list[i..], cost), |list| - i)
    ensures forall j :: 0 <= j < i ==> !room(Total(list[j..], cost), |list| - j)
  {
    if |list| == 0 || room(Total(list, cost), |list|) {
      i := 0;
      assert list[0..] == list;
    } else {
      var k := KeepsLongestSuffix(list[1..], cost, room);
      i := k + 1;
      assert list[1..][k..] == list[i..];
      forall j | 0 <= j < i ensures !room(Total(list[j..], cost), |list| - j) {
        if j == 0 {
          assert list[0..] == list;
        } else {
          assert list[1..][j - 1..] == list[j..];
        }
      }
    }
  }

  /** The newest entry stays when there is room for it alone. */
  lemma {:induction false} KeepsNewest<K, V>(list: seq<Held<K, V>>, cost: V -> nat, room: (nat, nat) -> bool)
    requires |list| > 0 && room(cost(list[|list| - 1].value), 1)
    ensures |Keep(list, cost, room)| > 0 && Keep(list, cost, room)[|Keep(list, cost, room)| - 1] == list[|list| - 1]
  {
    if |list| == 1 {
      assert Total(list, cost) == cost(list[0].value);
    } else if !room(Total(list, cost), |list|) {
      KeepsNewest(list[1..], cost, room);
    }
  }

  lemma {:induction false} TotalAppend<K, V>(a: seq<Held<K, V>>, b: seq<Held<K, V>>, cost: V -> nat)
    ensures Total(a + b, cost) == Total(a, cost) + Total(b, cost)
  {
    if |a| == 0 {
      assert a + b == b;
    } else {
      assert (a + b)[1..] == a[1..] + b;
      TotalAppend(a[1..], b, cost);
    }
  }

  lemma TotalRemoveAt<K, V>(list: seq<Held<K, V>>, i: nat, cost: V -> nat)
    requires i < |list|
    ensures Total(list, cost) == Total(RemoveAt(list, i), cost) + cost(list[i].value)
  {
    assert Total([list[i]], cost) == cost(list[i].value);
    hide Total;
    assert list == list[..i] + ([list[i]] + list[i + 1..]);
    TotalAppend(list[..i], [list[i]] + list[i + 1..], cost);
    TotalAppend([list[i]], list[i + 1..], cost);
    TotalAppend(list[..i], list[i + 1..], cost);
  }

  lemma TotalSnoc<K, V>(list: seq<Held<K, V>>, x: Held<K, V>, cost: V -> nat)
    ensures Total(list + [x], cost) == Total(list, cost) + cost(x.value)
  {
    TotalAppend(list, [x], cost);
    assert Total([x], cost) == cost(x.value);
  }

  // ---------------------------------------------------------------------------
  // Ticks
  // ---------------------------------------------------------------------------

  /** The least element: the first key of an ordered map. */
  function Least(s: set<nat>): (t: nat)
    requires s != {}
    ensures t in s && forall u <- s :: t <= u
  {
    LeastExists(s);
    var t :| t in s && forall u <- s :: t <= u;
    t
  }

  lemma LeastExists(s: set<nat>)
    requires s != {}
    ensures exists t :: t in s && forall u <- s :: t <= u
  {
    var t := FindLeast(s);
  }

  lemma {:induction false} FindLeast(s: set<nat>) returns (t: nat)
    requires s != {}
    ensures t in s && forall u <- s :: t <= u
  {
    var x :| x in s;
    var rest := s - {x};
    t := x;
    if rest != {} {
      var least := FindLeast(rest);
      t := if x < least then x else least;
    }
    forall u <- s ensures t <= u {
      assert u == x || u in rest;
    }
  }

  /** An entry with the tick of its last use. */
  datatype Filed<K, V> = Filed(tick: nat, key: K, value: V)

  function List<K, V>(filed: seq<Filed<K, V>>): (r: seq<Held<K, V>>)
    ensures |r| == |filed| && forall i :: 0 <= i < |r| ==> r[i] == Held(filed[i].key, filed[i].value)
  {
    seq(|filed|, i requires 0 <= i < |filed| => Held(filed[i].key, filed[i].value))
  }

  predicate Increasing<K, V>(filed: seq<Filed<K, V>>) {
    forall i, j :: 0 <= i < j < |filed| ==> filed[i].tick < filed[j].tick
  }

  /** An entry both maps agree on. */
  predicate FiledIn<K(==), V(==)>(byKey: map<K, (V, nat)>, byTick: map<nat, K>, tick: nat, e: Filed<K, V>) {
    && e.tick <= tick && e.tick in byTick && byTick[e.tick] == e.key
    && e.key in byKey && byKey[e.key] == (e.value, e.tick)
  }

  /** Two maps kept by access tick file exactly these entries, each key under its own tick. */
  predicate Files<K(==), V(==)>(byKey: map<K, (V, nat)>, byTick: map<nat, K>, tick: nat, filed: seq<Filed<K, V>>) {
    && Increasing(filed)
    && (forall e <- filed :: FiledIn(byKey, byTick, tick, e))
    && (forall k <- byKey :: Filed(byKey[k].1, k, byKey[k].0) in filed)
    && (forall t <- byTick :: byTick[t] in byKey && byKey[byTick[t]].1 == t)
  }

  lemma FiledOnce<K, V>(byKey: map<K, (V, nat)>, byTick: map<nat, K>, tick: nat, filed: seq<Filed<K, V>>)
    requires Files(byKey, byTick, tick, filed)
    ensures DistinctKeys(List(filed))
    ensures |byKey| == |filed|
  {
    forall i | 0 <= i < |filed| ensures FiledIn(byKey, byTick, tick, filed[i]) {
      assert filed[i] in filed;
    }
    forall i, j | 0 <= i < j < |filed| ensures filed[i].key != filed[j].key {
      assert filed[i].tick < filed[j].tick;
    }
    KeysCounted(byKey, filed);
  }

  lemma {:induction false} KeysCounted<K, V>(byKey: map<K, (V, nat)>, filed: seq<Filed<K, V>>)
    requires forall i, j :: 0 <= i < j < |filed| ==> filed[i].key != filed[j].key
    requires forall i :: 0 <= i < |filed| ==> filed[i].key in byKey
    requires forall k <- byKey :: Filed(byKey[k].1, k, byKey[k].0) in filed
    ensures |byKey| == |filed|
  {
    if |filed| == 0 {
      assert byKey == map[];
    } else {
      var n := |filed| - 1;
      var rest, fewer := filed[..n], byKey - {filed[n].key};
      assert filed == rest + [filed[n]];
      KeysCounted(fewer, rest);
      assert byKey.Keys == fewer.Keys + {filed[n].key};
    }
  }

  lemma RemoveAtMembers<K, V>(filed: seq<Filed<K, V>>, i: nat)
    requires i < |filed| && Increasing(filed)
    ensures forall e :: e in RemoveAt(filed, i) <==> e in filed && e != filed[i]
  {
    var fewer := RemoveAt(filed, i);
    forall j | 0 <= j < |filed| && j != i ensures filed[j] in fewer && filed[j].tick != filed[i].tick {
      assert fewer[if j < i then j else j - 1] == filed[j];
    }
  }

  lemma RemoveIncreasing<K, V>(filed: seq<Filed<K, V>>, i: nat)
    requires i < |filed| && Increasing(filed)
    ensures Increasing(RemoveAt(filed, i)) && List(RemoveAt(filed, i)) == RemoveAt(List(filed), i)
  {
    var fewer := RemoveAt(filed, i);
    assert forall j :: 0 <= j < |fewer| ==> fewer[j] == filed[if j < i then j else j + 1];
  }

  lemma RemoveFiled<K, V>(byKey: map<K, (V, nat)>, byTick: map<nat, K>, tick: nat, filed: seq<Filed<K, V>>, i: nat)
    requires Files(byKey, byTick, tick, filed) && i < |filed|
    ensures Files(byKey - {filed[i].key}, byTick - {filed[i].tick}, tick, RemoveAt(filed, i))
    ensures List(RemoveAt(filed, i)) == RemoveAt(List(filed), i)
  {
    RemoveIncreasing(filed, i);
    RemoveAtMembers(filed, i);
    hide RemoveAt;
    hide List;
    OneLess(byKey, byTick, tick, filed, filed[i], RemoveAt(filed, i));
  }

  lemma OneLess<K, V>(byKey: map<K, (V, nat)>, byTick: map<nat, K>, tick: nat, filed: seq<Filed<K, V>>, e: Filed<K, V>, fewer: seq<Filed<K, V>>)
    requires Files(byKey, byTick, tick, filed) && e in filed
    requires Increasing(fewer) && forall x :: x in fewer <==> x in filed && x != e
    ensures Files(byKey - {e.key}, byTick - {e.tick}, tick, fewer)
  {
    hide Increasing;
    var byKey', byTick' := byKey - {e.key}, byTick - {e.tick};
    assert FiledIn(byKey, byTick, tick, e);
    forall x <- fewer ensures FiledIn(byKey', byTick', tick, x) {
      assert FiledIn(byKey, byTick, tick, x);
    }
    forall k <- byKey' ensures Filed(byKey'[k].1, k, byKey'[k].0) in fewer {
      assert Filed(byKey[k].1, k, byKey[k].0) in filed;
    }
    forall t <- byTick' ensures byTick'[t] in byKey' && byKey'[byTick'[t]].1 == t {
      assert byKey[byTick[t]].1 == t;
    }
  }

  lemma TicksBounded<K, V>(byKey: map<K, (V, nat)>, byTick: map<nat, K>, tick: nat, filed: seq<Filed<K, V>>)
    requires Files(byKey, byTick, tick, filed)
    ensures forall t <- byTick :: t <= tick
  {
    forall t <- byTick ensures t <= tick {
      var k := byTick[t];
      assert Filed(t, k, byKey[k].0) in filed;
    }
  }

  lemma PushFiled<K, V>(byKey: map<K, (V, nat)>, byTick: map<nat, K>, tick: nat, filed: seq<Filed<K, V>>, key: K, value: V)
    requires Files(byKey, byTick, tick, filed) && key !in byKey
    ensures Files(byKey[key := (value, tick + 1)], byTick[tick + 1 := key], tick + 1, filed + [Filed(tick + 1, key, value)])
    ensures List(filed + [Filed(tick + 1, key, value)]) == List(filed) + [Held(key, value)]
  {
    TicksBounded(byKey, byTick, tick, filed);
    var e := Filed(tick + 1, key, value);
    var more, byKey', byTick' := filed + [e], byKey[key := (value, tick + 1)], byTick[tick + 1 := key];
    forall i | 0 <= i < |filed| ensures filed[i].tick <= tick {
      assert FiledIn(byKey, byTick, tick, filed[i]);
    }
    assert Increasing(more);
    forall x <- more ensures FiledIn(byKey', byTick', tick + 1, x) {
      if x != e { assert x in filed && FiledIn(byKey, byTick, tick, x); }
    }
    forall k <- byKey' ensures Filed(byKey'[k].1, k, byKey'[k].0) in more {
      if k != key { assert Filed(byKey[k].1, k, byKey[k].0) in filed; }
    }
    assert forall t <- byTick' :: byTick'[t] in byKey' && byKey'[byTick'[t]].1 == t;
  }

  /** The first tick is the oldest entry's. */
  lemma OldestFirst<K, V>(byKey: map<K, (V, nat)>, byTick: map<nat, K>, tick: nat, filed: seq<Filed<K, V>>)
    requires Files(byKey, byTick, tick, filed)
    ensures byTick.Keys == {} <==> |filed| == 0
    ensures |filed| > 0 ==> Least(byTick.Keys) == filed[0].tick && byTick[filed[0].tick] == filed[0].key
  {
    if |filed| > 0 {
      assert filed[0] in filed && FiledIn(byKey, byTick, tick, filed[0]);
    }
    if byTick.Keys != {} {
      var t := Least(byTick.Keys);
      var k := byTick[t];
      assert Filed(t, k, byKey[k].0) in filed;
    }
  }

  lemma HeldAt<K, V>(byKey: map<K, (V, nat)>, byTick: map<nat, K>, tick: nat, filed: seq<Filed<K, V>>, key: K)
    requires Files(byKey, byTick, tick, filed)
    ensures key in byKey <==> Position(List(filed), key).Some?
    ensures key in byKey ==>
              var i := Position(List(filed), key).value;
              filed[i] == Filed(byKey[key].1, key, byKey[key].0)
  {
    var position := Position(List(filed), key);
    if position.Some? {
      assert FiledIn(byKey, byTick, tick, filed[position.value]);
    }
    if key in byKey {
      var e := Filed(byKey[key].1, key, byKey[key].0);
      var i :| 0 <= i < |filed| && filed[i] == e;
      assert List(filed)[i].key == key;
    }
  }

  // ---------------------------------------------------------------------------
  // One step at a time
  // ---------------------------------------------------------------------------

  lemma ListAt<K, V>(filed: seq<Filed<K, V>>, i: nat)
    requires i < |filed|
    ensures List(filed)[i] == Held(filed[i].key, filed[i].value)
  {
  }

  lemma TouchIs<K, V>(list: seq<Held<K, V>>, key: K)
    ensures Touch(list, key) ==
            match Position(list, key)
            case None => list
            case Some(i) => RemoveAt(list, i) + [list[i]]
  {
    hide Position;
  }

  lemma WithoutIs<K, V>(list: seq<Held<K, V>>, key: K)
    ensures Without(list, key) ==
            match Position(list, key)
            case None => list
            case Some(i) => RemoveAt(list, i)
  {
    hide Position;
  }

  lemma KeepStep<K, V>(list: seq<Held<K, V>>, cost: V -> nat, room: (nat, nat) -> bool)
    ensures Keep(list, cost, room) ==
            if |list| == 0 || room(Total(list, cost), |list|) then list else Keep(list[1..], cost, room)
    ensures |list| == 0 ==> Total(list, cost) == 0
  {
  }
}
