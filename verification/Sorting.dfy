/** Stable insertion sort by a total preorder: what `sort_by` promises, as a function. */
module Sorting {
  ghost predicate TotalPreorder<T(!new)>(leq: (T, T) -> bool)
  {
    && (forall x, y :: leq(x, y) || leq(y, x))
    && (forall x, y, z :: leq(x, y) && leq(y, z) ==> leq(x, z))
  }

  predicate SortedBy<T>(leq: (T, T) -> bool, s: seq<T>)
  {
    forall i, j :: 0 <= i < j < |s| ==> leq(s[i], s[j])
  }

  function Insert<T>(leq: (T, T) -> bool, x: T, s: seq<T>): (r: seq<T>)
    ensures |r| == |s| + 1
  {
    if |s| == 0 || leq(x, s[0]) then [x] + s else [s[0]] + Insert(leq, x, s[1..])
  }

  function Sort<T>(leq: (T, T) -> bool, s: seq<T>): (r: seq<T>)
    ensures |r| == |s|
  {
    if |s| == 0 then [] else Insert(leq, s[0], Sort(leq, s[1..]))
  }

  lemma {:induction false} InsertPermutes<T>(leq: (T, T) -> bool, x: T, s: seq<T>)
    ensures multiset(Insert(leq, x, s)) == multiset{x} + multiset(s)
  {
    if |s| > 0 {
      assert s == [s[0]] + s[1..];
      if !leq(x, s[0]) { InsertPermutes(leq, x, s[1..]); }
    }
  }

  lemma {:induction false} InsertSorts<T(!new)>(leq: (T, T) -> bool, x: T, s: seq<T>)
    requires TotalPreorder(leq) && SortedBy(leq, s)
    ensures SortedBy(leq, Insert(leq, x, s))
  {
    if |s| > 0 {
      if leq(x, s[0]) {
        forall j | 0 <= j < |s| ensures leq(x, s[j]) {
          if j > 0 { assert leq(s[0], s[j]); }
        }
      } else {
        InsertSorts(leq, x, s[1..]);
        var t := Insert(leq, x, s[1..]);
        InsertPermutes(leq, x, s[1..]);
        forall j | 0 <= j < |t| ensures leq(s[0], t[j]) {
          assert t[j] in multiset(t);
          if t[j] != x {
            assert t[j] in s[1..];
            var k :| 1 <= k < |s| && s[k] == t[j];
          }
        }
      }
    }
  }

  lemma {:induction false} SortPermutes<T>(leq: (T, T) -> bool, s: seq<T>)
    ensures multiset(Sort(leq, s)) == multiset(s)
  {
    if |s| > 0 {
      assert s == [s[0]] + s[1..];
      SortPermutes(leq, s[1..]);
      InsertPermutes(leq, s[0], Sort(leq, s[1..]));
    }
  }

  lemma {:induction false} SortSorts<T(!new)>(leq: (T, T) -> bool, s: seq<T>)
    requires TotalPreorder(leq)
    ensures SortedBy(leq, Sort(leq, s))
  {
    if |s| > 0 {
      SortSorts(leq, s[1..]);
      InsertSorts(leq, s[0], Sort(leq, s[1..]));
    }
  }

  lemma SortMembers<T>(leq: (T, T) -> bool, s: seq<T>, x: T)
    ensures x in Sort(leq, s) <==> x in s
  {
    SortPermutes(leq, s);
    assert x in multiset(Sort(leq, s)) <==> x in multiset(s);
  }

  /** Sorting leaves a list already in order alone. */
  lemma {:induction false} SortedStays<T>(leq: (T, T) -> bool, s: seq<T>)
    requires SortedBy(leq, s)
    ensures Sort(leq, s) == s
  {
    if |s| > 0 {
      SortedStays(leq, s[1..]);
    }
  }

  /** Members that compare both ways are one. */
  ghost predicate AntisymmetricOn<T>(leq: (T, T) -> bool, s: seq<T>)
  {
    forall i, j :: 0 <= i < |s| && 0 <= j < |s| && leq(s[i], s[j]) && leq(s[j], s[i]) ==> s[i] == s[j]
  }

  lemma HeadsAgree<T>(leq: (T, T) -> bool, s: seq<T>, t: seq<T>)
    requires SortedBy(leq, s) && SortedBy(leq, t) && AntisymmetricOn(leq, s)
    requires |s| > 0 && |t| > 0 && s[0] in t && t[0] in s
    ensures s[0] == t[0]
  {
    var i :| 0 <= i < |t| && t[i] == s[0];
    var j :| 0 <= j < |s| && s[j] == t[0];
    if i > 0 && j > 0 {
      assert leq(t[0], t[i]) && leq(s[0], s[j]);
    }
  }

  lemma TailMultiset<T>(s: seq<T>)
    requires |s| > 0
    ensures multiset(s[1..]) == multiset(s) - multiset{s[0]}
  {
    assert s == [s[0]] + s[1..];
  }

  /** Two orderings of the same elements, no two of them equivalent, are one. */
  lemma {:induction false} SortedUnique<T>(leq: (T, T) -> bool, s: seq<T>, t: seq<T>)
    requires SortedBy(leq, s) && SortedBy(leq, t) && AntisymmetricOn(leq, s)
    requires multiset(s) == multiset(t)
    ensures s == t
  {
    assert |multiset(s)| == |s| && |multiset(t)| == |t|;
    if |s| > 0 {
      assert s[0] in multiset(t) && t[0] in multiset(s);
      HeadsAgree(leq, s, t);
      TailMultiset(s);
      TailMultiset(t);
      SortedUnique(leq, s[1..], t[1..]);
      assert s == [s[0]] + s[1..] && t == [t[0]] + t[1..];
    }
  }

  /** Everything the elements contribute, together. */
  function Gather<T, U>(part: T -> multiset<U>, s: seq<T>): multiset<U> {
    if |s| == 0 then multiset{} else part(s[0]) + Gather(part, s[1..])
  }

  lemma {:induction false} GatherAppend<T, U>(part: T -> multiset<U>, s: seq<T>, t: seq<T>)
    ensures Gather(part, s + t) == Gather(part, s) + Gather(part, t)
  {
    if |s| == 0 {
      assert s + t == t;
    } else {
      assert (s + t)[1..] == s[1..] + t;
      GatherAppend(part, s[1..], t);
    }
  }

  lemma {:induction false} InsertGathers<T, U>(leq: (T, T) -> bool, x: T, s: seq<T>, part: T -> multiset<U>)
    ensures Gather(part, Insert(leq, x, s)) == part(x) + Gather(part, s)
  {
    var t := Insert(leq, x, s);
    if |s| == 0 || leq(x, s[0]) {
      assert t[1..] == s;
    } else {
      assert t[1..] == Insert(leq, x, s[1..]);
      InsertGathers(leq, x, s[1..], part);
    }
  }

  /** Sorting changes nothing that is gathered. */
  lemma {:induction false} SortGathers<T, U>(leq: (T, T) -> bool, s: seq<T>, part: T -> multiset<U>)
    ensures Gather(part, Sort(leq, s)) == Gather(part, s)
  {
    if |s| > 0 {
      SortGathers(leq, s[1..], part);
      InsertGathers(leq, s[0], Sort(leq, s[1..]), part);
    }
  }
}
