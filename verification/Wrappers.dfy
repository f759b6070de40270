/** Optional values, the errors the modelled code reports, and growable buffers. */
module Wrappers {
  datatype Option<+T> = None | Some(value: T)

  /** The error kinds of the index code, each named after what it reports. */
  datatype Error =
    | NotAnIndex
    | UnsupportedVersion
    | Truncated
    | TooManyEntries
    | OutOfOrder
    | UnsupportedHash
    | DuplicateDirectory
    | WrongCount
    | TooLarge
    | NoSuchDirectory
    | NotADirectory
    | NoSuchBlob

  datatype Result<+T> = Ok(value: T) | Err(error: Error)

  /** A vector a callee appends to through a mutable borrow. */
  class Vector<T> {
    var items: seq<T>

    constructor ()
      ensures items == []
    {
      items := [];
    }
  }

  /** `into_iter().rev()`. */
  function Reverse<T>(s: seq<T>): (r: seq<T>)
    ensures |r| == |s|
  {
    if |s| == 0 then [] else Reverse(s[1..]) + [s[0]]
  }

  /** The indexes of a sequence of length `n`, in order. */
  function Indexes(n: nat): (r: seq<nat>)
    ensures |r| == n && forall i :: 0 <= i < n ==> r[i] == i
  {
    seq(n, (i: nat) => i)
  }

  /** No element twice. */
  predicate Distinct<T(==)>(s: seq<T>) {
    forall i, j :: 0 <= i < j < |s| ==> s[i] != s[j]
  }

  lemma {:induction false} DistinctAt<T>(s: seq<T>, x: T)
    requires Distinct(s)
    ensures multiset(s)[x] == if x in s then 1 else 0
  {
    if |s| > 0 {
      var rest := s[1..];
      assert s == [s[0]] + rest;
      assert forall i :: 0 <= i < |rest| ==> rest[i] == s[i + 1];
      DistinctAt(rest, x);
    }
  }

  lemma TwiceAt<T>(s: seq<T>, i: nat, j: nat)
    requires i < j < |s|
    ensures s[i] != s[j] || multiset(s)[s[i]] >= 2
  {
    assert s == s[..j] + [s[j]] + s[j + 1..];
    assert s[..j][i] == s[i] && s[i] in multiset(s[..j]);
  }

  lemma DistinctCounts<T>(s: seq<T>)
    ensures Distinct(s) <==> forall x :: multiset(s)[x] <= 1
  {
    if Distinct(s) {
      forall x ensures multiset(s)[x] <= 1 { DistinctAt(s, x); }
    } else {
      var i, j :| 0 <= i < j < |s| && s[i] == s[j];
      TwiceAt(s, i, j);
    }
  }

  lemma Assoc<T>(a: seq<T>, b: seq<T>, c: seq<T>)
    ensures a + b + c == a + (b + c)
  {
  }

  lemma WholeSlices<T>(s: seq<T>)
    ensures s[..0] == [] && s[0..] == s && s[..|s|] == s
  {
  }

  lemma SliceOfSlice<T>(s: seq<T>, a: nat, b: nat, i: nat, j: nat)
    requires a <= b <= |s| && i <= j <= b - a
    ensures s[a..b][i..j] == s[a + i..a + j]
  {
    forall k | 0 <= k < j - i ensures s[a..b][i..j][k] == s[a + i..a + j][k] {
      assert s[a..b][i + k] == s[a + (i + k)];
    }
  }

  lemma TakeSnoc<T>(s: seq<T>, i: nat)
    requires i < |s|
    ensures s[..i + 1] == s[..i] + [s[i]]
  {
  }
}
