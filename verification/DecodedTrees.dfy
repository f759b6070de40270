/** Decoded trees, held twice: by sort key to page through, by name to look up in. */
module DecodedTrees {
  import opened Wrappers
  import opened Bytes
  import opened GitTypes
  import Sorting

  datatype DecodedEntry = DecodedEntry(name: ByteString, mode: U32, oid: ObjectId)

  /** Directories compare as if their names went on with a slash. */
  function SortKey(name: ByteString, mode: U32): ByteString {
    if mode == MODE_DIRECTORY then name + [SLASH] else name
  }

  function KeyOf(e: DecodedEntry): ByteString {
    SortKey(e.name, e.mode)
  }

  predicate ByKey(a: DecodedEntry, b: DecodedEntry) {
    !Less(KeyOf(b), KeyOf(a))
  }

  datatype DecodedTree = DecodedTree(entries: seq<DecodedEntry>, byName: seq<nat>)

  function NameAt(entries: seq<DecodedEntry>, i: nat): ByteString {
    if i < |entries| then entries[i].name else []
  }

  function NameOrder(entries: seq<DecodedEntry>): (nat, nat) -> bool {
    (a: nat, b: nat) => !Less(NameAt(entries, b), NameAt(entries, a))
  }

  function New(entries: seq<DecodedEntry>): DecodedTree {
    var sorted := Sorting.Sort(ByKey, entries);
    DecodedTree(sorted, Sorting.Sort(NameOrder(sorted), Indexes(|sorted|)))
  }

  /** Names a Git tree can hold: pairwise different, without a slash. */
  predicate GitNames(entries: seq<DecodedEntry>) {
    && (forall i :: 0 <= i < |entries| ==> SLASH !in entries[i].name)
    && (forall i, j :: 0 <= i < j < |entries| ==> entries[i].name != entries[j].name)
  }

  // ---------------------------------------------------------------------------
  // The two orders
  // ---------------------------------------------------------------------------

  lemma NotLessPreorder(a: ByteString, b: ByteString, c: ByteString)
    ensures !Less(b, a) || !Less(a, b)
    ensures !Less(b, a) && !Less(c, b) ==> !Less(c, a)
  {
    LessTotal(a, b);
    if Less(a, b) { LessAsymmetric(a, b); }
    if Less(c, a) && Less(a, b) { LessTransitive(c, a, b); }
  }

  lemma ByKeyPreorder()
    ensures Sorting.TotalPreorder(ByKey)
  {
    forall x, y ensures ByKey(x, y) || ByKey(y, x) { NotLessPreorder(KeyOf(x), KeyOf(y), []); }
    forall x, y, z | ByKey(x, y) && ByKey(y, z) ensures ByKey(x, z) {
      NotLessPreorder(KeyOf(x), KeyOf(y), KeyOf(z));
    }
  }

  lemma NameOrderPreorder(entries: seq<DecodedEntry>)
    ensures Sorting.TotalPreorder(NameOrder(entries))
  {
    var leq := NameOrder(entries);
    forall x: nat, y: nat ensures leq(x, y) || leq(y, x) { NotLessPreorder(NameAt(entries, x), NameAt(entries, y), []); }
    forall x: nat, y: nat, z: nat | leq(x, y) && leq(y, z) ensures leq(x, z) {
      NotLessPreorder(NameAt(entries, x), NameAt(entries, y), NameAt(entries, z));
    }
  }

  /** Different slash-free names have different keys. */
  lemma KeysDiffer(a: DecodedEntry, b: DecodedEntry)
    requires SLASH !in a.name && SLASH !in b.name && a.name != b.name
    ensures KeyOf(a) != KeyOf(b)
  {
    var ka, kb := KeyOf(a), KeyOf(b);
    if a.mode == MODE_DIRECTORY && b.mode != MODE_DIRECTORY {
      assert ka[|a.name|] == SLASH;
      assert ka == kb ==> SLASH in b.name;
    } else if a.mode != MODE_DIRECTORY && b.mode == MODE_DIRECTORY {
      assert kb[|b.name|] == SLASH;
      assert ka == kb ==> SLASH in a.name;
    } else if a.mode == MODE_DIRECTORY {
      assert ka[..|ka| - 1] == a.name && kb[..|kb| - 1] == b.name;
    }
  }

  predicate StrictKeys(entries: seq<DecodedEntry>) {
    forall i, j :: 0 <= i < j < |entries| ==> Less(KeyOf(entries[i]), KeyOf(entries[j]))
  }

  /** Names that differ still do in another order. */
  lemma NamesStayDifferent(s: seq<DecodedEntry>, t: seq<DecodedEntry>)
    requires GitNames(s) && multiset(s) == multiset(t)
    ensures GitNames(t)
  {
    forall i | 0 <= i < |t| ensures t[i] in s { assert t[i] in multiset(s); }
    forall i, j | 0 <= i < j < |t| ensures t[i].name != t[j].name {
      var x, y := t[i], t[j];
      var a :| 0 <= a < |s| && s[a] == x;
      var b :| 0 <= b < |s| && s[b] == y;
      if a == b {
        TwiceAt(t, i, j);
        assert Distinct(s);
        DistinctAt(s, x);
      }
    }
  }

  /** A new tree holds exactly the entries it was given, by strictly increasing key. */
  lemma EntriesSorted(entries: seq<DecodedEntry>)
    requires GitNames(entries)
    ensures multiset(New(entries).entries) == multiset(entries)
    ensures GitNames(New(entries).entries) && StrictKeys(New(entries).entries)
  {
    var sorted := Sorting.Sort(ByKey, entries);
    Sorting.SortPermutes(ByKey, entries);
    ByKeyPreorder();
    Sorting.SortSorts(ByKey, entries);
    NamesStayDifferent(entries, sorted);
    forall i, j | 0 <= i < j < |sorted| ensures Less(KeyOf(sorted[i]), KeyOf(sorted[j])) {
      assert ByKey(sorted[i], sorted[j]);
      KeysDiffer(sorted[i], sorted[j]);
      LessTotal(KeyOf(sorted[i]), KeyOf(sorted[j]));
    }
  }

  // ---------------------------------------------------------------------------
  // Paging
  // ---------------------------------------------------------------------------

  /** `partition_point` of the keys not past `after`. */
  function UpTo(entries: seq<DecodedEntry>, after: ByteString): (n: nat)
    ensures n <= |entries|
  {
    if |entries| > 0 && !Less(after, KeyOf(entries[0])) then 1 + UpTo(entries[1..], after) else 0
  }

  datatype PageOf = PageOf(entries: seq<DecodedEntry>, next: Option<ByteString>)

  function Page(tree: DecodedTree, after: Option<ByteString>, limit: nat): PageOf {
    var n := |tree.entries|;
    var start := match after
                 case None => 0
                 case Some(key) => UpTo(tree.entries, key);
    var end := if start + limit < n then start + limit else n;
    var page := tree.entries[start..end];
    PageOf(page, if end < n && |page| > 0 then Some(KeyOf(page[|page| - 1])) else None)
  }

  lemma {:induction false} UpToKey(entries: seq<DecodedEntry>, i: nat)
    requires StrictKeys(entries) && i < |entries|
    ensures UpTo(entries, KeyOf(entries[i])) == i + 1
  {
    if i == 0 {
      LessIrreflexive(KeyOf(entries[0]));
      if |entries| > 1 {
        assert UpTo(entries[1..], KeyOf(entries[0])) == 0;
      }
    } else {
      LessAsymmetric(KeyOf(entries[0]), KeyOf(entries[i]));
      UpToKey(entries[1..], i - 1);
    }
  }

  /** The concatenation of the pages a client gets by following tokens, asking `rounds` times at most. */
  function Chain(tree: DecodedTree, after: Option<ByteString>, limit: nat, rounds: nat): (seq<DecodedEntry>, Option<ByteString>)
    decreases rounds
  {
    var page := Page(tree, after, limit);
    if page.next.None? || rounds == 0 then (page.entries, page.next)
    else
      var (rest, next) := Chain(tree, page.next, limit, rounds - 1);
      (page.entries + rest, next)
  }

  /** A page resumes strictly after its token, whatever the token: past every key that is not greater. */
  lemma {:induction false} ResumesAfter(entries: seq<DecodedEntry>, after: ByteString, i: nat)
    requires StrictKeys(entries) && i < |entries|
    ensures i < UpTo(entries, after) <==> !Less(after, KeyOf(entries[i]))
  {
    hide KeyOf;
    assert forall j :: 0 <= j < |entries[1..]| ==> entries[1..][j] == entries[j + 1];
    if Less(after, KeyOf(entries[0])) {
      if i > 0 {
        LessTransitive(after, KeyOf(entries[0]), KeyOf(entries[i]));
      }
    } else if i > 0 {
      ResumesAfter(entries[1..], after, i - 1);
    }
  }

  lemma PageAt(tree: DecodedTree, i: nat, after: Option<ByteString>, limit: nat)
    requires StrictKeys(tree.entries) && limit > 0 && i <= |tree.entries|
    requires if i == 0 then after == None else after == Some(KeyOf(tree.entries[i - 1]))
    ensures var n := |tree.entries|;
            var end := if i + limit < n then i + limit else n;
            Page(tree, after, limit) == PageOf(tree.entries[i..end], if end < n then Some(KeyOf(tree.entries[end - 1])) else None)
  {
    if i > 0 { UpToKey(tree.entries, i - 1); }
    hide StrictKeys;
    hide UpTo;
    hide KeyOf;
  }

  /** Following tokens from the position after `i` entries returns all the others, in order, and ends. */
  lemma {:induction false} ChainFrom(tree: DecodedTree, i: nat, after: Option<ByteString>, limit: nat, rounds: nat)
    requires StrictKeys(tree.entries) && limit > 0 && i <= |tree.entries| <= i + rounds
    requires if i == 0 then after == None else after == Some(KeyOf(tree.entries[i - 1]))
    ensures Chain(tree, after, limit, rounds) == (tree.entries[i..], None)
    decreases rounds
  {
    var n := |tree.entries|;
    var end := if i + limit < n then i + limit else n;
    hide *;
    PageAt(tree, i, after, limit);
    ChainUnfolds(tree, after, limit, rounds);
    if end < n {
      ChainFrom(tree, end, Some(KeyOf(tree.entries[end - 1])), limit, rounds - 1);
      SlicesJoin(tree.entries, i, end);
    } else {
      SlicesJoin(tree.entries, i, n);
    }
  }

  lemma SlicesJoin(s: seq<DecodedEntry>, i: nat, j: nat)
    requires i <= j <= |s|
    ensures s[i..j] + s[j..] == s[i..]
    ensures j == |s| ==> s[i..j] == s[i..]
  {
  }

  lemma ChainUnfolds(tree: DecodedTree, after: Option<ByteString>, limit: nat, rounds: nat)
    ensures var page := Page(tree, after, limit);
            Chain(tree, after, limit, rounds) ==
            if page.next.None? || rounds == 0 then (page.entries, page.next)
            else (page.entries + Chain(tree, page.next, limit, rounds - 1).0, Chain(tree, page.next, limit, rounds - 1).1)
  {
    hide Page;
  }

  /** For any page size, paging a directory from the start returns each entry exactly once, in Git's order. */
  lemma PagingIsComplete(entries: seq<DecodedEntry>, limit: nat)
    requires GitNames(entries) && limit > 0
    ensures var (all, next) := Chain(New(entries), None, limit, |entries|);
            next == None && StrictKeys(all) && multiset(all) == multiset(entries)
  {
    EntriesSorted(entries);
    var tree := New(entries);
    assert |multiset(tree.entries)| == |multiset(entries)|;
    ChainFrom(tree, 0, None, limit, |entries|);
    assert tree.entries[0..] == tree.entries;
  }

  // ---------------------------------------------------------------------------
  // Lookup
  // ---------------------------------------------------------------------------

  /** `binary_search_by` over the name order: an index of a match between `lo` and `hi`, if there is one. */
  function Search(tree: DecodedTree, name: ByteString, lo: nat, hi: nat): (r: Option<nat>)
    requires lo <= hi <= |tree.byName|
    ensures r.Some? ==> lo <= r.value < hi
    decreases hi - lo
  {
    if lo == hi then None
    else
      var mid := lo + (hi - lo) / 2;
      var here := NameAt(tree.entries, tree.byName[mid]);
      if here == name then Some(mid)
      else if Less(here, name) then Search(tree, name, mid + 1, hi)
      else Search(tree, name, lo, mid)
  }

  function Get(tree: DecodedTree, name: ByteString): Option<DecodedEntry> {
    match Search(tree, name, 0, |tree.byName|)
    case None => None
    case Some(k) => if tree.byName[k] < |tree.entries| then Some(tree.entries[tree.byName[k]]) else None
  }

  ghost predicate NameSorted(tree: DecodedTree) {
    forall i, j :: 0 <= i < j < |tree.byName| ==>
      !Less(NameAt(tree.entries, tree.byName[j]), NameAt(tree.entries, tree.byName[i]))
  }

  lemma {:induction false} SearchFinds(tree: DecodedTree, name: ByteString, lo: nat, hi: nat, k: nat)
    requires NameSorted(tree) && lo <= k < hi <= |tree.byName| && NameAt(tree.entries, tree.byName[k]) == name
    ensures Search(tree, name, lo, hi).Some?
    decreases hi - lo
  {
    var mid := lo + (hi - lo) / 2;
    var here := NameAt(tree.entries, tree.byName[mid]);
    if here != name {
      LessTotal(here, name);
      if Less(here, name) {
        if k < mid { assert false; }
        SearchFinds(tree, name, mid + 1, hi, k);
      } else {
        if mid < k { assert false; }
        SearchFinds(tree, name, lo, mid, k);
      }
    }
  }

  lemma {:induction false} SearchMatches(tree: DecodedTree, name: ByteString, lo: nat, hi: nat)
    requires lo <= hi <= |tree.byName|
    ensures var r := Search(tree, name, lo, hi);
            r.Some? ==> NameAt(tree.entries, tree.byName[r.value]) == name
    decreases hi - lo
  {
    if lo < hi {
      var mid := lo + (hi - lo) / 2;
      SearchMatches(tree, name, mid + 1, hi);
      SearchMatches(tree, name, lo, mid);
    }
  }

  /** The name order is a permutation of the entries, sorted. */
  lemma NamesIndexed(sorted: seq<DecodedEntry>, byName: seq<nat>)
    requires byName == Sorting.Sort(NameOrder(sorted), Indexes(|sorted|))
    ensures NameSorted(DecodedTree(sorted, byName))
    ensures forall k :: 0 <= k < |byName| ==> byName[k] < |sorted|
    ensures forall i :: 0 <= i < |sorted| ==> i in byName
  {
    hide Sorting.Sort;
    var n := |sorted|;
    NameOrderPreorder(sorted);
    Sorting.SortPermutes(NameOrder(sorted), Indexes(n));
    Sorting.SortSorts(NameOrder(sorted), Indexes(n));
    forall i, j | 0 <= i < j < |byName| ensures !Less(NameAt(sorted, byName[j]), NameAt(sorted, byName[i])) {
      assert NameOrder(sorted)(byName[i], byName[j]);
    }
    forall k | 0 <= k < |byName| ensures byName[k] < n {
      assert byName[k] in multiset(Indexes(n));
      assert byName[k] in Indexes(n);
    }
    forall i | 0 <= i < n ensures i in byName {
      assert Indexes(n)[i] in multiset(byName);
    }
  }

  /** Lookup by name finds an entry exactly when one has that name, and then that entry. */
  lemma GetFindsExactly(entries: seq<DecodedEntry>, name: ByteString)
    requires GitNames(entries)
    ensures match Get(New(entries), name)
            case Some(e) => e in entries && e.name == name
            case None => forall e <- entries :: e.name != name
  {
    hide *;
    var tree := New(entries);
    NewFacts(entries);
    var n := |tree.byName|;
    SearchMatches(tree, name, 0, n);
    if e :| e in entries && e.name == name {
      var i :| 0 <= i < |tree.entries| && tree.entries[i] == e;
      assert i in tree.byName;
      var k :| 0 <= k < n && tree.byName[k] == i;
      NameAtIs(tree.entries, i);
      SearchFinds(tree, name, 0, n, k);
    }
    GetUnfolds(tree, name);
    if Search(tree, name, 0, n).Some? {
      NameAtIs(tree.entries, tree.byName[Search(tree, name, 0, n).value]);
    }
  }

  lemma NewFacts(entries: seq<DecodedEntry>)
    requires GitNames(entries)
    ensures var tree := New(entries);
            && NameSorted(tree)
            && (forall k :: 0 <= k < |tree.byName| ==> tree.byName[k] < |tree.entries|)
            && (forall i :: 0 <= i < |tree.entries| ==> i in tree.byName)
            && (forall e :: e in tree.entries <==> e in entries)
  {
    var tree := New(entries);
    EntriesSorted(entries);
    NamesIndexed(tree.entries, tree.byName);
    hide *;
    forall e ensures e in tree.entries <==> e in entries {
      assert e in multiset(tree.entries) <==> e in multiset(entries);
    }
  }

  lemma NameAtIs(entries: seq<DecodedEntry>, i: nat)
    requires i < |entries|
    ensures NameAt(entries, i) == entries[i].name
  {
  }

  lemma GetUnfolds(tree: DecodedTree, name: ByteString)
    requires forall k :: 0 <= k < |tree.byName| ==> tree.byName[k] < |tree.entries|
    ensures Get(tree, name) ==
            match Search(tree, name, 0, |tree.byName|)
            case None => None
            case Some(k) => Some(tree.entries[tree.byName[k]])
  {
    hide Search;
  }
}
