/** The cursor over an index file's entries, and the comparison of two files by what they stage. */
module EntryCursors {
  import opened Wrappers
  import opened Bytes
  import opened IndexFormat
  import Varint

  class EntryCursor {
    const bytes: ByteString
    const version: nat
    var remaining: nat
    var pos: nat
    var path: ByteString

    function State(): CursorState
      reads this
    {
      CursorState(version, remaining, pos, path)
    }

    constructor (bytes: ByteString, st: CursorState)
      ensures this.bytes == bytes && State() == st
    {
      this.bytes := bytes;
      version := st.version;
      remaining := st.remaining;
      pos := st.pos;
      path := st.path;
    }

    static method New(bytes: ByteString) returns (r: Result<EntryCursor>)
      ensures match Open(bytes)
              case Err(e) => r == Err(e)
              case Ok(st) => r.Ok? && fresh(r.value) && r.value.bytes == bytes && r.value.State() == st
    {
      if |bytes| < 12 || bytes[..4] != MagicDirc() {
        return Err(NotAnIndex);
      }
      var version := FromBE32(bytes[4..8]);
      if !(2 <= version <= 4) {
        return Err(UnsupportedVersion);
      }
      var cursor := new EntryCursor(bytes, CursorState(version, FromBE32(bytes[8..12]), 12, []));
      r := Ok(cursor);
    }

    /** The varint of bytes to strip, read byte by byte from `from`. */
    method ReadStrip(from: nat) returns (r: Option<Varint.Decoded>)
      requires from <= |bytes|
      ensures r == Varint.DecodeWrapping(bytes[from..], 0)
    {
      var strip: U64, at := 0, from;
      while true
        invariant from <= at <= |bytes|
        invariant Varint.DecodeWrapping(bytes[from..], 0) ==
                  match Varint.DecodeWrapping(bytes[at..], strip)
                  case None => None
                  case Some(d) => Some(Varint.Decoded(d.value, at - from + d.used))
        decreases |bytes| - at
      {
        if at >= |bytes| {
          return None;
        }
        assert bytes[at..][1..] == bytes[at + 1..];
        var byte := bytes[at];
        at := at + 1;
        strip := Varint.Accumulate(strip, byte);
        if byte < 128 {
          return Some(Varint.Decoded(strip, at - from));
        }
        strip := Varint.Wrap(strip as int + 1);
      }
    }

    /** The path of a version 4 entry: strip what the varint says, then append up to a NUL. */
    method NextCompressed(head: Head) returns (ok: bool)
      requires head.pos <= |bytes|
      modifies this`path, this`pos
      ensures match ReadCompressed(bytes, head, old(path))
              case None => !ok
              case Some(name) => ok && path == name.path && pos == name.pos
    {
      hide Varint.DecodeWrapping;
      hide Position;
      var strip? := ReadStrip(head.pos);
      if strip?.None? {
        return false;
      }
      var rest := bytes[head.pos + strip?.value.used..];
      var length := Position(rest, NUL);
      if length.None? || strip?.value.value > |path| {
        return false;
      }
      path := path[..|path| - strip?.value.value];
      path := path + rest[..length.value];
      pos := head.pos + strip?.value.used + length.value + 1;
      ok := true;
    }

    /** The path of a version 2 or 3 entry, and the padding after it. */
    method NextPadded(start: nat, head: Head) returns (ok: bool)
      requires start <= head.pos <= |bytes|
      modifies this`path, this`pos
      ensures match ReadPadded(bytes, start, head)
              case None => !ok
              case Some(name) => ok && path == name.path && pos == name.pos
    {
      hide Position;
      var rest := bytes[head.pos..];
      var length := if head.nameLength == NAME_MASK then Position(rest, NUL) else Some(head.nameLength);
      if length.None? {
        return false;
      }
      path := [];
      if length.value > |rest| {
        return false;
      }
      path := path + rest[..length.value];
      pos := start + (head.pos - start + length.value) / 8 * 8 + 8;
      ok := true;
    }

    method Next() returns (r: Result<Option<Staged>>)
      modifies this
      ensures match IndexFormat.Next(bytes, old(State()))
              case Finished => r == Ok(None) && State() == old(State())
              case Broken => r == Err(Truncated)
              case Yielded(item, next) => r == Ok(Some(item.staged)) && State() == next && path == item.path
    {
      hide ReadHead;
      hide ReadPadded;
      hide ReadCompressed;
      if remaining == 0 {
        return Ok(None);
      }
      remaining := remaining - 1;
      var start := pos;
      var head? := ReadHead(bytes, start);
      if head?.None? {
        return Err(Truncated);
      }
      var head := head?.value;
      var ok;
      if version == 4 {
        ok := NextCompressed(head);
      } else {
        ok := NextPadded(start, head);
      }
      if !ok {
        return Err(Truncated);
      }
      return Ok(Some(head.staged));
    }
  }

  // ---------------------------------------------------------------------------
  // Comparing two files
  // ---------------------------------------------------------------------------

  /** The comparison over what two cursors yield. A file that breaks off is an error once the comparison gets there. */
  function FirstDifference(a: Items, b: Items): Result<Option<ByteString>>
    decreases |a.list|
  {
    if |a.list| == 0 && !a.ended then Err(Truncated)
    else if |b.list| == 0 && !b.ended then Err(Truncated)
    else if |a.list| == 0 && |b.list| == 0 then Ok(None)
    else if |b.list| == 0 then Ok(Some(a.list[0].path))
    else if |a.list| == 0 then Ok(Some(b.list[0].path))
    else if a.list[0] != b.list[0] then
      Ok(Some(if Less(b.list[0].path, a.list[0].path) then b.list[0].path else a.list[0].path))
    else FirstDifference(a.(list := a.list[1..]), b.(list := b.list[1..]))
  }

  function StagedDifference(a: ByteString, b: ByteString): Result<Option<ByteString>> {
    match Open(a)
    case Err(e) => Err(e)
    case Ok(sa) =>
      match Open(b)
      case Err(e) => Err(e)
      case Ok(sb) => FirstDifference(ReadAll(a, sa), ReadAll(b, sb))
  }

  method FirstStagedDifference(left: ByteString, right: ByteString) returns (r: Result<Option<ByteString>>)
    ensures r == StagedDifference(left, right)
  {
    var a? := EntryCursor.New(left);
    if a?.Err? {
      return Err(a?.error);
    }
    var b? := EntryCursor.New(right);
    if b?.Err? {
      return Err(b?.error);
    }
    var a, b := a?.value, b?.value;
    while true
      invariant a != b && a.bytes == left && b.bytes == right
      invariant fresh(a) && fresh(b)
      invariant StagedDifference(left, right) == FirstDifference(ReadAll(left, a.State()), ReadAll(right, b.State()))
      decreases a.remaining
    {
      ghost var sa, sb := a.State(), b.State();
      var x := a.Next();
      if x.Err? {
        return Err(x.error);
      }
      var y := b.Next();
      if y.Err? {
        return Err(y.error);
      }
      match (x.value, y.value) {
        case (None, None) =>
          return Ok(None);
        case (Some(_), None) =>
          return Ok(Some(a.path));
        case (None, Some(_)) =>
          return Ok(Some(b.path));
        case (Some(s), Some(t)) =>
          if s != t || a.path != b.path {
            return Ok(Some(if Less(b.path, a.path) then b.path else a.path));
          }
          Advance(left, sa);
          Advance(right, sb);
      }
    }
  }

  lemma Advance(bytes: ByteString, st: CursorState)
    requires Next(bytes, st).Yielded?
    ensures var all, rest := ReadAll(bytes, st), ReadAll(bytes, Next(bytes, st).next);
            |all.list| > 0 && all.list[0] == Next(bytes, st).item && all.(list := all.list[1..]) == rest
  {
  }

  /** Whole files compare equal exactly when they stage the same list. */
  lemma {:induction false} NoDifferenceMeansEqual(a: Items, b: Items)
    requires a.ended && b.ended
    ensures FirstDifference(a, b).Ok?
    ensures FirstDifference(a, b) == Ok(None) <==> a.list == b.list
    decreases |a.list|
  {
    if |a.list| > 0 && |b.list| > 0 {
      NoDifferenceMeansEqual(a.(list := a.list[1..]), b.(list := b.list[1..]));
      assert a.list == [a.list[0]] + a.list[1..] && b.list == [b.list[0]] + b.list[1..];
    }
  }

  /**
   * Where two lists first differ, at `n`, decides: a list that breaks off there is an error, two that end there stage the
   * same, and otherwise the smaller of the paths there is reported.
   */
  lemma {:induction false} DifferenceAt(a: Items, b: Items, n: nat)
    requires n <= |a.list| && n <= |b.list| && a.list[..n] == b.list[..n]
    requires n == |a.list| || n == |b.list| || a.list[n] != b.list[n]
    ensures (n == |a.list| && !a.ended) || (n == |b.list| && !b.ended) ==> FirstDifference(a, b) == Err(Truncated)
    ensures n == |a.list| == |b.list| && a.ended && b.ended ==> FirstDifference(a, b) == Ok(None)
    ensures n == |a.list| < |b.list| && a.ended ==> FirstDifference(a, b) == Ok(Some(b.list[n].path))
    ensures n == |b.list| < |a.list| && b.ended ==> FirstDifference(a, b) == Ok(Some(a.list[n].path))
    ensures n < |a.list| && n < |b.list| && !Less(b.list[n].path, a.list[n].path) ==> FirstDifference(a, b) == Ok(Some(a.list[n].path))
    ensures n < |a.list| && n < |b.list| && !Less(a.list[n].path, b.list[n].path) ==> FirstDifference(a, b) == Ok(Some(b.list[n].path))
    decreases n
  {
    if n > 0 {
      assert a.list[0] == a.list[..n][0] == b.list[..n][0] == b.list[0];
      var a', b' := a.(list := a.list[1..]), b.(list := b.list[1..]);
      assert a'.list[..n - 1] == a.list[..n][1..] && b'.list[..n - 1] == b.list[..n][1..];
      DifferenceAt(a', b', n - 1);
    } else if |a.list| > 0 && |b.list| > 0 {
      LessTotal(a.list[0].path, b.list[0].path);
    }
  }

  /** What a list stages at one path: every stage of it, in order. */
  function At(list: seq<Item>, path: ByteString): seq<Item> {
    if |list| == 0 then []
    else (if list[0].path == path then [list[0]] else []) + At(list[1..], path)
  }

  predicate SortedByPath(list: seq<Item>) {
    forall i, j :: 0 <= i < j < |list| ==> !Less(list[j].path, list[i].path)
  }

  lemma {:induction false} NothingBefore(list: seq<Item>, path: ByteString)
    requires forall i :: 0 <= i < |list| ==> Less(path, list[i].path)
    ensures At(list, path) == []
  {
    if |list| > 0 {
      LessIrreflexive(path);
      NothingBefore(list[1..], path);
    }
  }

  lemma HeadIsLeast(list: seq<Item>, path: ByteString)
    requires SortedByPath(list) && |list| > 0 && Less(path, list[0].path)
    ensures At(list, path) == []
  {
    forall i | 0 <= i < |list| ensures Less(path, list[i].path) {
      if i > 0 {
        LessTotal(list[0].path, list[i].path);
        if Less(list[0].path, list[i].path) { LessTransitive(path, list[0].path, list[i].path); }
      }
    }
    NothingBefore(list, path);
  }

  /** For lists sorted by path, the path reported is the least one at which they stage different things. */
  lemma {:induction false} DifferenceIsLeast(a: Items, b: Items, p: ByteString, q: ByteString)
    requires a.ended && b.ended && SortedByPath(a.list) && SortedByPath(b.list)
    requires FirstDifference(a, b) == Ok(Some(p))
    ensures At(a.list, p) != At(b.list, p)
    ensures Less(q, p) ==> At(a.list, q) == At(b.list, q)
    decreases |a.list|
  {
    if |a.list| > 0 && |b.list| > 0 && a.list[0] == b.list[0] {
      DifferenceIsLeast(a.(list := a.list[1..]), b.(list := b.list[1..]), p, q);
      var head := if a.list[0].path == p then [a.list[0]] else [];
      assert (head + At(a.list[1..], p))[|head|..] == At(a.list[1..], p);
      assert (head + At(b.list[1..], p))[|head|..] == At(b.list[1..], p);
    } else {
      LeastAtMismatch(a.list, b.list, p);
      if Less(q, p) {
        LessBothHeads(a.list, b.list, p, q);
      }
    }
  }

  lemma LeastAtMismatch(a: seq<Item>, b: seq<Item>, p: ByteString)
    requires SortedByPath(a) && SortedByPath(b) && |a| + |b| > 0
    requires |a| > 0 && |b| > 0 ==> a[0] != b[0]
    requires p == if |b| == 0 || (|a| > 0 && !Less(b[0].path, a[0].path)) then a[0].path else b[0].path
    ensures At(a, p) != At(b, p)
  {
    hide At;
    hide SortedByPath;
    hide Less;
    if |a| > 0 {
      AtHead(a);
    }
    if |b| > 0 {
      AtHead(b);
    }
    if |a| == 0 || |b| == 0 {
      AtNothing(if |a| == 0 then a else b, p);
    } else {
      LessTotal(a[0].path, b[0].path);
      if Less(a[0].path, b[0].path) {
        LessAsymmetric(a[0].path, b[0].path);
        HeadIsLeast(b, a[0].path);
      } else if Less(b[0].path, a[0].path) {
        HeadIsLeast(a, b[0].path);
      }
    }
  }

  lemma AtHead(list: seq<Item>)
    requires |list| > 0
    ensures |At(list, list[0].path)| > 0 && At(list, list[0].path)[0] == list[0]
  {
  }

  lemma AtNothing(list: seq<Item>, path: ByteString)
    requires |list| == 0
    ensures At(list, path) == []
  {
  }

  lemma LessBothHeads(a: seq<Item>, b: seq<Item>, p: ByteString, q: ByteString)
    requires SortedByPath(a) && SortedByPath(b) && |a| + |b| > 0
    requires p == if |b| == 0 || (|a| > 0 && !Less(b[0].path, a[0].path)) then a[0].path else b[0].path
    requires Less(q, p)
    ensures At(a, q) == [] == At(b, q)
  {
    if |a| > 0 && |b| > 0 {
      LessTotal(a[0].path, b[0].path);
    }
    if |a| > 0 {
      if p != a[0].path { LessTransitive(q, p, a[0].path); }
      HeadIsLeast(a, q);
    }
    if |b| > 0 {
      if p != b[0].path { LessTransitive(q, p, b[0].path); }
      HeadIsLeast(b, q);
    }
  }
}
