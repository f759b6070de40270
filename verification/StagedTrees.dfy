/** The extensions after an index's entries, and the tree an index stages. */
module StagedTrees {
  import opened Wrappers
  import opened Bytes
  import opened GitTypes
  import opened IndexFormat
  import opened CacheTrees
  import opened Decimals
  import opened EntryCursors

  /** The bytes of the `TREE` signature. */
  function TreeSignature(): (r: ByteString)
    ensures |r| == 4
  {
    Ascii("TREE")
  }

  function UpTo(s: ByteString, b: Byte): ByteString {
    match Position(s, b)
    case Some(k) => s[..k]
    case None => s
  }

  /** The tree ID of a `TREE` body's root, when the root has an empty name and a count that is not negative. */
  function RootOf(body: ByteString): (r: Option<Digest>)
  {
    if |body| == 0 || body[0] != NUL then None
    else
      var rest := body[1..];
      match Position(rest, NEWLINE)
      case None => None
      case Some(end) =>
        var line := rest[..end];
        if !Utf8(line) then None
        else
          match ParseI64(UpTo(line, SPACE))
          case None => None
          case Some(count) =>
            if count >= 0 && end + 21 <= |rest| then Some(rest[end + 1..end + 21]) else None
  }

  /** The scan over signature, length and body up to the trailing checksum. */
  function ScanForTree(index: ByteString, pos: nat): Result<Option<Digest>>
    decreases |index| - pos
  {
    if pos + 28 > |index| then Ok(None)
    else
      var len := FromBE32(index[pos + 4..pos + 8]);
      if pos + 8 + len > |index| then Err(Truncated)
      else if index[pos..pos + 4] == TreeSignature() then Ok(RootOf(index[pos + 8..pos + 8 + len]))
      else ScanForTree(index, pos + 8 + len)
  }

  /** A conflict or an intent to add: no tree stages it. */
  predicate Unsettled(item: Item) {
    item.staged.stage != 0 || item.staged.intentToAdd
  }

  /** What the entries and extensions say: unknown at the first unsettled entry, an error if the entries break off before one. */
  function StagedTreeOf(index: ByteString, items: Items): Result<Option<Digest>> {
    if exists item <- items.list :: Unsettled(item) then Ok(None)
    else if !items.ended then Err(Truncated)
    else ScanForTree(index, items.pos)
  }

  function StagedTree(index: ByteString): Result<Option<Digest>> {
    match Open(index)
    case Err(e) => Err(e)
    case Ok(st) => StagedTreeOf(index, ReadAll(index, st))
  }

  method ScanExtensions(index: ByteString, from: nat) returns (r: Result<Option<Digest>>)
    ensures r == ScanForTree(index, from)
  {
    hide RootOf;
    hide FromBE32;
    hide TreeSignature;
    var pos := from;
    while pos + 8 + 20 <= |index|
      invariant ScanForTree(index, pos) == ScanForTree(index, from)
      decreases |index| - pos
    {
      var signature := index[pos..pos + 4];
      var len := FromBE32(index[pos + 4..pos + 8]);
      if pos + 8 + len > |index| {
        return Err(Truncated);
      }
      if signature == TreeSignature() {
        return Ok(RootOf(index[pos + 8..pos + 8 + len]));
      }
      pos := pos + 8 + len;
    }
    r := Ok(None);
  }

  method FindStagedTree(index: ByteString) returns (r: Result<Option<Digest>>)
    ensures r == StagedTree(index)
  {
    hide ScanForTree;
    hide IndexFormat.Next;
    hide Open;
    hide ReadAll;
    hide StagedTreeOf;
    var cursor? := EntryCursor.New(index);
    if cursor?.Err? {
      return Err(cursor?.error);
    }
    var cursor := cursor?.value;
    ghost var all := ReadAll(index, cursor.State());
    assert StagedTree(index) == StagedTreeOf(index, all);
    while true
      invariant fresh(cursor) && cursor.bytes == index
      invariant var rest := ReadAll(index, cursor.State());
                StagedTreeOf(index, all) == StagedTreeOf(index, rest)
      decreases cursor.remaining
    {
      ghost var st := cursor.State();
      var step := cursor.Next();
      if step.Err? {
        BrokenOff(index, st);
        return Err(step.error);
      }
      match step.value {
        case None =>
          Exhausted(index, st);
          break;
        case Some(staged) =>
          Advance(index, st);
          NextShrinks(index, st);
          if staged.stage != 0 || staged.intentToAdd {
            FirstUnsettled(index, ReadAll(index, st));
            return Ok(None);
          }
          ConsSettled(index, ReadAll(index, st), Next(index, st).next);
      }
    }
    r := ScanExtensions(index, cursor.pos);
  }

  lemma Exhausted(index: ByteString, st: CursorState)
    requires Next(index, st).Finished?
    ensures StagedTreeOf(index, ReadAll(index, st)) == ScanForTree(index, st.pos)
  {
    hide ScanForTree;
  }

  lemma BrokenOff(index: ByteString, st: CursorState)
    requires Next(index, st).Broken?
    ensures StagedTreeOf(index, ReadAll(index, st)) == Err(Truncated)
  {
    hide ScanForTree;
  }

  lemma FirstUnsettled(index: ByteString, all: Items)
    requires |all.list| > 0 && Unsettled(all.list[0])
    ensures StagedTreeOf(index, all) == Ok(None)
  {
    assert all.list[0] in all.list;
  }

  lemma ConsSettled(index: ByteString, all: Items, next: CursorState)
    requires |all.list| > 0 && !Unsettled(all.list[0]) && all.(list := all.list[1..]) == ReadAll(index, next)
    ensures StagedTreeOf(index, all) == StagedTreeOf(index, ReadAll(index, next))
  {
    var rest := all.list[1..];
    assert all.list == [all.list[0]] + rest;
  }

  // ---------------------------------------------------------------------------
  // Extension regions
  // ---------------------------------------------------------------------------

  datatype Extension = Extension(signature: ByteString, body: ByteString)

  predicate ValidExtension(x: Extension) {
    |x.signature| == 4 && |x.body| <= U32_MAX
  }

  function ExtensionBytes(x: Extension): ByteString
    requires ValidExtension(x)
  {
    x.signature + BE32(|x.body|) + x.body
  }

  function ExtensionsBytes(xs: seq<Extension>): ByteString
    requires forall x <- xs :: ValidExtension(x)
  {
    if |xs| == 0 then [] else ExtensionBytes(xs[0]) + ExtensionsBytes(xs[1..])
  }

  /** The first `TREE` extension decides. */
  function FirstTree(xs: seq<Extension>): Option<Digest> {
    if |xs| == 0 then None
    else if xs[0].signature == TreeSignature() then RootOf(xs[0].body)
    else FirstTree(xs[1..])
  }

  lemma ExtensionParts(index: ByteString, pos: nat, x: Extension, rest: ByteString)
    requires ValidExtension(x) && pos <= |index| && index[pos..] == ExtensionBytes(x) + rest
    ensures index[pos..pos + 4] == x.signature && FromBE32(index[pos + 4..pos + 8]) == |x.body|
    ensures index[pos + 8..pos + 8 + |x.body|] == x.body && index[pos + 8 + |x.body|..] == rest
  {
    hide BE32;
    hide FromBE32;
    var s := index[pos..];
    assert index[pos..pos + 4] == s[..4] == x.signature;
    assert index[pos + 4..pos + 8] == s[4..8] == BE32(|x.body|);
    RoundTrip32(|x.body|);
    assert index[pos + 8..pos + 8 + |x.body|] == s[8..8 + |x.body|] == x.body;
    assert index[pos + 8 + |x.body|..] == s[8 + |x.body|..] == rest;
  }

  /** Over a well-formed extension region before a 20-byte checksum the scan answers with the first `TREE`. */
  lemma {:induction false} ScanFindsFirstTree(index: ByteString, pos: nat, xs: seq<Extension>, digest: Digest)
    requires forall x <- xs :: ValidExtension(x)
    requires pos <= |index| && index[pos..] == ExtensionsBytes(xs) + digest
    ensures ScanForTree(index, pos) == Ok(FirstTree(xs))
    decreases |xs|
  {
    hide RootOf;
    hide BE32;
    hide FromBE32;
    hide ExtensionBytes;
    if |xs| > 0 {
      ExtensionLength(xs[0]);
      assert index[pos..] == ExtensionBytes(xs[0]) + (ExtensionsBytes(xs[1..]) + digest);
      ExtensionParts(index, pos, xs[0], ExtensionsBytes(xs[1..]) + digest);
      ScanFindsFirstTree(index, pos + 8 + |xs[0].body|, xs[1..], digest);
    }
  }

  lemma ExtensionLength(x: Extension)
    requires ValidExtension(x)
    ensures |ExtensionBytes(x)| == 8 + |x.body|
  {
  }

  lemma {:induction false} ExtensionsAppend(xs: seq<Extension>, ys: seq<Extension>)
    requires forall x <- xs :: ValidExtension(x)
    requires forall y <- ys :: ValidExtension(y)
    ensures forall z <- xs + ys :: ValidExtension(z)
    ensures ExtensionsBytes(xs + ys) == ExtensionsBytes(xs) + ExtensionsBytes(ys)
    ensures FirstTree(xs + ys) == if (exists x <- xs :: x.signature == TreeSignature()) then FirstTree(xs) else FirstTree(ys)
  {
    hide RootOf;
    hide TreeSignature;
    hide ExtensionBytes;
    if |xs| == 0 {
      assert xs + ys == ys;
    } else {
      assert (xs + ys)[1..] == xs[1..] + ys;
      assert xs == [xs[0]] + xs[1..];
      ExtensionsAppend(xs[1..], ys);
    }
  }

  // ---------------------------------------------------------------------------
  // The root of a written cache tree
  // ---------------------------------------------------------------------------

  lemma RootOfLine(first: ByteString, second: ByteString, oid: Digest, tail: ByteString, count: int)
    requires forall i :: 0 <= i < |first| ==> first[i] < 0x80 && first[i] != SPACE && first[i] != NEWLINE
    requires forall i :: 0 <= i < |second| ==> second[i] < 0x80 && second[i] != NEWLINE
    requires ParseI64(first) == Some(count) && count >= 0
    ensures RootOf([NUL] + (first + [SPACE] + second + [NEWLINE] + (oid + tail))) == Some(oid)
  {
    hide ParseI64;
    hide Position;
    var line := first + [SPACE] + second;
    var rest := line + [NEWLINE] + (oid + tail);
    assert ([NUL] + rest)[1..] == rest;
    assert rest[|line|] == NEWLINE && rest[..|line|] == line;
    PositionUnique(rest, NEWLINE, |line|);
    assert line[|first|] == SPACE && line[..|first|] == first;
    PositionUnique(line, SPACE, |first|);
    AsciiIsUtf8(line);
    hide Utf8;
    assert rest[|line| + 1..|line| + 21] == oid;
  }

  lemma RootLine(node: CacheTree, first: ByteString, second: ByteString, tail: ByteString)
    requires |node.name| == 0 && first == Decimal(node.entries) && second == Decimal(|node.children|)
    ensures Line(node) + tail == [NUL] + (first + [SPACE] + second + [NEWLINE] + (node.oid.raw + tail))
  {
    hide Decimal;
  }

  /** A written tree's root reads back as its ID when its name is empty, and as none when that starts with anything but NUL. */
  lemma RootOfBody(node: CacheTree)
    requires AllSha1(node)
    ensures |node.name| == 0 ==> RootOf(Body(node)) == Some(node.oid.raw)
    ensures |node.name| > 0 && node.name[0] != NUL ==> RootOf(Body(node)) == None
  {
    BodyUnfolds(node);
    hide Decimal;
    hide Body;
    hide Bodies;
    if |node.name| == 0 {
      hide RootOf;
      hide Line;
      hide ParseI64;
      var first, second := Decimal(node.entries), Decimal(|node.children|);
      ParseDecimal(node.entries);
      RootOfLine(first, second, node.oid.raw, Bodies(node.children), node.entries);
      RootLine(node, first, second, Bodies(node.children));
    } else if node.name[0] != NUL {
      assert Body(node)[0] == node.name[0];
    }
  }

  /** A conflict or an intent to add anywhere, before a break too, means nothing is known; a break without one is an error. */
  lemma EntriesDecide(index: ByteString)
    ensures Open(index).Err? ==> StagedTree(index) == Err(Open(index).error)
    ensures Open(index).Ok? ==>
            var items := ReadAll(index, Open(index).value);
            var unknown := exists item <- items.list :: item.staged.stage != 0 || item.staged.intentToAdd;
            && (unknown ==> StagedTree(index) == Ok(None))
            && (!unknown && !items.ended ==> StagedTree(index) == Err(Truncated))
            && (!unknown && items.ended ==> StagedTree(index) == ScanForTree(index, items.pos))
  {
    hide Open;
    hide ReadAll;
    hide ScanForTree;
    if Open(index).Ok? {
      var items := ReadAll(index, Open(index).value);
      assert forall item <- items.list :: Unsettled(item) <==> item.staged.stage != 0 || item.staged.intentToAdd;
    }
  }

  /** The first field of a line, up to its first space, reads as `n`. */
  ghost predicate FirstField(line: ByteString, n: int) {
    exists k :: 0 <= k <= |line| && 32 !in line[..k] && (k == |line| || line[k] == 32) && ParseI64(line[..k]) == Some(n)
  }

  lemma FieldIs(line: ByteString)
    ensures forall n :: FirstField(line, n) <==> ParseI64(UpTo(line, SPACE)) == Some(n)
  {
    hide ParseI64;
    var field := UpTo(line, SPACE);
    assert line[..|field|] == field && 32 !in field && (|field| == |line| || line[|field|] == 32);
    forall n ensures FirstField(line, n) <==> ParseI64(field) == Some(n) {
      if k :| 0 <= k <= |line| && 32 !in line[..k] && (k == |line| || line[k] == 32) && ParseI64(line[..k]) == Some(n) {
        assert k == |field|;
      }
    }
  }

  /** A body that starts with a root's line: NUL, the line in UTF-8, a newline; then what follows it. */
  ghost predicate RootLineOf(body: ByteString, line: ByteString, after: ByteString) {
    body == [0] + line + [10] + after && 10 !in line
  }

  lemma RootOfParts(body: ByteString, line: ByteString, after: ByteString)
    requires RootLineOf(body, line, after)
    ensures RootOf(body) ==
            if !Utf8(line) then None
            else
              match ParseI64(UpTo(line, SPACE))
              case None => None
              case Some(count) => if count >= 0 && |after| >= 20 then Some(after[..20]) else None
  {
    hide Utf8;
    hide ParseI64;
    hide UpTo;
    hide Position;
    var rest := body[1..];
    assert rest == line + [10] + after;
    assert rest[|line|] == NEWLINE && rest[..|line|] == line;
    PositionUnique(rest, NEWLINE, |line|);
    if |after| >= 20 {
      assert rest[|line| + 1..|line| + 21] == after[..20];
    }
  }

  lemma RootStarts(body: ByteString)
    requires RootOf(body).Some?
    ensures |body| > 0 && body[0] == 0 && 10 in body[1..]
  {
    hide Utf8;
    hide ParseI64;
    hide UpTo;
  }

  lemma SplitAt(s: ByteString, b: Byte)
    requires b in s
    ensures var first := UpTo(s, b); |first| < |s| && s == first + [b] + s[|first| + 1..] && b !in first
  {
    var k := Position(s, b).value;
    hide Position;
    assert s == s[..k] + [s[k]] + s[k + 1..];
  }

  lemma RootParts(body: ByteString)
    requires RootOf(body).Some?
    ensures var line := UpTo(body[1..], NEWLINE); |line| + 2 <= |body| && RootLineOf(body, line, body[|line| + 2..])
  {
    hide RootOf;
    hide UpTo;
    RootStarts(body);
    SplitAt(body[1..], NEWLINE);
    var line := UpTo(body[1..], NEWLINE);
    assert body == [body[0]] + body[1..];
    assert body[1..][|line| + 1..] == body[|line| + 2..];
    Assoc([body[0]], line + [10], body[|line| + 2..]);
    Assoc([body[0]], line, [10 as Byte]);
  }

  /**
   * A cache tree's body stages an ID exactly when it is a NUL, a UTF-8 line whose first field is a number that is not
   * negative, a newline, and that ID, whatever follows it.
   */
  lemma RootOfExactly(body: ByteString, id: Digest)
    ensures RootOf(body) == Some(id) <==>
            exists line, after ::
              && RootLineOf(body, line, after) && id <= after && Utf8(line) && exists n: nat :: FirstField(line, n)
  {
    hide Utf8;
    hide ParseI64;
    hide UpTo;
    if RootOf(body) == Some(id) {
      RootParts(body);
      var line, after := UpTo(body[1..], NEWLINE), body[|UpTo(body[1..], NEWLINE)| + 2..];
      RootOfParts(body, line, after);
      FieldIs(line);
      assert id <= after && FirstField(line, ParseI64(UpTo(line, SPACE)).value);
    }
    if line, after :| RootLineOf(body, line, after) && id <= after && Utf8(line) && exists n: nat :: FirstField(line, n) {
      RootOfParts(body, line, after);
      FieldIs(line);
      assert after[..20] == id;
    }
  }

  /** A root Git has invalidated, with a count of -1, stages nothing known, whatever follows its line. */
  lemma InvalidatedRoot(count: nat, subtrees: nat, after: ByteString)
    requires 0 < count <= I64_MAX + 1
    ensures RootOf([0] + ([45] + Decimal(count) + [32] + Decimal(subtrees)) + [10] + after) == None
  {
    hide Decimal;
    hide RootOf;
    hide ParseI64;
    hide Utf8;
    var first, line := [45] + Decimal(count), [45] + Decimal(count) + [32] + Decimal(subtrees);
    ParseNegative(count);
    assert RootLineOf([0] + line + [10] + after, line, after);
    RootOfParts([0] + line + [10] + after, line, after);
    assert line[|first|] == 32 && line[..|first|] == first;
    PositionUnique(line, SPACE, |first|);
    assert UpTo(line, SPACE) == first;
  }

  /** A root whose name itself reads as a root's line stages the ID at the end of its name. */
  lemma RootNamedAsLine(node: CacheTree, count: nat, subtrees: nat, id: Digest)
    requires count <= I64_MAX
    requires node.name == [NUL] + (Decimal(count) + [SPACE] + Decimal(subtrees) + [NEWLINE] + id)
    ensures RootOf(Body(node)) == Some(id)
  {
    BodyUnfolds(node);
    ParseDecimal(count);
    hide Decimal;
    hide RootOf;
    hide ParseI64;
    hide Body;
    hide Bodies;
    var first, second := Decimal(count), Decimal(subtrees);
    var tail := Body(node)[|node.name|..];
    RootOfLine(first, second, id, tail, count);
    NamedAsLine(node, first + [SPACE] + second + [NEWLINE], id, tail);
  }

  lemma NamedAsLine(node: CacheTree, line: ByteString, id: Digest, tail: ByteString)
    requires node.name == [NUL] + (line + id)
    requires Body(node) == Line(node) + Bodies(node.children) && tail == Body(node)[|node.name|..]
    ensures Body(node) == [NUL] + (line + (id + tail))
  {
    hide Decimal;
    hide Body;
    hide Bodies;
    assert Body(node) == node.name + tail;
  }
}
