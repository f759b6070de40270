/** The `packed-refs` file: what of an earlier one is kept, and how the new one is printed. */
module PackedRefsFile {
  import opened Wrappers
  import opened Bytes
  import opened GitTypes
  import opened PackedRefs
  import Sorting

  datatype Line = Line(name: ByteString, target: ByteString, peeled: Option<ByteString>)

  datatype Ref = Ref(name: ByteString, target: ObjectId, peeled: Option<ObjectId>)

  function HexDigit(n: int): (r: Byte)
    requires 0 <= n < 16
    ensures 48 <= r < 58 || 97 <= r < 103
  {
    if n < 10 then 48 + n else 87 + n
  }

  function Hex(raw: ByteString): (r: ByteString)
    ensures |r| == 2 * |raw|
    ensures forall i :: 0 <= i < |r| ==> 48 <= r[i] < 58 || 97 <= r[i] < 103
  {
    if |raw| == 0 then [] else [HexDigit((raw[0] as int) / 16), HexDigit((raw[0] as int) % 16)] + Hex(raw[1..])
  }

  /** The value of a lower-case hexadecimal digit. */
  function DigitValue(c: Byte): int {
    if 48 <= c < 58 then c - 48 else c - 87
  }

  /** Each byte is its two digits, the high one first. */
  lemma {:induction false} HexReadsBack(raw: ByteString, i: nat)
    requires i < |raw|
    ensures 16 * DigitValue(Hex(raw)[2 * i]) + DigitValue(Hex(raw)[2 * i + 1]) == raw[i] as int
  {
    if i > 0 {
      HexReadsBack(raw[1..], i - 1);
      assert Hex(raw)[2 * i] == Hex(raw[1..])[2 * (i - 1)] && Hex(raw)[2 * i + 1] == Hex(raw[1..])[2 * (i - 1) + 1];
    }
  }

  function PinnedLine(r: Ref, name: ByteString): Line {
    Line(name, Hex(r.target.raw), match r.peeled case None => None case Some(o) => Some(Hex(o.raw)))
  }

  /** The pinned refs the workspace carries. */
  function Pinned(clone: Clone, refs: seq<Ref>): seq<Line> {
    if |refs| == 0 then []
    else
      var n := |refs| - 1;
      Pinned(clone, refs[..n]) +
      match MappedName(clone, refs[n].name)
      case None => []
      case Some(name) => [PinnedLine(refs[n], name)]
  }

  /** The pinned lines are those of the refs carried: the name there, the ID in hexadecimal, and the peeled ID if there is one. */
  lemma {:induction false} PinnedMembers(clone: Clone, refs: seq<Ref>, l: Line)
    ensures l in Pinned(clone, refs) <==>
            exists r <- refs ::
              && MappedName(clone, r.name) == Some(l.name) && l.target == Hex(r.target.raw)
              && (if r.peeled.Some? then l.peeled == Some(Hex(r.peeled.value.raw)) else l.peeled == None)
  {
    hide MappedName;
    hide Hex;
    if |refs| > 0 {
      var n := |refs| - 1;
      PinnedMembers(clone, refs[..n], l);
      assert refs == refs[..n] + [refs[n]];
    }
  }

  // ---------------------------------------------------------------------------
  // Reading
  // ---------------------------------------------------------------------------

  /** A line without the carriage return of a `\r\n` ending. */
  function Trimmed(s: ByteString): ByteString {
    if |s| > 0 && s[|s| - 1] == CR then s[..|s| - 1] else s
  }

  /** `str::lines`. */
  function LinesOf(text: ByteString): seq<ByteString>
    decreases |text|
  {
    if |text| == 0 then []
    else
      match Position(text, LF)
      case None => [text]
      case Some(k) => [Trimmed(text[..k])] + LinesOf(text[k + 1..])
  }

  /** Lines end at line feeds, with a carriage return before one or without; what follows the last is a line if there is any. */
  lemma LinesExactly(line: ByteString, rest: ByteString)
    requires 10 !in line
    ensures LinesOf(line) == if |line| == 0 then [] else [line]
    ensures LinesOf(line + [10] + rest) ==
            [if |line| > 0 && line[|line| - 1] == 13 then line[..|line| - 1] else line] + LinesOf(rest)
  {
    hide LinesOf;
    hide Position;
    var text := line + [10] + rest;
    assert text[|line|] == LF && text[..|line|] == line;
    PositionUnique(text, LF, |line|);
    assert text[|line| + 1..] == rest;
    LinesUnfold(text);
    LinesUnfold(line);
  }

  lemma LinesUnfold(text: ByteString)
    ensures LinesOf(text) ==
            if |text| == 0 then []
            else if Position(text, LF).None? then [text]
            else [Trimmed(text[..Position(text, LF).value])] + LinesOf(text[Position(text, LF).value + 1..])
  {
    hide Position;
    hide Trimmed;
  }

  /** A packed branch on a line: the name after the first space, the target before it. */
  function Branch(line: ByteString): Option<Line> {
    match Position(line, SP)
    case None => None
    case Some(k) => if Heads() <= line[k + 1..] then Some(Line(line[k + 1..], line[..k], None)) else None
  }

  /** The branches kept so far, and whether a peel on the next line belongs to the last of them. */
  datatype Kept = Kept(lines: seq<Line>, open: bool)

  function Absorb(k: Kept, line: ByteString): Kept {
    if |line| > 0 && line[0] == CARET then
      if k.open && |k.lines| > 0 then
        k.(lines := k.lines[..|k.lines| - 1] + [k.lines[|k.lines| - 1].(peeled := Some(line[1..]))])
      else k
    else
      match Branch(line)
      case None => k.(open := false)
      case Some(l) => Kept(k.lines + [l], true)
  }

  /** A line with a caret peels the branch just kept; another keeps a branch, or ends what a caret may peel. */
  lemma AbsorbsExactly(k: Kept, target: ByteString, name: ByteString, line: ByteString)
    requires 32 !in target && (|target| > 0 ==> target[0] != 94)
    ensures |k.lines| > 0 && k.open ==>
            var last := |k.lines| - 1;
            Absorb(k, [94] + line) == Kept(k.lines[last := k.lines[last].(peeled := Some(line))], true)
    ensures !k.open ==> Absorb(k, [94] + line) == k
    ensures Absorb(k, target + [32] + name) ==
            if Ascii("refs/heads/") <= name then Kept(k.lines + [Line(name, target, None)], true) else Kept(k.lines, false)
    ensures Absorb(k, target) == Kept(k.lines, false)
  {
    var text := target + [32] + name;
    assert text[|target|] == SP && text[..|target|] == target && text[|target| + 1..] == name;
    PositionUnique(text, SP, |target|);
    assert ([94] + line)[1..] == line;
    hide Position;
    if |k.lines| > 0 {
      var last := |k.lines| - 1;
      assert k.lines[..last] + [k.lines[last].(peeled := Some(line))] == k.lines[last := k.lines[last].(peeled := Some(line))];
    }
  }

  function AbsorbAll(k: Kept, lines: seq<ByteString>): Kept
    decreases |lines|
  {
    if |lines| == 0 then k else AbsorbAll(Absorb(k, lines[0]), lines[1..])
  }

  /** The branches an earlier file holds, each with its peel. */
  function KeptBranches(previous: Option<ByteString>): seq<Line> {
    match previous
    case None => []
    case Some(text) => AbsorbAll(Kept([], false), LinesOf(text)).lines
  }

  // ---------------------------------------------------------------------------
  // Writing
  // ---------------------------------------------------------------------------

  /** The order of tuples: name, target, peel, with no peel first. */
  predicate PeelLess(a: Option<ByteString>, b: Option<ByteString>) {
    b.Some? && (a.None? || Less(a.value, b.value))
  }

  predicate LineLess(a: Line, b: Line) {
    Less(a.name, b.name)
    || (a.name == b.name && (Less(a.target, b.target) || (a.target == b.target && PeelLess(a.peeled, b.peeled))))
  }

  predicate InOrder(a: Line, b: Line) {
    !LineLess(b, a)
  }

  function FileHeader(): (r: ByteString)
    ensures |r| > 0 && r[|r| - 1] == LF
  {
    Ascii("# pack-refs with: ") + Ascii("peeled fully-peeled ") + Ascii("sorted ") + [LF]
  }

  /** What the header claims: peeled, fully peeled, sorted. */
  lemma HeaderText()
    ensures FileHeader() == Ascii("# ") + Ascii("pack-refs ") + Ascii("with: ") + Ascii("peeled ") + Ascii("fully-peeled ") + Ascii("sorted ") + [10]
  {
    var sorted := Ascii("sorted ");
    HeaderStart();
    HeaderTraits();
    hide Ascii;
    assert FileHeader() == Ascii("# pack-refs with: ") + Ascii("peeled fully-peeled ") + sorted + [10];
  }

  lemma HeaderStart()
    ensures Ascii("# pack-refs with: ") == Ascii("# ") + Ascii("pack-refs ") + Ascii("with: ")
  {
  }

  lemma HeaderTraits()
    ensures Ascii("peeled fully-peeled ") == Ascii("peeled ") + Ascii("fully-peeled ")
  {
  }

  function LineText(l: Line): ByteString {
    l.target + [SP] + l.name + [LF] + match l.peeled case None => [] case Some(p) => [CARET] + p + [LF]
  }

  function Text(lines: seq<Line>): ByteString {
    if |lines| == 0 then [] else LineText(lines[0]) + Text(lines[1..])
  }

  /** The lines of the rewritten file. */
  function Lines(clone: Clone, refs: seq<Ref>, previous: Option<ByteString>): seq<Line> {
    Sorting.Sort(InOrder, Pinned(clone, refs) + KeptBranches(previous))
  }

  function Written(clone: Clone, refs: seq<Ref>, previous: Option<ByteString>): ByteString {
    FileHeader() + Text(Lines(clone, refs, previous))
  }

  /** The loop over the refs: one line for each the workspace carries. */
  method PinRefs(clone: Clone, refs: seq<Ref>) returns (lines: seq<Line>)
    ensures lines == Pinned(clone, refs)
  {
    hide MappedName;
    hide PinnedLine;
    lines := [];
    for i := 0 to |refs|
      invariant lines == Pinned(clone, refs[..i])
    {
      assert refs[..i + 1][..i] == refs[..i];
      var name := MappedName(clone, refs[i].name);
      if name.None? {
        continue;
      }
      lines := lines + [PinnedLine(refs[i], name.value)];
    }
    assert refs[..|refs|] == refs;
  }

  /** The loop that prints the lines after the header. */
  method Print(lines: seq<Line>) returns (out: ByteString)
    ensures out == FileHeader() + Text(lines)
  {
    hide LineText;
    hide FileHeader;
    out := FileHeader();
    for i := 0 to |lines|
      invariant out == FileHeader() + Text(lines[..i])
    {
      assert lines[..i + 1] == lines[..i] + [lines[i]];
      TextAppend(lines[..i], lines[i]);
      LineTextIs(lines[i]);
      out := out + lines[i].target;
      out := out + [SP];
      out := out + lines[i].name;
      out := out + [LF];
      if lines[i].peeled.Some? {
        out := out + [CARET];
        out := out + lines[i].peeled.value;
        out := out + [LF];
      }
    }
    assert lines[..|lines|] == lines;
  }

  method WritePackedRefs(clone: Clone, refs: seq<Ref>, previous: Option<ByteString>) returns (out: ByteString)
    ensures out == Written(clone, refs, previous)
  {
    hide Branch;
    hide LinesOf;
    hide Sorting.Sort;
    hide FileHeader;
    hide Text;
    var lines := PinRefs(clone, refs);
    ghost var pinned := lines;
    if previous.Some? {
      lines := KeepBranches(lines, LinesOf(previous.value));
    }
    assert lines == pinned + KeptBranches(previous);
    lines := Sorting.Sort(InOrder, lines);
    out := Print(lines);
  }

  lemma LineTextIs(l: Line)
    ensures LineText(l) == l.target + [SP] + l.name + [LF] + match l.peeled case None => [] case Some(p) => [CARET] + p + [LF]
  {
  }

  /** The loop over the earlier file's lines, patching the peel of the last branch kept. */
  method KeepBranches(pinned: seq<Line>, texts: seq<ByteString>) returns (lines: seq<Line>)
    ensures lines == pinned + AbsorbAll(Kept([], false), texts).lines
  {
    hide Branch;
    hide AbsorbAll;
    lines := pinned;
    var kept: Option<nat> := None;
    ghost var k := Kept([], false);
    WholeSlices(texts);
    for i := 0 to |texts|
      invariant AbsorbAll(k, texts[i..]) == AbsorbAll(Kept([], false), texts)
      invariant lines == pinned + k.lines
      invariant kept == if k.open then Some(|lines| - 1) else None
      invariant k.open ==> |k.lines| > 0
    {
      var line := texts[i];
      AbsorbNext(k, texts, i);
      ghost var before := k;
      k := Absorb(k, line);
      if |line| > 0 && line[0] == CARET {
        if kept.Some? {
          PatchLast(pinned, before.lines, line[1..]);
          lines := lines[kept.value := lines[kept.value].(peeled := Some(line[1..]))];
        }
        continue;
      }
      kept := None;
      var branch := Branch(line);
      if branch.Some? {
        Assoc(pinned, before.lines, [branch.value]);
        lines := lines + [branch.value];
        kept := Some(|lines| - 1);
      }
    }
    AbsorbNone(k, texts);
  }

  lemma AbsorbNext(k: Kept, texts: seq<ByteString>, i: nat)
    requires i < |texts|
    ensures AbsorbAll(k, texts[i..]) == AbsorbAll(Absorb(k, texts[i]), texts[i + 1..])
  {
    hide Absorb;
    assert texts[i..][0] == texts[i] && texts[i..][1..] == texts[i + 1..];
  }

  lemma AbsorbNone(k: Kept, texts: seq<ByteString>)
    ensures AbsorbAll(k, texts[|texts|..]) == k
  {
  }

  lemma PatchLast(pinned: seq<Line>, kept: seq<Line>, peel: ByteString)
    requires |kept| > 0
    ensures var all, last := pinned + kept, kept[|kept| - 1];
            && all[|all| - 1] == last
            && all[|all| - 1 := last.(peeled := Some(peel))] == pinned + (kept[..|kept| - 1] + [last.(peeled := Some(peel))])
  {
  }

  lemma {:induction false} TextAppend(lines: seq<Line>, last: Line)
    ensures Text(lines + [last]) == Text(lines) + LineText(last)
  {
    hide LineText;
    if |lines| == 0 {
      assert lines + [last] == [last] && [last][1..] == [];
    } else {
      assert (lines + [last])[1..] == lines[1..] + [last];
      TextAppend(lines[1..], last);
    }
  }
}
