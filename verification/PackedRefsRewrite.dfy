/** Rewriting a `packed-refs` file: sorted, nothing packed lost, and the same again. */
module PackedRefsRewrite {
  import opened Wrappers
  import opened Bytes
  import opened PackedRefs
  import opened PackedRefsFile
  import Sorting

  // ---------------------------------------------------------------------------
  // The order of lines
  // ---------------------------------------------------------------------------

  lemma PeelOrder(a: Option<ByteString>, b: Option<ByteString>, c: Option<ByteString>)
    ensures PeelLess(a, b) || a == b || PeelLess(b, a)
    ensures PeelLess(a, b) ==> !PeelLess(b, a) && a != b
    ensures PeelLess(a, b) && PeelLess(b, c) ==> PeelLess(a, c)
  {
    if a.Some? && b.Some? {
      Order(a.value, b.value, if c.Some? then c.value else []);
    }
  }

  lemma Order(a: ByteString, b: ByteString, c: ByteString)
    ensures Less(a, b) || a == b || Less(b, a)
    ensures Less(a, b) ==> !Less(b, a) && a != b
    ensures Less(a, b) && Less(b, c) ==> Less(a, c)
  {
    LessTotal(a, b);
    if Less(a, b) { LessAsymmetric(a, b); }
    if Less(a, b) && Less(b, c) { LessTransitive(a, b, c); }
  }

  lemma LineOrder(a: Line, b: Line, c: Line)
    ensures LineLess(a, b) || a == b || LineLess(b, a)
    ensures LineLess(a, b) ==> !LineLess(b, a) && a != b
    ensures LineLess(a, b) && LineLess(b, c) ==> LineLess(a, c)
  {
    Order(a.name, b.name, c.name);
    Order(b.name, a.name, c.name);
    Order(a.target, b.target, c.target);
    Order(b.target, a.target, c.target);
    PeelOrder(a.peeled, b.peeled, c.peeled);
    PeelOrder(b.peeled, a.peeled, c.peeled);
    hide Less;
    hide PeelLess;
  }

  lemma InOrderPreorder()
    ensures Sorting.TotalPreorder(InOrder)
  {
    forall x, y ensures InOrder(x, y) || InOrder(y, x) { LineOrder(x, y, x); }
    forall x, y, z | InOrder(x, y) && InOrder(y, z) ensures InOrder(x, z) {
      LineOrder(x, y, z);
      LineOrder(z, x, y);
      LineOrder(y, z, x);
    }
  }

  /** Lines are written by name; lines of one name by target, and of one target without a peel first, then by peel. */
  lemma LinesInOrder(clone: Clone, refs: seq<Ref>, previous: Option<ByteString>, i: nat, j: nat)
    requires i < j < |Lines(clone, refs, previous)|
    ensures var a, b := Lines(clone, refs, previous)[i], Lines(clone, refs, previous)[j];
            || Less(a.name, b.name)
            || (a.name == b.name
                && (|| Less(a.target, b.target)
                    || (a.target == b.target && (a.peeled.None? || (b.peeled.Some? && !Less(b.peeled.value, a.peeled.value))))))
  {
    hide Less;
    hide Pinned;
    hide KeptBranches;
    hide Sorting.Sort;
    var all := Pinned(clone, refs) + KeptBranches(previous);
    InOrderPreorder();
    Sorting.SortSorts(InOrder, all);
    var a, b := Sorting.Sort(InOrder, all)[i], Sorting.Sort(InOrder, all)[j];
    assert InOrder(a, b);
    LineOrder(a, b, a);
    Order(a.name, b.name, a.name);
    Order(a.target, b.target, a.target);
    Order(b.name, a.name, a.name);
    Order(b.target, a.target, a.target);
  }

  lemma SortDetermined(s: seq<Line>, t: seq<Line>)
    requires multiset(s) == multiset(t)
    ensures Sorting.Sort(InOrder, s) == Sorting.Sort(InOrder, t)
  {
    hide *;
    var a, b := Sorting.Sort(InOrder, s), Sorting.Sort(InOrder, t);
    InOrderPreorder();
    Sorting.SortSorts(InOrder, s);
    Sorting.SortSorts(InOrder, t);
    Sorting.SortPermutes(InOrder, s);
    Sorting.SortPermutes(InOrder, t);
    Distinguished(a);
    Sorting.SortedUnique(InOrder, a, b);
  }

  lemma Distinguished(s: seq<Line>)
    ensures Sorting.AntisymmetricOn(InOrder, s)
  {
    forall i, j | 0 <= i < |s| && 0 <= j < |s| && InOrder(s[i], s[j]) && InOrder(s[j], s[i]) ensures s[i] == s[j] {
      LineOrder(s[i], s[j], s[i]);
    }
  }

  // ---------------------------------------------------------------------------
  // Reading what was written
  // ---------------------------------------------------------------------------

  /** A line whose text can be told apart again. */
  predicate Plain(l: Line) {
    && LF !in l.name && LF !in l.target && SP !in l.target
    && (|l.target| > 0 ==> l.target[0] != CARET)
    && (l.peeled.Some? ==> LF !in l.peeled.value)
  }

  predicate IsBranch(l: Line) {
    Heads() <= l.name
  }

  /** A line as reading gives it back: without a carriage return before a line end. */
  function Stripped(l: Line): Line {
    Line(Trimmed(l.name), l.target, match l.peeled case None => None case Some(p) => Some(Trimmed(p)))
  }

  function BranchesOf(lines: seq<Line>): seq<Line> {
    if |lines| == 0 then []
    else (if IsBranch(lines[0]) then [Stripped(lines[0])] else []) + BranchesOf(lines[1..])
  }

  lemma FirstLine(a: ByteString, b: ByteString)
    requires LF !in a
    ensures LinesOf(a + [LF] + b) == [Trimmed(a)] + LinesOf(b)
  {
    var text := a + [LF] + b;
    assert text[|a|] == LF && text[..|a|] == a;
    PositionUnique(text, LF, |a|);
    assert text[|a| + 1..] == b;
    hide Position;
  }

  lemma LineTexts(l: Line, rest: ByteString)
    requires Plain(l)
    ensures LinesOf(LineText(l) + rest) ==
            [Trimmed(l.target + [SP] + l.name)]
            + (match l.peeled case None => [] case Some(p) => [Trimmed([CARET] + p)]) + LinesOf(rest)
  {
    var first := l.target + [SP] + l.name;
    hide LinesOf;
    hide Trimmed;
    if l.peeled.None? {
      assert LineText(l) + rest == first + [LF] + rest;
      FirstLine(first, rest);
      assert [Trimmed(first)] + [] + LinesOf(rest) == [Trimmed(first)] + LinesOf(rest);
    } else {
      var second := [CARET] + l.peeled.value;
      assert LineText(l) + rest == first + [LF] + (second + [LF] + rest);
      FirstLine(first, second + [LF] + rest);
      FirstLine(second, rest);
      Assoc([Trimmed(first)], [Trimmed(second)], LinesOf(rest));
    }
  }

  lemma TrimTail(a: ByteString, b: ByteString)
    requires |a| > 0 && a[|a| - 1] != CR
    ensures Trimmed(a + b) == a + Trimmed(b)
  {
  }

  lemma BranchOfText(target: ByteString, name: ByteString)
    requires SP !in target
    ensures Branch(target + [SP] + name) == if Heads() <= name then Some(Line(name, target, None)) else None
  {
    var s := target + [SP] + name;
    assert s[|target|] == SP && s[..|target|] == target;
    PositionUnique(s, SP, |target|);
    hide Position;
    assert s[|target| + 1..] == name;
  }

  lemma TrimmedHeads(name: ByteString)
    ensures Heads() <= Trimmed(name) <==> Heads() <= name
  {
    HeadsEnd();
    hide Heads;
    if Heads() <= name && |name| == |Heads()| {
      assert name == Heads();
    }
  }

  lemma HeadsEnd()
    ensures Heads()[|Heads()| - 1] == SLASH
  {
  }

  /** The last branch gets a peel. */
  function WithPeel(lines: seq<Line>, p: ByteString): seq<Line>
    requires |lines| > 0
  {
    lines[..|lines| - 1] + [lines[|lines| - 1].(peeled := Some(p))]
  }

  lemma AbsorbRef(k: Kept, l: Line)
    requires Plain(l)
    ensures Absorb(k, Trimmed(l.target + [SP] + l.name)) ==
            if IsBranch(l) then Kept(k.lines + [Stripped(l).(peeled := None)], true) else k.(open := false)
  {
    TrimTail(l.target + [SP], l.name);
    TrimmedHeads(l.name);
    BranchOfText(l.target, Trimmed(l.name));
    var text := l.target + [SP] + Trimmed(l.name);
    assert text[0] == if |l.target| > 0 then l.target[0] else SP;
    hide Heads;
    hide Branch;
    hide Trimmed;
  }

  lemma AbsorbPeel(k: Kept, p: ByteString)
    ensures Absorb(k, Trimmed([CARET] + p)) ==
            if k.open && |k.lines| > 0 then k.(lines := WithPeel(k.lines, Trimmed(p))) else k
  {
    TrimTail([CARET], p);
    assert ([CARET] + Trimmed(p))[1..] == Trimmed(p);
    hide Trimmed;
    hide Branch;
  }

  /** Reading one printed line. */
  lemma AbsorbLine(k: Kept, l: Line, rest: ByteString) returns (open: bool)
    requires Plain(l)
    ensures AbsorbAll(k, LinesOf(LineText(l) + rest)) ==
            AbsorbAll(Kept(k.lines + (if IsBranch(l) then [Stripped(l)] else []), open), LinesOf(rest))
  {
    hide *;
    var first := Trimmed(l.target + [SP] + l.name);
    var k1 := Absorb(k, first);
    LineTexts(l, rest);
    AbsorbRef(k, l);
    NothingMore(k.lines);
    var lines := LinesOf(rest);
    if l.peeled.None? {
      Assoc([first], [], lines);
      NothingMore(lines);
      AbsorbCons(k, first, lines);
      StrippedPeel(l);
      open := k1.open;
    } else {
      var second := Trimmed([CARET] + l.peeled.value);
      Assoc([first], [second], lines);
      AbsorbCons(k, first, [second] + lines);
      AbsorbCons(k1, second, lines);
      AbsorbPeel(k1, l.peeled.value);
      StrippedPeel(l);
      var k2 := Absorb(k1, second);
      if IsBranch(l) {
        PeelLast(k.lines, Stripped(l).(peeled := None), Trimmed(l.peeled.value));
      }
      open := k2.open;
    }
  }

  lemma NothingMore<T>(s: seq<T>)
    ensures s + [] == s && [] + s == s
  {
  }

  lemma AbsorbCons(k: Kept, line: ByteString, lines: seq<ByteString>)
    ensures AbsorbAll(k, [line] + lines) == AbsorbAll(Absorb(k, line), lines)
  {
    hide Absorb;
    assert ([line] + lines)[1..] == lines;
  }

  lemma StrippedPeel(l: Line)
    ensures l.peeled.None? ==> Stripped(l).(peeled := None) == Stripped(l)
    ensures l.peeled.Some? ==> Stripped(l).(peeled := None).(peeled := Some(Trimmed(l.peeled.value))) == Stripped(l)
  {
  }

  lemma PeelLast(lines: seq<Line>, l: Line, p: ByteString)
    ensures |lines + [l]| > 0 && WithPeel(lines + [l], p) == lines + [l.(peeled := Some(p))]
  {
    assert (lines + [l])[..|lines|] == lines;
  }

  lemma {:induction false} AbsorbText(k: Kept, lines: seq<Line>)
    requires forall i :: 0 <= i < |lines| ==> Plain(lines[i])
    ensures AbsorbAll(k, LinesOf(Text(lines))).lines == k.lines + BranchesOf(lines)
    decreases |lines|
  {
    hide Plain;
    hide LineText;
    hide LinesOf;
    hide AbsorbAll;
    hide Stripped;
    hide IsBranch;
    if |lines| == 0 {
      EmptyText(k);
      NothingMore(k.lines);
    } else {
      var open := AbsorbLine(k, lines[0], Text(lines[1..]));
      var mine := if IsBranch(lines[0]) then [Stripped(lines[0])] else [];
      AbsorbText(Kept(k.lines + mine, open), lines[1..]);
      Assoc(k.lines, mine, BranchesOf(lines[1..]));
    }
  }

  lemma EmptyText(k: Kept)
    ensures LinesOf([]) == [] && AbsorbAll(k, []) == k
  {
  }

  /** The header is no branch. */
  lemma AbsorbHeader(rest: ByteString)
    ensures AbsorbAll(Kept([], false), LinesOf(FileHeader() + rest)) == AbsorbAll(Kept([], false), LinesOf(rest))
  {
    var header := FileHeader();
    var line := header[..|header| - 1];
    HeaderParts();
    hide FileHeader;
    assert header + rest == line + [LF] + rest;
    FirstLine(line, rest);
    hide LinesOf;
    hide AbsorbAll;
    AbsorbCons(Kept([], false), Trimmed(line), LinesOf(rest));
    BranchOfText(line[..1], line[2..]);
    assert line == line[..1] + [SP] + line[2..];
    assert !(Heads() <= line[2..]) by {
      assert line[2..][0] == 112;
      assert Heads()[0] == 114;
    }
  }

  lemma HeaderParts()
    ensures var header := FileHeader();
            && |header| > 10 && header[|header| - 1] == LF && header[0] == 35 && header[1] == SP && header[2] == 112
            && LF !in header[..|header| - 1] && header[|header| - 2] != CR
  {
  }

  /** Of a printed file, reading keeps exactly the branches with their peels, up to carriage returns at line ends. */
  lemma ReadsBranchesBack(lines: seq<Line>)
    requires forall i :: 0 <= i < |lines| ==> Plain(lines[i])
    ensures KeptBranches(Some(FileHeader() + Text(lines))) == BranchesOf(lines)
  {
    hide FileHeader;
    hide Text;
    hide LinesOf;
    hide AbsorbAll;
    hide BranchesOf;
    AbsorbHeader(Text(lines));
    AbsorbText(Kept([], false), lines);
    NothingMore(BranchesOf(lines));
  }

  // ---------------------------------------------------------------------------
  // Lines that come from a file or from a ref
  // ---------------------------------------------------------------------------

  lemma {:induction false} LinesHaveNoNewline(text: ByteString)
    ensures forall line <- LinesOf(text) :: LF !in line
    decreases |text|
  {
    if |text| > 0 && Position(text, LF).Some? {
      LinesHaveNoNewline(text[Position(text, LF).value + 1..]);
    }
  }

  predicate PlainBranches(lines: seq<Line>) {
    forall i :: 0 <= i < |lines| ==> Plain(lines[i]) && IsBranch(lines[i])
  }

  lemma AbsorbKeepsPlain(k: Kept, line: ByteString)
    requires PlainBranches(k.lines) && LF !in line
    ensures PlainBranches(Absorb(k, line).lines)
  {
    hide Heads;
  }

  lemma {:induction false} AbsorbAllKeepsPlain(k: Kept, lines: seq<ByteString>)
    requires PlainBranches(k.lines) && forall line <- lines :: LF !in line
    ensures PlainBranches(AbsorbAll(k, lines).lines)
    decreases |lines|
  {
    if |lines| > 0 {
      AbsorbKeepsPlain(k, lines[0]);
      hide Absorb;
      hide PlainBranches;
      AbsorbAllKeepsPlain(Absorb(k, lines[0]), lines[1..]);
    }
  }

  /** Whatever an earlier file holds, what is kept of it prints as plain branch lines. */
  lemma KeptArePlain(previous: Option<ByteString>)
    ensures PlainBranches(KeptBranches(previous))
  {
    if previous.Some? {
      LinesHaveNoNewline(previous.value);
      AbsorbAllKeepsPlain(Kept([], false), LinesOf(previous.value));
    }
  }

  /** Names Git accepts hold no newline. */
  predicate CleanNames(refs: seq<Ref>) {
    forall i :: 0 <= i < |refs| ==> LF !in refs[i].name
  }

  lemma MappedNameIsClean(clone: Clone, name: ByteString)
    requires LF !in name && MappedName(clone, name).Some?
    ensures LF !in MappedName(clone, name).value
  {
    assert LF !in OriginHeads() && LF !in LocalHeads();
    MappedNameLies(clone, name);
    hide MappedName;
    hide OriginHeads;
    hide LocalHeads;
    hide Tags;
    hide Heads;
  }

  lemma {:induction false} PinnedArePlain(clone: Clone, refs: seq<Ref>)
    requires CleanNames(refs)
    ensures forall i :: 0 <= i < |Pinned(clone, refs)| ==> Plain(Pinned(clone, refs)[i]) && !IsBranch(Pinned(clone, refs)[i])
    decreases |refs|
  {
    if |refs| > 0 {
      var n := |refs| - 1;
      PinnedArePlain(clone, refs[..n]);
      var m := MappedName(clone, refs[n].name);
      if m.Some? {
        MappedNameIsClean(clone, refs[n].name);
        MappedNameLies(clone, refs[n].name);
      }
      hide MappedName;
      hide Heads;
    }
  }

  // ---------------------------------------------------------------------------
  // Writing again
  // ---------------------------------------------------------------------------

  function BranchPart(): Line -> multiset<Line> {
    (l: Line) => if IsBranch(l) then multiset{Stripped(l)} else multiset{}
  }

  function BytePart(): Line -> multiset<Byte> {
    (l: Line) => multiset(LineText(l))
  }

  lemma {:induction false} BranchesGathered(lines: seq<Line>)
    ensures multiset(BranchesOf(lines)) == Sorting.Gather(BranchPart(), lines)
  {
    hide IsBranch;
    hide Stripped;
    if |lines| > 0 {
      BranchesGathered(lines[1..]);
    }
  }

  lemma {:induction false} BytesGathered(lines: seq<Line>)
    ensures multiset(Text(lines)) == Sorting.Gather(BytePart(), lines)
  {
    hide LineText;
    if |lines| > 0 {
      BytesGathered(lines[1..]);
    }
  }

  lemma {:induction false} NoBranches(lines: seq<Line>)
    requires forall i :: 0 <= i < |lines| ==> !IsBranch(lines[i])
    ensures BranchesOf(lines) == []
  {
    hide IsBranch;
    if |lines| > 0 {
      NoBranches(lines[1..]);
    }
  }

  lemma BranchesFirst(a: seq<Line>)
    requires |a| > 0
    ensures BranchesOf(a) == (if IsBranch(a[0]) then [Stripped(a[0])] else []) + BranchesOf(a[1..])
  {
    hide IsBranch;
    hide Stripped;
  }

  lemma {:induction false} BranchesAppend(a: seq<Line>, b: seq<Line>)
    ensures BranchesOf(a + b) == BranchesOf(a) + BranchesOf(b)
  {
    hide IsBranch;
    hide Stripped;
    if |a| == 0 {
      assert a + b == b;
    } else {
      BranchesFirst(a);
      BranchesFirst(a + b);
      assert (a + b)[1..] == a[1..] + b && (a + b)[0] == a[0];
      BranchesAppend(a[1..], b);
      hide BranchesOf;
      Assoc(if IsBranch(a[0]) then [Stripped(a[0])] else [], BranchesOf(a[1..]), BranchesOf(b));
    }
  }

  /** A line no carriage return is taken from. */
  predicate Settled(l: Line) {
    Stripped(l) == l
  }

  lemma SettledMeans(l: Line)
    ensures Settled(l) <==>
            && (|l.name| > 0 ==> l.name[|l.name| - 1] != CR)
            && (l.peeled.Some? && |l.peeled.value| > 0 ==> l.peeled.value[|l.peeled.value| - 1] != CR)
  {
  }

  lemma {:induction false} BranchesOfBranches(lines: seq<Line>)
    requires PlainBranches(lines)
    ensures |Text(BranchesOf(lines))| <= |Text(lines)|
    ensures (forall i :: 0 <= i < |lines| ==> Settled(lines[i])) ==> BranchesOf(lines) == lines
    ensures !(forall i :: 0 <= i < |lines| ==> Settled(lines[i])) ==> |Text(BranchesOf(lines))| < |Text(lines)|
  {
    if |lines| > 0 {
      var first, rest := lines[0], BranchesOf(lines[1..]);
      BranchesOfBranches(lines[1..]);
      assert BranchesOf(lines) == [Stripped(first)] + rest;
      assert ([Stripped(first)] + rest)[1..] == rest;
      StrippedIsShorter(first);
      hide LineText;
      hide Stripped;
      hide IsBranch;
      hide Plain;
      hide BranchesOf;
      assert lines == [first] + lines[1..];
    }
  }

  lemma StrippedIsShorter(l: Line)
    ensures |LineText(Stripped(l))| <= |LineText(l)|
    ensures !Settled(l) ==> |LineText(Stripped(l))| < |LineText(l)|
  {
  }

  lemma SizeOfSorted(lines: seq<Line>)
    ensures |Text(Sorting.Sort(InOrder, lines))| == |Text(lines)|
  {
    hide *;
    BytesGathered(lines);
    BytesGathered(Sorting.Sort(InOrder, lines));
    Sorting.SortGathers(InOrder, lines, BytePart());
    assert |multiset(Text(lines))| == |multiset(Text(Sorting.Sort(InOrder, lines)))|;
  }

  lemma {:induction false} SizeAppend(a: seq<Line>, b: seq<Line>)
    ensures |Text(a + b)| == |Text(a)| + |Text(b)|
  {
    hide LineText;
    if |a| == 0 {
      assert a + b == b;
    } else {
      assert (a + b)[1..] == a[1..] + b;
      SizeAppend(a[1..], b);
    }
  }

  /** What a second write keeps of the first: the branches, stripped, in some order. */
  lemma KeptOfWritten(clone: Clone, refs: seq<Ref>, previous: Option<ByteString>)
    requires CleanNames(refs)
    ensures multiset(KeptBranches(Some(Written(clone, refs, previous)))) == multiset(BranchesOf(KeptBranches(previous)))
  {
    var pinned, kept := Pinned(clone, refs), KeptBranches(previous);
    var lines := Lines(clone, refs, previous);
    WrittenIs(clone, refs, previous);
    PinnedArePlain(clone, refs);
    KeptArePlain(previous);
    AllPlain(pinned, kept, lines);
    hide *;
    ReadsBranchesBack(lines);
    BranchesGathered(lines);
    BranchesGathered(pinned + kept);
    Sorting.SortGathers(InOrder, pinned + kept, BranchPart());
    BranchesAppend(pinned, kept);
    NoBranches(pinned);
    NothingMore(BranchesOf(kept));
  }

  lemma WrittenIs(clone: Clone, refs: seq<Ref>, previous: Option<ByteString>)
    ensures Lines(clone, refs, previous) == Sorting.Sort(InOrder, Pinned(clone, refs) + KeptBranches(previous))
    ensures Written(clone, refs, previous) == FileHeader() + Text(Lines(clone, refs, previous))
  {
    hide FileHeader;
    hide Text;
    hide Sorting.Sort;
  }

  lemma AllPlain(pinned: seq<Line>, kept: seq<Line>, lines: seq<Line>)
    requires (forall i :: 0 <= i < |pinned| ==> Plain(pinned[i])) && PlainBranches(kept)
    requires lines == Sorting.Sort(InOrder, pinned + kept)
    ensures forall i :: 0 <= i < |lines| ==> Plain(lines[i])
  {
    hide Plain;
    hide IsBranch;
    forall i | 0 <= i < |lines| ensures Plain(lines[i]) {
      Sorting.SortMembers(InOrder, pinned + kept, lines[i]);
      assert lines[i] in pinned + kept;
    }
  }

  /**
   * Writing again from the same refs reproduces the file byte for byte exactly when no branch kept from
   * the earlier file has a name or a peel that ends in a carriage return.
   */
  lemma RewriteSettlesExactly(clone: Clone, refs: seq<Ref>, previous: Option<ByteString>)
    requires CleanNames(refs)
    ensures var kept := KeptBranches(previous);
            var once := Written(clone, refs, previous);
            Written(clone, refs, Some(once)) == once <==> forall i :: 0 <= i < |kept| ==> Settled(kept[i])
  {
    hide *;
    var pinned, kept := Pinned(clone, refs), KeptBranches(previous);
    var once := Written(clone, refs, previous);
    var again := KeptBranches(Some(once));
    KeptArePlain(previous);
    KeptOfWritten(clone, refs, previous);
    BranchesOfBranches(kept);
    WrittenIs(clone, refs, previous);
    WrittenIs(clone, refs, Some(once));
    if forall i :: 0 <= i < |kept| ==> Settled(kept[i]) {
      assert multiset(pinned + again) == multiset(pinned + kept);
      SortDetermined(pinned + again, pinned + kept);
    } else {
      SizeOfSorted(pinned + kept);
      SizeOfSorted(pinned + again);
      SizeAppend(pinned, kept);
      SizeAppend(pinned, again);
      BytesGathered(again);
      BytesGathered(BranchesOf(kept));
      SamePieces(again, BranchesOf(kept));
      assert |multiset(Text(again))| == |multiset(Text(BranchesOf(kept)))|;
    }
  }

  lemma {:induction false} SamePieces(s: seq<Line>, t: seq<Line>)
    requires multiset(s) == multiset(t)
    ensures Sorting.Gather(BytePart(), s) == Sorting.Gather(BytePart(), t)
  {
    hide *;
    SortDetermined(s, t);
    Sorting.SortGathers(InOrder, s, BytePart());
    Sorting.SortGathers(InOrder, t, BytePart());
  }

  /** A packed branch on a line of its own, with the all-zero ID. */
  function ZeroBranch(name: ByteString): (r: Line)
    ensures |r.target| == 40 && forall i :: 0 <= i < 40 ==> r.target[i] == 48
  {
    Line(Heads() + name, seq(40, _ => 48), None)
  }

  lemma PlainBranch(name: ByteString)
    requires LF !in name
    ensures Plain(ZeroBranch(name)) && IsBranch(ZeroBranch(name))
    ensures LineText(ZeroBranch(name)) == ZeroBranch(name).target + [SP] + Heads() + name + [LF]
  {
    HeadsEnd();
    assert LF !in ZeroBranch(name).target;
  }

  /** A file of one packed branch keeps that branch, less a carriage return. */
  lemma OneBranchFile(name: ByteString)
    requires LF !in name
    ensures KeptBranches(Some(FileHeader() + LineText(ZeroBranch(name)))) == [Stripped(ZeroBranch(name))]
  {
    hide *;
    var l := ZeroBranch(name);
    PlainBranch(name);
    TextOfOne(l);
    ReadsBranchesBack([l]);
  }

  lemma TextOfOne(l: Line)
    requires IsBranch(l)
    ensures Text([l]) == LineText(l) && BranchesOf([l]) == [Stripped(l)]
  {
    hide LineText;
    hide Stripped;
    assert [l][1..] == [];
    assert Text([l]) == LineText(l) + [];
  }

  lemma TextOfTwo(a: Line, b: Line)
    requires IsBranch(a) && IsBranch(b)
    ensures Text([a, b]) == LineText(a) + LineText(b) && BranchesOf([a, b]) == [Stripped(a), Stripped(b)]
  {
    hide LineText;
    hide Stripped;
    assert [a, b][1..] == [b];
    TextOfOne(b);
  }

  /**
   * A file whose one branch line ends in two carriage returns is not rewritten to itself: reading takes one of them for
   * the line end's, the file written has the other before its own line end, and reading that takes it too.
   */
  lemma CarriageReturnsDoNotSettle(clone: Clone, refs: seq<Ref>, text: ByteString)
    requires CleanNames(refs)
    requires text == FileHeader() + LineText(ZeroBranch([97, CR, CR]))
    ensures LineText(ZeroBranch([97, CR, CR])) == seq(40, _ => 48) + [SP] + Heads() + [97, CR, CR, LF]
    ensures KeptBranches(Some(text)) == [ZeroBranch([97, CR])]
    ensures var once := Written(clone, refs, Some(text));
            Written(clone, refs, Some(once)) != once
  {
    hide *;
    OneReturnLess();
    OneBranchFile([97, CR, CR]);
    RewriteSettlesExactly(clone, refs, Some(text));
    var kept := KeptBranches(Some(text));
    assert kept[0] == ZeroBranch([97, CR]);
  }

  lemma OneReturnLess()
    ensures LF !in [97, CR, CR] && LineText(ZeroBranch([97, CR, CR])) == seq(40, _ => 48) + [SP] + Heads() + [97, CR, CR, LF]
    ensures Stripped(ZeroBranch([97, CR, CR])) == ZeroBranch([97, CR]) && !Settled(ZeroBranch([97, CR]))
  {
    PlainBranch([97, CR, CR]);
    assert seq(40, _ => 48) == ZeroBranch([97, CR, CR]).target;
    assert [97, CR, CR] + [LF] == [97, CR, CR, LF];
    var two, one := Heads() + [97, CR, CR], Heads() + [97, CR];
    assert two[..|two| - 1] == one;
    assert one[|one| - 1] == CR;
  }

  // ---------------------------------------------------------------------------
  // Nothing packed is lost
  // ---------------------------------------------------------------------------

  /**
   * Every branch of a packed file, with its target and its peel, is in the file written over it; so is every
   * pinned ref the workspace carries, and nothing else.
   */
  lemma KeepsPackedBranches(clone: Clone, refs: seq<Ref>, packed: seq<Line>)
    requires forall i :: 0 <= i < |packed| ==> Plain(packed[i]) && Settled(packed[i])
    ensures var lines := Lines(clone, refs, Some(FileHeader() + Text(packed)));
            && (forall l :: l in lines <==> (l in packed && IsBranch(l)) || l in Pinned(clone, refs))
            && multiset(lines) == multiset(Pinned(clone, refs)) + multiset(BranchesOf(packed))
  {
    hide *;
    var previous := Some(FileHeader() + Text(packed));
    var lines, pinned, kept := Lines(clone, refs, previous), Pinned(clone, refs), BranchesOf(packed);
    ReadsBranchesBack(packed);
    WrittenIs(clone, refs, previous);
    Sorting.SortPermutes(InOrder, pinned + kept);
    BranchMembers(packed);
    forall l ensures l in lines <==> (l in packed && IsBranch(l)) || l in pinned {
      assert l in lines <==> l in multiset(lines);
      assert l in pinned + kept <==> l in multiset(pinned + kept);
    }
  }

  lemma {:induction false} BranchMembers(lines: seq<Line>)
    requires forall i :: 0 <= i < |lines| ==> Settled(lines[i])
    ensures forall l :: l in BranchesOf(lines) <==> l in lines && IsBranch(l)
  {
    hide Stripped;
    hide IsBranch;
    if |lines| > 0 {
      BranchMembers(lines[1..]);
      assert lines == [lines[0]] + lines[1..];
      assert Stripped(lines[0]) == lines[0];
    }
  }

  // ---------------------------------------------------------------------------
  // Sorted by name
  // ---------------------------------------------------------------------------

  function Names(lines: seq<Line>): (r: seq<ByteString>)
    ensures |r| == |lines| && forall i :: 0 <= i < |r| ==> r[i] == lines[i].name
  {
    seq(|lines|, i requires 0 <= i < |lines| => lines[i].name)
  }

  function NamePart(): Line -> multiset<ByteString> {
    (l: Line) => multiset{l.name}
  }

  lemma {:induction false} NamesGathered(lines: seq<Line>)
    ensures multiset(Names(lines)) == Sorting.Gather(NamePart(), lines)
  {
    if |lines| > 0 {
      NamesGathered(lines[1..]);
      assert Names(lines) == [lines[0].name] + Names(lines[1..]);
    }
  }

  /** In line order, names are strictly increasing exactly when they differ. */
  lemma SortedNames(lines: seq<Line>)
    ensures StrictlySorted(Names(Sorting.Sort(InOrder, lines))) <==> Distinct(Names(lines))
  {
    hide *;
    var sorted := Sorting.Sort(InOrder, lines);
    InOrderPreorder();
    Sorting.SortSorts(InOrder, lines);
    Sorting.SortGathers(InOrder, lines, NamePart());
    NamesGathered(lines);
    NamesGathered(sorted);
    DistinctCounts(Names(lines));
    DistinctCounts(Names(sorted));
    StrictWhenDistinct(sorted);
  }

  lemma StrictWhenDistinct(sorted: seq<Line>)
    requires Sorting.SortedBy(InOrder, sorted)
    ensures StrictlySorted(Names(sorted)) <==> Distinct(Names(sorted))
  {
    forall i, j | 0 <= i < j < |sorted| ensures Less(sorted[i].name, sorted[j].name) <==> sorted[i].name != sorted[j].name {
      assert InOrder(sorted[i], sorted[j]);
      Order(sorted[i].name, sorted[j].name, []);
    }
  }

  predicate DistinctRefs(refs: seq<Ref>) {
    forall i, j :: 0 <= i < j < |refs| ==> refs[i].name != refs[j].name
  }

  lemma {:induction false} PinnedFrom(clone: Clone, refs: seq<Ref>)
    ensures forall l <- Pinned(clone, refs) ::
              exists i :: 0 <= i < |refs| && MappedName(clone, refs[i].name) == Some(l.name)
    decreases |refs|
  {
    hide MappedName;
    if |refs| > 0 {
      var n := |refs| - 1;
      PinnedFrom(clone, refs[..n]);
      forall l <- Pinned(clone, refs) ensures exists i :: 0 <= i < |refs| && MappedName(clone, refs[i].name) == Some(l.name) {
        if l in Pinned(clone, refs[..n]) {
          var i :| 0 <= i < |refs[..n]| && MappedName(clone, refs[..n][i].name) == Some(l.name);
          assert refs[..n][i] == refs[i];
        } else {
          assert MappedName(clone, refs[n].name) == Some(l.name);
        }
      }
    }
  }

  lemma {:induction false} PinnedDistinct(clone: Clone, refs: seq<Ref>)
    requires DistinctRefs(refs)
    ensures Distinct(Names(Pinned(clone, refs)))
    decreases |refs|
  {
    hide MappedName;
    if |refs| > 0 {
      var n := |refs| - 1;
      var before, m := Pinned(clone, refs[..n]), MappedName(clone, refs[n].name);
      PinnedDistinct(clone, refs[..n]);
      if m.Some? {
        PinnedFrom(clone, refs[..n]);
        forall i | 0 <= i < |before| ensures before[i].name != m.value {
          assert before[i] in before;
          var j :| 0 <= j < |refs[..n]| && MappedName(clone, refs[..n][j].name) == Some(before[i].name);
          if before[i].name == m.value {
            MappedNameInjective(clone, refs[j].name, refs[n].name);
          }
        }
        assert Names(Pinned(clone, refs)) == Names(before) + [m.value];
      } else {
        assert Pinned(clone, refs) == before;
      }
    }
  }

  /** For distinct refs the file's names strictly increase, as its header claims, exactly when no branch was packed twice. */
  lemma SortedExactly(clone: Clone, refs: seq<Ref>, previous: Option<ByteString>)
    requires DistinctRefs(refs) && CleanNames(refs)
    ensures StrictlySorted(Names(Lines(clone, refs, previous))) <==> Distinct(Names(KeptBranches(previous)))
  {
    hide *;
    var pinned, kept := Pinned(clone, refs), KeptBranches(previous);
    WrittenIs(clone, refs, previous);
    SortedNames(pinned + kept);
    PinnedDistinct(clone, refs);
    PinnedArePlain(clone, refs);
    KeptArePlain(previous);
    BranchNames(pinned, kept);
  }

  lemma BranchNames(pinned: seq<Line>, kept: seq<Line>)
    requires Distinct(Names(pinned)) && PlainBranches(kept)
    requires forall i :: 0 <= i < |pinned| ==> Plain(pinned[i]) && !IsBranch(pinned[i])
    ensures Distinct(Names(pinned + kept)) <==> Distinct(Names(kept))
  {
    hide Plain;
    hide Heads;
    var all := Names(pinned + kept);
    assert all == Names(pinned) + Names(kept);
    forall i, j | 0 <= i < |pinned| && 0 <= j < |kept| ensures pinned[i].name != kept[j].name {
      assert IsBranch(kept[j]) && !IsBranch(pinned[i]);
    }
    if Distinct(all) {
      forall i, j | 0 <= i < j < |kept| ensures kept[i].name != kept[j].name {
        assert all[|pinned| + i] != all[|pinned| + j];
      }
    }
  }

  /** A file that packs one branch twice is rewritten with both, so its names do not strictly increase. */
  lemma PackedTwiceIsNotSorted(clone: Clone, refs: seq<Ref>, text: ByteString)
    requires text == FileHeader() + LineText(ZeroBranch([97])) + LineText(ZeroBranch([97]))
    ensures KeptBranches(Some(text)) == [ZeroBranch([97]), ZeroBranch([97])]
    ensures !StrictlySorted(Names(Lines(clone, refs, Some(text))))
  {
    hide *;
    NoReturn();
    var l := ZeroBranch([97]);
    PlainBranch([97]);
    TextOfTwo(l, l);
    Assoc(FileHeader(), LineText(l), LineText(l));
    ReadsBranchesBack([l, l]);
    var pinned, kept := Pinned(clone, refs), [l, l];
    WrittenIs(clone, refs, Some(text));
    SortedNames(pinned + kept);
    TwiceNotDistinct(pinned, l);
  }

  lemma NoReturn()
    ensures LF !in [97] && Stripped(ZeroBranch([97])) == ZeroBranch([97])
  {
    var name := Heads() + [97];
    assert name[|name| - 1] == 97;
  }

  lemma TwiceNotDistinct(pinned: seq<Line>, l: Line)
    ensures !Distinct(Names(pinned + [l, l]))
  {
    var names, n := Names(pinned + [l, l]), |pinned|;
    assert names[n] == names[n + 1] == l.name;
  }

  /** A file written once stays sorted however often it is written over. */
  lemma RewrittenStaysSorted(clone: Clone, refs: seq<Ref>, packed: seq<Line>)
    requires DistinctRefs(refs) && CleanNames(refs) && StrictlySorted(Names(packed))
    requires forall i :: 0 <= i < |packed| ==> Plain(packed[i]) && Settled(packed[i])
    ensures StrictlySorted(Names(Lines(clone, refs, Some(FileHeader() + Text(packed)))))
  {
    hide *;
    ReadsBranchesBack(packed);
    SortedExactly(clone, refs, Some(FileHeader() + Text(packed)));
    BranchesStaySorted(packed);
    StrictIsDistinct(Names(BranchesOf(packed)));
  }

  lemma StrictIsDistinct(names: seq<ByteString>)
    requires StrictlySorted(names)
    ensures Distinct(names)
  {
    forall i, j | 0 <= i < j < |names| ensures names[i] != names[j] {
      LessIrreflexive(names[i]);
    }
  }

  lemma {:induction false} BranchesStaySorted(lines: seq<Line>)
    requires StrictlySorted(Names(lines)) && forall i :: 0 <= i < |lines| ==> Settled(lines[i])
    ensures StrictlySorted(Names(BranchesOf(lines)))
    ensures forall l <- BranchesOf(lines) :: l in lines
  {
    hide Stripped;
    hide IsBranch;
    if |lines| > 0 {
      var rest := lines[1..];
      assert forall i :: 0 <= i < |rest| ==> rest[i] == lines[i + 1];
      forall i, j | 0 <= i < j < |rest| ensures Less(rest[i].name, rest[j].name) {
        assert Less(Names(lines)[i + 1], Names(lines)[j + 1]);
      }
      BranchesStaySorted(rest);
      assert Stripped(lines[0]) == lines[0];
      var below := BranchesOf(rest);
      forall i | 0 <= i < |below| ensures Less(lines[0].name, below[i].name) {
        assert below[i] in rest;
        var k :| 0 <= k < |rest| && rest[k] == below[i];
        assert Less(Names(lines)[0], Names(lines)[k + 1]);
      }
    }
  }
}
