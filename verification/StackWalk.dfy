/** The explicit-stack walk over a commit's paths: each tree's files first, then its subtrees. */
module StackWalk {
  import opened Wrappers
  import opened Bytes
  import opened Trees
  import opened TreeWalk

  datatype Visit = Visit(path: ByteString, mode: U32)

  datatype Frame = Frame(tree: Tree, path: ByteString)

  /** The files directly in a directory. */
  function Shallow(es: seq<TreeEntry>, path: ByteString): seq<Visit> {
    if |es| == 0 then []
    else (if es[0].Sub? then [] else [Visit(Join(path, es[0].name), es[0].leafMode)]) + Shallow(es[1..], path)
  }

  /** The subdirectories of a directory, in tree order. */
  function Subtrees(es: seq<TreeEntry>, path: ByteString): seq<Frame> {
    if |es| == 0 then []
    else (if es[0].Sub? then [Frame(es[0].tree, Join(path, es[0].name))] else []) + Subtrees(es[1..], path)
  }

  /** The order of the walk: a directory's files, then each subdirectory whole. */
  function Visits(t: Tree, path: ByteString): seq<Visit>
    decreases t, 1
  {
    Shallow(t.entries, path) + DeepVisits(t.entries, path)
  }

  function DeepVisits(es: seq<TreeEntry>, path: ByteString): seq<Visit>
    decreases es, 0
  {
    if |es| == 0 then []
    else (if es[0].Sub? then Visits(es[0].tree, Join(path, es[0].name)) else []) + DeepVisits(es[1..], path)
  }

  function Size(t: Tree): nat
    decreases t, 1
  {
    1 + SizeOf(t.entries)
  }

  function SizeOf(es: seq<TreeEntry>): nat
    decreases es, 0
  {
    if |es| == 0 then 0 else (if es[0].Sub? then Size(es[0].tree) else 0) + SizeOf(es[1..])
  }

  /** What popping a stack to the end visits; the top is the last frame. */
  function Drain(stack: seq<Frame>): seq<Visit> {
    if |stack| == 0 then []
    else
      var top := stack[|stack| - 1];
      Visits(top.tree, top.path) + Drain(stack[..|stack| - 1])
  }

  function Weight(stack: seq<Frame>): nat {
    if |stack| == 0 then 0 else Size(stack[|stack| - 1].tree) + Weight(stack[..|stack| - 1])
  }

  lemma {:induction false} ShallowAppend(es: seq<TreeEntry>, e: TreeEntry, path: ByteString)
    ensures Shallow(es + [e], path) == Shallow(es, path) + if e.Sub? then [] else [Visit(Join(path, e.name), e.leafMode)]
    ensures Subtrees(es + [e], path) == Subtrees(es, path) + if e.Sub? then [Frame(e.tree, Join(path, e.name))] else []
  {
    if |es| == 0 {
      assert es + [e] == [e] && [e][1..] == [];
    } else {
      assert (es + [e])[1..] == es[1..] + [e];
      ShallowAppend(es[1..], e, path);
    }
  }

  lemma PushFrame(stack: seq<Frame>, frame: Frame)
    ensures Drain(stack + [frame]) == Visits(frame.tree, frame.path) + Drain(stack)
    ensures Weight(stack + [frame]) == Size(frame.tree) + Weight(stack)
  {
    hide Visits;
    hide Size;
    assert (stack + [frame])[..|stack|] == stack;
  }

  lemma FirstEntry(es: seq<TreeEntry>, path: ByteString)
    requires |es| > 0
    ensures es[0].Sub? ==>
              var frame := Frame(es[0].tree, Join(path, es[0].name));
              && Reverse(Subtrees(es, path)) == Reverse(Subtrees(es[1..], path)) + [frame]
              && DeepVisits(es, path) == Visits(frame.tree, frame.path) + DeepVisits(es[1..], path)
              && Shallow(es, path) == Shallow(es[1..], path)
              && SizeOf(es) == Size(frame.tree) + SizeOf(es[1..])
    ensures es[0].Leaf? ==>
              && Subtrees(es, path) == Subtrees(es[1..], path)
              && DeepVisits(es, path) == DeepVisits(es[1..], path)
              && Shallow(es, path) == [Visit(Join(path, es[0].name), es[0].leafMode)] + Shallow(es[1..], path)
              && SizeOf(es) == SizeOf(es[1..])
  {
    hide Visits;
    hide Size;
    hide Join;
    if es[0].Sub? {
      assert Subtrees(es, path)[1..] == Subtrees(es[1..], path);
    }
  }

  /** Pushing a directory's children reversed makes the stack pop them in tree order. */
  lemma {:induction false} DrainChildren(stack: seq<Frame>, es: seq<TreeEntry>, path: ByteString)
    ensures Drain(stack + Reverse(Subtrees(es, path))) == DeepVisits(es, path) + Drain(stack)
    ensures Weight(stack + Reverse(Subtrees(es, path))) == SizeOf(es) + Weight(stack)
  {
    if |es| == 0 {
      assert stack + [] == stack;
    } else {
      FirstEntry(es, path);
      DrainChildren(stack, es[1..], path);
      hide *;
      var rest := Reverse(Subtrees(es[1..], path));
      if es[0].Sub? {
        var frame := Frame(es[0].tree, Join(path, es[0].name));
        PushFrame(stack + rest, frame);
        Assoc(stack, rest, [frame]);
        Assoc(Visits(frame.tree, frame.path), DeepVisits(es[1..], path), Drain(stack));
      }
    }
  }

  /** One directory: its files are visited, its subdirectories returned. */
  method VisitEntries(tree: Tree, prefix: ByteString, visited: Vector<Visit>) returns (children: seq<Frame>)
    modifies visited
    ensures visited.items == old(visited.items) + Shallow(tree.entries, prefix)
    ensures children == Subtrees(tree.entries, prefix)
  {
    var es := tree.entries;
    children := [];
    for i := 0 to |es|
      invariant visited.items == old(visited.items) + Shallow(es[..i], prefix)
      invariant children == Subtrees(es[..i], prefix)
    {
      var path := Join(prefix, es[i].name);
      assert es[..i + 1] == es[..i] + [es[i]];
      ShallowAppend(es[..i], es[i], prefix);
      if es[i].Sub? {
        children := children + [Frame(es[i].tree, path)];
      } else {
        visited.items := visited.items + [Visit(path, es[i].leafMode)];
      }
    }
    assert es[..|es|] == es;
  }

  function StartTree(t: Tree, root: ByteString): Result<Tree> {
    if |root| == 0 then Ok(t)
    else
      match EntryAt(t, root)
      case None => Err(NoSuchDirectory)
      case Some(e) => if e.Sub? then Ok(e.tree) else Err(NotADirectory)
  }

  method FindStart(t: Tree, root: ByteString) returns (r: Result<Tree>)
    ensures r == StartTree(t, root)
  {
    if |root| == 0 {
      return Ok(t);
    }
    var parent := WalkToParent(t, root);
    if parent.None? {
      return Err(NoSuchDirectory);
    }
    var entry := Find(parent.value.0.entries, parent.value.1);
    if entry.None? {
      return Err(NoSuchDirectory);
    }
    if !entry.value.Sub? {
      return Err(NotADirectory);
    }
    r := Ok(entry.value.tree);
  }

  method WalkPaths(t: Tree, root: ByteString) returns (r: Result<seq<Visit>>)
    ensures StartTree(t, root).Err? ==> r == Err(StartTree(t, root).error)
    ensures StartTree(t, root).Ok? ==> r == Ok(Visits(StartTree(t, root).value, root))
  {
    hide *;
    var start := FindStart(t, root);
    if start.Err? {
      return Err(start.error);
    }
    var visited := new Vector<Visit>();
    var stack := [Frame(start.value, root)];
    SingleFrame(stack[0]);
    while |stack| > 0
      invariant visited.items + Drain(stack) == Visits(start.value, root)
      decreases Weight(stack)
    {
      var top, rest := stack[|stack| - 1], stack[..|stack| - 1];
      PopFrame(stack);
      ghost var before := visited.items;
      var children := VisitEntries(top.tree, top.path, visited);
      DrainChildren(rest, top.tree.entries, top.path);
      ghost var shallow, deep := Shallow(top.tree.entries, top.path), DeepVisits(top.tree.entries, top.path);
      Assoc(shallow, deep, Drain(rest));
      Assoc(before, shallow, deep + Drain(rest));
      stack := rest + Reverse(children);
    }
    EmptyDrain(stack, visited.items);
    r := Ok(visited.items);
  }

  lemma SingleFrame(frame: Frame)
    ensures [] + Drain([frame]) == Visits(frame.tree, frame.path)
  {
    hide Visits;
    assert [frame][..0] == [];
  }

  lemma EmptyDrain(stack: seq<Frame>, visited: seq<Visit>)
    requires |stack| == 0
    ensures visited + Drain(stack) == visited
  {
  }

  lemma PopFrame(stack: seq<Frame>)
    requires |stack| > 0
    ensures var top, rest := stack[|stack| - 1], stack[..|stack| - 1];
            && Drain(stack) == Shallow(top.tree.entries, top.path) + DeepVisits(top.tree.entries, top.path) + Drain(rest)
            && Weight(stack) == 1 + SizeOf(top.tree.entries) + Weight(rest)
  {
    hide Shallow;
    hide DeepVisits;
    hide SizeOf;
  }

  // ---------------------------------------------------------------------------
  // Same files as the descent
  // ---------------------------------------------------------------------------

  function VisitsOf(files: seq<File>): (r: seq<Visit>)
    ensures |r| == |files|
  {
    seq(|files|, i requires 0 <= i < |files| => Visit(files[i].path, files[i].mode))
  }

  lemma VisitsJoin(a: seq<File>, b: seq<File>)
    ensures VisitsOf(a + b) == VisitsOf(a) + VisitsOf(b)
  {
  }

  /** What one entry adds to the descent and to the stack walk. */
  lemma EntryParts(es: seq<TreeEntry>, path: ByteString)
    requires |es| > 0
    ensures var e := es[0];
            && VisitsOf(FilesOf(es, path)) == VisitsOf(FilesAt(e, path)) + VisitsOf(FilesOf(es[1..], path))
            && (e.Sub? ==>
                  var inner := Join(path, e.name);
                  && FilesAt(e, path) == FilesOf(e.tree.entries, inner)
                  && Visits(e.tree, inner) == Shallow(e.tree.entries, inner) + DeepVisits(e.tree.entries, inner))
            && (e.Leaf? ==> VisitsOf(FilesAt(e, path)) == [Visit(Join(path, e.name), e.leafMode)])
  {
    AtEntry(es[0], path);
    VisitsJoin(FilesAt(es[0], path), FilesOf(es[1..], path));
    hide VisitsOf;
    hide DeepVisits;
    hide Shallow;
    hide Join;
    if es[0].Leaf? {
      OneVisit(File(Join(path, es[0].name), es[0].leafMode, es[0].leafOid));
    }
  }

  lemma OneVisit(f: File)
    ensures VisitsOf([f]) == [Visit(f.path, f.mode)]
  {
  }

  lemma {:induction false} SameFiles(es: seq<TreeEntry>, path: ByteString)
    ensures multiset(Shallow(es, path)) + multiset(DeepVisits(es, path)) == multiset(VisitsOf(FilesOf(es, path)))
    decreases es
  {
    if |es| > 0 {
      hide *;
      FirstEntry(es, path);
      EntryParts(es, path);
      SameFiles(es[1..], path);
      if es[0].Sub? {
        SameFiles(es[0].tree.entries, Join(path, es[0].name));
      }
    }
  }

  /**
   * The stack walk visits exactly the descent's paths and modes, in another order;
   * no path is visited twice.
   */
  lemma WalksAgree(t: Tree, path: ByteString)
    requires GitTree(t)
    ensures multiset(Visits(t, path)) == multiset(VisitsOf(Files(t, path)))
    ensures forall v <- Visits(t, path) :: multiset(Visits(t, path))[v] == 1
  {
    SameFiles(t.entries, path);
    DescentIsSorted(t.entries, path);
    var files, visits := Files(t, path), VisitsOf(Files(t, path));
    assert forall i :: 0 <= i < |visits| ==> visits[i].path == FilePaths(files)[i];
    hide *;
    forall v <- Visits(t, path) ensures multiset(visits)[v] == 1 {
      assert v in multiset(visits);
      var i :| 0 <= i < |visits| && visits[i] == v;
      IncreasingPaths(files, visits);
      VisitedOnce(visits, i);
    }
  }

  lemma IncreasingPaths(files: seq<File>, visits: seq<Visit>)
    requires StrictlySorted(FilePaths(files)) && |visits| == |files|
    requires forall i :: 0 <= i < |visits| ==> visits[i].path == FilePaths(files)[i]
    ensures forall j, k :: 0 <= j < k < |visits| ==> Less(visits[j].path, visits[k].path)
  {
    hide Less;
    hide FilePaths;
  }

  lemma VisitedOnce(visits: seq<Visit>, i: nat)
    requires i < |visits| && forall j, k :: 0 <= j < k < |visits| ==> Less(visits[j].path, visits[k].path)
    ensures multiset(visits)[visits[i]] == 1
  {
    var v, before, after := visits[i], visits[..i], visits[i + 1..];
    assert visits == before + [v] + after;
    LessIrreflexive(v.path);
    assert v !in before && v !in after;
    assert multiset(before)[v] == 0 && multiset(after)[v] == 0;
  }
}
