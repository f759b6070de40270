/** Paths as lists of components, and directories as prefixes of paths. */
module Components {
  import opened Bytes

  type Name = ByteString

  predicate SlashFree(names: seq<Name>) {
    forall i :: 0 <= i < |names| ==> SLASH !in names[i]
  }

  /** `split('/')`. */
  function Split(path: ByteString): (r: seq<Name>)
    ensures |r| > 0 && SlashFree(r)
    decreases |path|
  {
    match Position(path, SLASH)
    case None => [path]
    case Some(k) => [path[..k]] + Split(path[k + 1..])
  }

  /** The components of the directory a path is in. */
  function DirOf(path: ByteString): (r: seq<Name>)
    ensures SlashFree(r) && |r| == |Split(path)| - 1
  {
    Split(path)[..|Split(path)| - 1]
  }

  function FileOf(path: ByteString): Name {
    Split(path)[|Split(path)| - 1]
  }

  /** The byte prefix every path under a directory starts with. */
  function Flat(dir: seq<Name>): ByteString {
    if |dir| == 0 then [] else dir[0] + [SLASH] + Flat(dir[1..])
  }

  /** A path with a first component, taken apart. */
  lemma FirstComponent(path: ByteString)
    requires |DirOf(path)| > 0
    ensures var name, rest := DirOf(path)[0], path[|DirOf(path)[0]| + 1..];
            && |name| < |path| && path == name + [SLASH] + rest
            && DirOf(path) == [name] + DirOf(rest) && FileOf(path) == FileOf(rest)
  {
    var k := Position(path, SLASH).value;
    assert path[k] == SLASH;
    assert DirOf(path) == [path[..k]] + DirOf(path[k + 1..]);
  }

  lemma {:induction false} FlatSplit(path: ByteString)
    ensures Flat(DirOf(path)) + FileOf(path) == path
    decreases |path|
  {
    if |DirOf(path)| > 0 {
      FirstComponent(path);
      hide Split;
      hide DirOf;
      hide FileOf;
      var name, rest := DirOf(path)[0], path[|DirOf(path)[0]| + 1..];
      FlatSplit(rest);
      assert DirOf(path)[1..] == DirOf(rest);
      assert name + [SLASH] + Flat(DirOf(rest)) + FileOf(rest) == name + [SLASH] + (Flat(DirOf(rest)) + FileOf(rest));
    } else {
      assert Position(path, SLASH).None?;
    }
  }

  lemma SplitStep(name: Name, rest: ByteString)
    requires SLASH !in name
    ensures Split(name + [SLASH] + rest) == [name] + Split(rest)
    ensures DirOf(name + [SLASH] + rest) == [name] + DirOf(rest)
    ensures FileOf(name + [SLASH] + rest) == FileOf(rest)
  {
    var path := name + [SLASH] + rest;
    assert path[|name|] == SLASH && path[..|name|] == name;
    PositionUnique(path, SLASH, |name|);
    assert path[|name| + 1..] == rest;
  }

  /** Splitting puts a directory and a file name apart again. */
  lemma {:induction false} SplitFlat(dir: seq<Name>, file: Name)
    requires SlashFree(dir) && SLASH !in file
    ensures DirOf(Flat(dir) + file) == dir && FileOf(Flat(dir) + file) == file
    decreases |dir|
  {
    if |dir| == 0 {
      assert Flat(dir) + file == file;
    } else {
      assert Flat(dir) + file == dir[0] + [SLASH] + (Flat(dir[1..]) + file);
      SplitStep(dir[0], Flat(dir[1..]) + file);
      SplitFlat(dir[1..], file);
      assert dir == [dir[0]] + dir[1..];
    }
  }

  lemma {:induction false} UnderHasPrefix(dir: seq<Name>, path: ByteString)
    requires dir <= DirOf(path)
    ensures Flat(dir) <= path
    decreases |dir|
  {
    if |dir| > 0 {
      FirstComponent(path);
      hide Split;
      hide DirOf;
      var rest := path[|dir[0]| + 1..];
      assert dir[1..] <= DirOf(rest);
      UnderHasPrefix(dir[1..], rest);
    }
  }

  lemma {:induction false} PrefixIsUnder(dir: seq<Name>, path: ByteString)
    requires SlashFree(dir) && Flat(dir) <= path
    ensures dir <= DirOf(path)
    decreases |dir|
  {
    if |dir| > 0 {
      var head := dir[0] + [SLASH];
      var rest := path[|head|..];
      assert Flat(dir) == head + Flat(dir[1..]);
      assert path == head + rest && Flat(dir[1..]) <= rest;
      SplitStep(dir[0], rest);
      PrefixIsUnder(dir[1..], rest);
      hide Split;
      hide DirOf;
      assert dir == [dir[0]] + dir[1..];
    }
  }

  /** A directory contains a path exactly when its flat form is a byte prefix of it. */
  lemma UnderIsPrefix(dir: seq<Name>, path: ByteString)
    requires SlashFree(dir)
    ensures dir <= DirOf(path) <==> Flat(dir) <= path
  {
    if dir <= DirOf(path) { UnderHasPrefix(dir, path); }
    if Flat(dir) <= path { PrefixIsUnder(dir, path); }
  }

  /** In sorted paths, what lies between two paths of a directory is in it as well. */
  lemma DirectoryContiguous(paths: seq<ByteString>, dir: seq<Name>, i: nat, j: nat, k: nat)
    requires StrictlySorted(paths) && SlashFree(dir) && i < j < k < |paths|
    requires dir <= DirOf(paths[i]) && dir <= DirOf(paths[k])
    ensures dir <= DirOf(paths[j])
  {
    UnderIsPrefix(dir, paths[i]);
    UnderIsPrefix(dir, paths[j]);
    UnderIsPrefix(dir, paths[k]);
    PrefixContiguous(Flat(dir), paths[i], paths[j], paths[k]);
  }
}
