/** Rewriting `packed-refs`: the pinned refs under their workspace names, and the branches already packed. */
module PackedRefs {
  import opened Wrappers
  import opened Bytes

  const LF: Byte := 10
  const CR: Byte := 13
  const SP: Byte := 32
  const CARET: Byte := 94

  function Tags(): (r: ByteString)
    ensures |r| == 10 && r[5] == 116
  {
    Ascii("refs/tags/")
  }

  function Heads(): (r: ByteString)
    ensures |r| == 11 && r[5] == 104
  {
    Ascii("refs/heads/")
  }

  function Remotes(): (r: ByteString)
    ensures |r| == 13 && r[5] == 114
  {
    Ascii("refs/remotes/")
  }

  function LocalRemote(): ByteString {
    Ascii("local")
  }

  function HeadSuffix(): ByteString {
    Ascii("/HEAD")
  }

  function OriginHeads(): (r: ByteString)
    ensures |r| == 20 && Remotes() <= r && r[|r| - 1] == SLASH
  {
    Remotes() + Ascii("origin/")
  }

  /** Where the clone's own branches go. */
  function LocalHeads(): (r: ByteString)
    ensures Remotes() <= r
  {
    Remotes() + LocalRemote() + [SLASH]
  }

  predicate EndsWith(s: ByteString, suffix: ByteString) {
    |s| >= |suffix| && s[|s| - |suffix|..] == suffix
  }

  // ---------------------------------------------------------------------------
  // Names in the workspace
  // ---------------------------------------------------------------------------

  /** The clone's ref under its workspace name; nothing for a ref the workspace does not carry. */
  function WorkspaceRef(localAdded: bool, name: ByteString): Option<ByteString> {
    if Tags() <= name then Some(name)
    else if Heads() <= name then
      if localAdded then Some(LocalHeads() + name[|Heads()|..]) else None
    else if Remotes() <= name then
      var shadowed := localAdded && LocalHeads() <= name;
      if !EndsWith(name, HeadSuffix()) && !shadowed then Some(name) else None
    else None
  }

  /** A ref's name when there is no clone: tags and branches only. */
  function OriginRef(name: ByteString): Option<ByteString> {
    if Tags() <= name then Some(name)
    else if Heads() <= name then Some(OriginHeads() + name[|Heads()|..])
    else None
  }

  datatype Clone = NoClone | LocalClone(localAdded: bool)

  function MappedName(clone: Clone, name: ByteString): Option<ByteString> {
    match clone
    case NoClone => OriginRef(name)
    case LocalClone(added) => WorkspaceRef(added, name)
  }

  lemma PrefixesDiffer(s: ByteString)
    ensures !(Tags() <= s && Heads() <= s) && !(Tags() <= s && Remotes() <= s) && !(Heads() <= s && Remotes() <= s)
  {
    hide *;
    var t, h, r := Tags(), Heads(), Remotes();
    assert t <= s ==> s[5] == t[5];
    assert h <= s ==> s[5] == h[5];
    assert r <= s ==> s[5] == r[5];
  }

  /** Where a mapped name can lie: never under the branches. */
  lemma MappedNameLies(clone: Clone, name: ByteString)
    ensures var m := MappedName(clone, name);
            && (m.Some? && Tags() <= name ==> m.value == name)
            && (m.Some? && !(Tags() <= name) ==> Remotes() <= m.value)
            && (m.Some? && Heads() <= name ==>
                  m.value == (if clone.NoClone? then OriginHeads() else LocalHeads()) + name[|Heads()|..])
            && (m.Some? && !(Tags() <= name) && !(Heads() <= name) ==> m.value == name && !(LocalHeads() <= name && clone.localAdded))
            && (m.Some? && Heads() <= name && clone.LocalClone? ==> clone.localAdded)
            && (m.Some? && !(Tags() <= name) && !(Heads() <= name) ==> clone.LocalClone?)
            && (m.Some? ==> !(Heads() <= m.value))
  {
    PrefixesDiffer(name);
    hide Tags;
    hide Heads;
    hide Remotes;
    hide LocalHeads;
    hide OriginHeads;
    hide EndsWith;
    var m := MappedName(clone, name);
    if m.Some? {
      PrefixesDiffer(m.value);
    }
  }

  /** Different refs never get one workspace name. */
  lemma MappedNameInjective(clone: Clone, a: ByteString, b: ByteString)
    requires MappedName(clone, a).Some? && MappedName(clone, a) == MappedName(clone, b)
    ensures a == b
  {
    hide *;
    MappedNameLies(clone, a);
    MappedNameLies(clone, b);
    PrefixesDiffer(MappedName(clone, a).value);
    SameTail(if clone.NoClone? then OriginHeads() else LocalHeads(), Heads(), a, b);
  }

  lemma SameTail(base: ByteString, prefix: ByteString, a: ByteString, b: ByteString)
    ensures prefix <= a && prefix <= b && base + a[|prefix|..] == base + b[|prefix|..] ==> a == b
    ensures prefix <= a ==> base <= base + a[|prefix|..]
    ensures prefix <= b ==> base <= base + b[|prefix|..]
  {
    if prefix <= a && prefix <= b && base + a[|prefix|..] == base + b[|prefix|..] {
      assert a[|prefix|..] == (base + a[|prefix|..])[|base|..] == (base + b[|prefix|..])[|base|..] == b[|prefix|..];
      assert a == prefix + a[|prefix|..] && b == prefix + b[|prefix|..];
    }
  }

  // ---------------------------------------------------------------------------
  // Which refs are carried
  // ---------------------------------------------------------------------------

  /** A tag is carried under its own name, whatever the clone. */
  lemma TagsCarried(clone: Clone, name: ByteString)
    requires Ascii("refs/tags/") <= name
    ensures MappedName(clone, name) == Some(name)
  {
  }

  /** A branch goes to the remote `origin`, or to `local` in a clone with that remote; a clone without it leaves branches out. */
  lemma BranchesCarried(clone: Clone, branch: ByteString)
    ensures var name := Ascii("refs/heads/") + branch;
            MappedName(clone, name) ==
            if clone.NoClone? then Some(Ascii("refs/remotes/origin/") + branch)
            else if clone.localAdded then Some(Ascii("refs/remotes/local/") + branch)
            else None
  {
    var name := Heads() + branch;
    PrefixesDiffer(name);
    assert name[|Heads()|..] == branch;
    assert Remotes() + Ascii("origin/") == Ascii("refs/remotes/origin/");
    assert Remotes() + LocalRemote() + [SLASH] == Ascii("refs/remotes/local/");
  }

  /** A remote-tracking ref is carried by a clone alone, unless it is a remote's `HEAD` or one that `local` would shadow. */
  lemma TrackingRefsCarried(clone: Clone, name: ByteString)
    requires Ascii("refs/remotes/") <= name
    ensures MappedName(clone, name) ==
            if clone.LocalClone? && !EndsWith(name, Ascii("/HEAD")) && !(clone.localAdded && Ascii("refs/remotes/local/") <= name)
            then Some(name) else None
  {
    PrefixesDiffer(name);
    assert Remotes() + LocalRemote() + [SLASH] == Ascii("refs/remotes/local/");
  }

  /** Nothing else is carried. */
  lemma OthersLeftOut(clone: Clone, name: ByteString)
    requires !(Ascii("refs/tags/") <= name) && !(Ascii("refs/heads/") <= name) && !(Ascii("refs/remotes/") <= name)
    ensures MappedName(clone, name) == None
  {
  }

  lemma OriginHeadLeftOut(clone: Clone)
    ensures MappedName(clone, Ascii("refs/remotes/origin/HEAD")) == None
  {
    var name := Ascii("refs/remotes/origin/HEAD");
    assert name[|name| - 5..] == Ascii("/HEAD");
    assert name[..13] == Ascii("refs/remotes/");
    TrackingRefsCarried(clone, name);
  }
}
