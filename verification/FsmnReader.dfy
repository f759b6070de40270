/** Reading an fsmonitor body back: version, token, one dirty bit per entry (gitformat-index(5)). */
module FsmnReader {
  import opened Wrappers
  import opened Bytes
  import opened WorkspaceCaches
  import opened UntrReader
  import Ewah

  datatype Fsmn = Fsmn(token: ByteString, dirty: seq<bool>)

  /** The size field and a bitmap of exactly that size, to the end. */
  function ReadDirty(s: ByteString): Option<seq<bool>> {
    if |s| < 4 || |s| != 4 + FromBE32(s[..4]) then None
    else
      match Ewah.Parse(s[4..])
      case None => None
      case Some(bitmap) =>
        match ReadBits(s[4..], bitmap.bits)
        case None => None
        case Some(bits) => if bits.used != |s| - 4 then None else Some(bits.value)
  }

  function ReadFsmn(s: ByteString): (r: Option<Fsmn>)
    ensures r.Some? ==> NUL !in r.value.token
  {
    hide ReadDirty;
    if |s| < 4 || FromBE32(s[..4]) != 2 then None
    else
      match Position(s[4..], NUL)
      case None => None
      case Some(k) =>
        match ReadDirty(s[5 + k..])
        case None => None
        case Some(dirty) => Some(Fsmn(s[4..][..k], dirty))
  }

  lemma BitmapSize(dirty: ByteString, count: nat)
    requires count <= U32_MAX && Ewah.Encodes(dirty, count, Never())
    ensures |dirty| <= U32_MAX
  {
    hide Ewah.WordsFrom;
    hide Ewah.LastMarker;
    hide Ewah.HoldsBelow;
    hide BE32;
    var plain: seq<U64> :| Ewah.Holds(plain, count, Never())
                           && dirty == Ewah.Serialized(count, Ewah.Words(plain), Ewah.LastMarker(Ewah.Words(plain)));
    Ewah.WordsFromLength(plain, 0);
  }

  lemma SizedParts(dirty: ByteString)
    requires |dirty| <= U32_MAX
    ensures var s := BE32(Low32(|dirty|)) + dirty;
            |s| == 4 + |dirty| && FromBE32(s[..4]) == |dirty| && s[4..] == dirty
  {
    RoundTrip32(|dirty|);
    hide BE32;
    hide FromBE32;
    var s := BE32(Low32(|dirty|)) + dirty;
    assert s[..4] == BE32(|dirty|);
  }

  lemma ReadDirtyInverts(dirty: ByteString, count: nat)
    requires count <= U32_MAX && Ewah.Encodes(dirty, count, Never())
    ensures ReadDirty(BE32(Low32(|dirty|)) + dirty) == Some(BitsFrom(count, Never()))
  {
    hide Ewah.Parse;
    hide Ewah.Encodes;
    hide Ewah.Holds;
    hide BitsFrom;
    hide ReadBits;
    hide BE32;
    hide FromBE32;
    hide Low32;
    BitmapSize(dirty, count);
    SizedParts(dirty);
    assert dirty + [] == dirty;
    Ewah.BitmapRoundTrip(dirty, count, Never(), []);
    ReadBitsInverts(dirty, count, Never(), []);
  }

  lemma FsmnParts(token: ByteString, dirty: ByteString)
    requires NUL !in token
    ensures var body := FsmnBody(token, dirty);
            && |body| >= 5 + |token| && FromBE32(body[..4]) == 2 && Position(body[4..], NUL) == Some(|token|)
            && body[4..][..|token|] == token && body[5 + |token|..] == BE32(Low32(|dirty|)) + dirty
  {
    RoundTrip32(2);
    hide BE32;
    hide FromBE32;
    hide Low32;
    hide Position;
    var body, size := FsmnBody(token, dirty), BE32(Low32(|dirty|));
    assert body[..4] == BE32(2);
    assert body[4..] == token + [NUL] + (size + dirty);
    var rest := token + [NUL] + (size + dirty);
    assert rest[..|token|] == token && rest[|token|] == NUL && rest[|token| + 1..] == size + dirty;
    PositionUnique(rest, NUL, |token|);
    assert body[5 + |token|..] == body[4..][|token| + 1..];
  }

  /**
   * A reader finds version 2, the token and one clear bit for each entry, exactly when the token has no NUL: the token
   * is read up to its first.
   */
  lemma FsmnRoundTrip(body: ByteString, token: ByteString, count: nat)
    requires count <= U32_MAX && IsFsmn(body, token, count)
    ensures NUL !in token <==>
            && ReadFsmn(body).Some? && ReadFsmn(body).value.token == token
            && |ReadFsmn(body).value.dirty| == count && forall k :: 0 <= k < count ==> !ReadFsmn(body).value.dirty[k]
  {
    hide FsmnBody;
    hide Ewah.Encodes;
    hide ReadDirty;
    hide BitsFrom;
    hide Low32;
    hide BE32;
    hide FromBE32;
    hide Position;
    var dirty :| Ewah.Encodes(dirty, count, Never()) && body == FsmnBody(token, dirty);
    if NUL !in token {
      FsmnParts(token, dirty);
      ReadDirtyInverts(dirty, count);
    }
  }
}
