/** Byte strings: lexicographic order, prefixes, searching and big-endian numbers. */
module Bytes {
  import opened Wrappers

  type Byte = b: int | 0 <= b < 256
  type ByteString = seq<Byte>

  const SLASH: Byte := 47
  const NUL: Byte := 0

  /** The bytes of an ASCII literal. */
  function Ascii(s: string): (r: ByteString)
    requires forall i :: 0 <= i < |s| ==> s[i] < 128 as char
    ensures |r| == |s|
  {
    seq(|s|, i requires 0 <= i < |s| => s[i] as int)
  }

  function Zeros(n: nat): (r: ByteString)
    ensures |r| == n
  {
    seq(n, _ => 0)
  }

  // ---------------------------------------------------------------------------
  // Lexicographic order, the order of `[u8]` in Rust
  // ---------------------------------------------------------------------------

  predicate Less(a: ByteString, b: ByteString)
  {
    |b| > 0 && (|a| == 0 || a[0] < b[0] || (a[0] == b[0] && Less(a[1..], b[1..])))
  }

  /** `a` and `b` agree on their first `k` bytes and `a` is the smaller at `k`. */
  predicate LessAt(a: ByteString, b: ByteString, k: nat)
  {
    k <= |a| && k < |b| && a[..k] == b[..k] && (k == |a| || a[k] < b[k])
  }

  lemma {:induction false} LessWitness(a: ByteString, b: ByteString) returns (k: nat)
    requires Less(a, b)
    ensures LessAt(a, b, k)
  {
    if |a| == 0 || a[0] < b[0] {
      k := 0;
    } else {
      var k' := LessWitness(a[1..], b[1..]);
      k := k' + 1;
      assert a[..k] == [a[0]] + a[1..][..k'];
      assert b[..k] == [b[0]] + b[1..][..k'];
    }
  }

  lemma {:induction false} LessFrom(a: ByteString, b: ByteString, k: nat)
    requires LessAt(a, b, k)
    ensures Less(a, b)
  {
    if k > 0 {
      assert a[0] == a[..k][0] == b[..k][0] == b[0];
      assert a[1..][..k - 1] == a[..k][1..];
      assert b[1..][..k - 1] == b[..k][1..];
      LessFrom(a[1..], b[1..], k - 1);
    }
  }

  lemma {:induction false} LessIrreflexive(a: ByteString)
    ensures !Less(a, a)
  {
    if Less(a, a) {
      var k := LessWitness(a, a);
    }
  }

  lemma {:induction false} LessTransitive(a: ByteString, b: ByteString, c: ByteString)
    requires Less(a, b) && Less(b, c)
    ensures Less(a, c)
  {
    var j := LessWitness(a, b);
    var k := LessWitness(b, c);
    var m := if j < k then j else k;
    assert a[..m] == a[..j][..m] == b[..j][..m] == b[..m];
    assert c[..m] == c[..k][..m] == b[..k][..m] == b[..m];
    if j < k {
      assert b[j] == b[..k][j] == c[..k][j] == c[j];
    } else if k < j {
      assert a[k] == a[..j][k] == b[..j][k] == b[k];
    }
    LessFrom(a, c, m);
  }

  lemma {:induction false} LessAsymmetric(a: ByteString, b: ByteString)
    requires Less(a, b)
    ensures !Less(b, a) && a != b
  {
    LessIrreflexive(a);
    if Less(b, a) {
      LessTransitive(a, b, a);
    }
  }

  lemma {:induction false} LessTotal(a: ByteString, b: ByteString)
    ensures Less(a, b) || a == b || Less(b, a)
  {
    if |a| > 0 && |b| > 0 && a[0] == b[0] {
      LessTotal(a[1..], b[1..]);
      assert a == [a[0]] + a[1..] && b == [b[0]] + b[1..];
    }
  }

  /** Comparison ignores a common prefix. */
  lemma {:induction false} LessCommonPrefix(p: ByteString, a: ByteString, b: ByteString)
    ensures Less(p + a, p + b) <==> Less(a, b)
  {
    if |p| == 0 {
      assert p + a == a && p + b == b;
    } else {
      assert (p + a)[1..] == p[1..] + a;
      assert (p + b)[1..] == p[1..] + b;
      LessCommonPrefix(p[1..], a, b);
    }
  }

  /** Two strings that differ at a position inside both compare as their extensions do. */
  lemma {:induction false} LessExtend(a: ByteString, b: ByteString, x: ByteString, y: ByteString)
    requires Less(a, b) && !(a <= b)
    ensures Less(a + x, b + y)
  {
    var k := LessWitness(a, b);
    assert (a + x)[..k] == a[..k] && (b + y)[..k] == b[..k];
    LessFrom(a + x, b + y, k);
  }

  lemma LessProperPrefix(a: ByteString, b: ByteString)
    requires a < b
    ensures Less(a, b)
  {
    LessFrom(a, b, |a|);
  }

  predicate StrictlySorted(s: seq<ByteString>)
  {
    forall i, j :: 0 <= i < j < |s| ==> Less(s[i], s[j])
  }

  /** Adjacent pairs in order make the whole list sorted. */
  lemma {:induction false} SortedFromAdjacent(s: seq<ByteString>, i: nat, j: nat)
    requires forall k :: 0 <= k < |s| - 1 ==> Less(s[k], s[k + 1])
    requires i < j < |s|
    ensures Less(s[i], s[j])
    decreases j
  {
    assert Less(s[j - 1], s[j - 1 + 1]);
    if i < j - 1 {
      SortedFromAdjacent(s, i, j - 1);
      LessTransitive(s[i], s[j - 1], s[j]);
    }
  }

  /** What lies between two strings with a common prefix has it too. */
  lemma {:induction false} PrefixContiguous(p: ByteString, a: ByteString, b: ByteString, c: ByteString)
    requires p <= a && p <= c
    requires Less(a, b) && Less(b, c)
    ensures p <= b
  {
    var j := LessWitness(a, b);
    var k := LessWitness(b, c);
    if j < |p| {
      assert false;
    }
    assert b[..|p|] == b[..j][..|p|] == a[..j][..|p|] == p;
  }

  /** A string below a prefix is below everything that has it. */
  lemma {:induction false} PrefixLowerBound(p: ByteString, a: ByteString, b: ByteString)
    requires p <= b
    ensures Less(a, p) ==> Less(a, b) && !(p <= a)
    ensures p <= a ==> !Less(a, p)
  {
    if Less(a, p) {
      var k := LessWitness(a, p);
      assert b[..k] == p[..k];
      LessFrom(a, b, k);
    }
  }

  // ---------------------------------------------------------------------------
  // Searching
  // ---------------------------------------------------------------------------

  /** The position of the first byte equal to `x`. */
  function Position(s: ByteString, x: Byte): (r: Option<nat>)
    ensures r.Some? ==> r.value < |s| && s[r.value] == x && x !in s[..r.value]
    ensures r.None? <==> x !in s
  {
    if |s| == 0 then None
    else if s[0] == x then Some(0)
    else
      match Position(s[1..], x)
      case Some(k) => assert s[..k + 1] == [s[0]] + s[1..][..k]; Some(k + 1)
      case None => assert s == [s[0]] + s[1..]; None
  }

  lemma PositionUnique(s: ByteString, x: Byte, k: nat)
    requires k < |s| && s[k] == x && x !in s[..k]
    ensures Position(s, x) == Some(k)
  {
    var r := Position(s, x);
    assert r.Some? by { assert s[k] in s; }
  }

  // ---------------------------------------------------------------------------
  // Big-endian numbers
  // ---------------------------------------------------------------------------

  const U32_MAX: int := 0xFFFF_FFFF
  const U64_MAX: int := 0xFFFF_FFFF_FFFF_FFFF
  const I64_MAX: int := 0x7FFF_FFFF_FFFF_FFFF

  type U16 = n: int | 0 <= n <= 0xFFFF
  type U32 = n: int | 0 <= n <= 0xFFFF_FFFF
  type U64 = n: int | 0 <= n <= 0xFFFF_FFFF_FFFF_FFFF

  /** A cast to `u32`: the low 32 bits. */
  function Low32(n: int): (r: U32)
    ensures 0 <= n <= U32_MAX ==> r == n
    decreases if n < 0 then 0x1_0000_0000 - n else n
  {
    if n < 0 then Low32(n + 0x1_0000_0000)
    else if n > U32_MAX then Low32(n - 0x1_0000_0000)
    else n
  }

  /** What is lost is a multiple of 2^32. */
  lemma {:induction false} LowBits(n: int)
    ensures (n - Low32(n)) % 0x1_0000_0000 == 0
    decreases if n < 0 then 0x1_0000_0000 - n else n
  {
    if n < 0 {
      LowBits(n + 0x1_0000_0000);
    } else if n > U32_MAX {
      LowBits(n - 0x1_0000_0000);
    }
  }

  function BE16(n: U16): (r: ByteString)
    ensures |r| == 2
  {
    [n / 256, n % 256]
  }

  function BE32(n: U32): (r: ByteString)
    ensures |r| == 4
  {
    [n / 0x100_0000, n / 0x1_0000 % 256, n / 0x100 % 256, n % 256]
  }

  function BE64(n: U64): (r: ByteString)
    ensures |r| == 8
  {
    BE32(n / 0x1_0000_0000) + BE32(n % 0x1_0000_0000)
  }

  function FromBE16(s: ByteString): (n: U16)
    requires |s| == 2
  {
    (s[0] as int) * 256 + s[1] as int
  }

  function FromBE32(s: ByteString): (n: U32)
    requires |s| == 4
  {
    (s[0] as int) * 0x100_0000 + (s[1] as int) * 0x1_0000 + (s[2] as int) * 0x100 + s[3] as int
  }

  function FromBE64(s: ByteString): (n: U64)
    requires |s| == 8
  {
    FromBE32(s[..4]) * 0x1_0000_0000 + FromBE32(s[4..])
  }

  /** The most significant byte comes first. */
  lemma BigEndian(n: U16, m: U32)
    ensures var s := BE16(n); s[0] as int * 0x100 + s[1] as int == n
    ensures var s := BE32(m);
            s[0] as int * 0x100_0000 + s[1] as int * 0x1_0000 + s[2] as int * 0x100 + s[3] as int == m
  {
    RoundTrip32(m);
  }

  lemma RoundTrip16(n: U16)
    ensures FromBE16(BE16(n)) == n
  {
  }

  lemma RoundTrip32(n: U32)
    ensures FromBE32(BE32(n)) == n
  {
    assert n == n / 256 * 256 + n % 256;
    assert n / 256 == n / 0x1_0000 * 256 + n / 256 % 256;
    assert n / 0x1_0000 == n / 0x100_0000 * 256 + n / 0x1_0000 % 256;
  }

  lemma RoundTrip64(n: U64)
    ensures FromBE64(BE64(n)) == n
  {
    RoundTrip32(n / 0x1_0000_0000);
    RoundTrip32(n % 0x1_0000_0000);
    assert BE64(n)[..4] == BE32(n / 0x1_0000_0000);
    assert BE64(n)[4..] == BE32(n % 0x1_0000_0000);
  }
}
