/**
 * EWAH bitmaps as Git stores them (the EWAH serialization appendix of
 * gitformat-bitmap(5)): a marker word stands for a run of equal
 * words, none or all of their bits set, and says how many words as they are come after it.
 */
module Ewah {
  import opened Wrappers
  import opened Bytes

  const MAX_RUN: nat := 0xFFFF_FFFF
  const MAX_LITERALS: nat := 0x7FFF_FFFF
  const ONES: U64 := 0xFFFF_FFFF_FFFF_FFFF

  // ---------------------------------------------------------------------------
  // Bits of a word
  // ---------------------------------------------------------------------------

  function Pow2(k: nat): (r: nat)
    ensures r > 0
  {
    if k == 0 then 1 else 2 * Pow2(k - 1)
  }

  predicate Bit(w: nat, k: nat) {
    if k == 0 then w % 2 == 1 else Bit(w / 2, k - 1)
  }

  /** Bitwise or. */
  function Or(a: nat, b: nat): nat
    decreases a + b
  {
    if a == 0 then b
    else if b == 0 then a
    else (if a % 2 == 1 || b % 2 == 1 then 1 else 0) + 2 * Or(a / 2, b / 2)
  }

  lemma {:induction false} ZeroHasNoBit(k: nat)
    ensures !Bit(0, k)
  {
    if k > 0 { ZeroHasNoBit(k - 1); }
  }

  lemma {:induction false} OrBit(a: nat, b: nat, k: nat)
    ensures Bit(Or(a, b), k) <==> Bit(a, k) || Bit(b, k)
    decreases k
  {
    ZeroHasNoBit(k);
    if a > 0 && b > 0 && k > 0 {
      assert Or(a, b) / 2 == Or(a / 2, b / 2);
      OrBit(a / 2, b / 2, k - 1);
    }
  }

  lemma {:induction false} Pow2Bit(j: nat, k: nat)
    ensures Bit(Pow2(j), k) <==> j == k
    decreases k
  {
    if j == 0 && k > 0 {
      ZeroHasNoBit(k - 1);
    } else if j > 0 && k > 0 {
      Pow2Bit(j - 1, k - 1);
    }
  }

  lemma {:induction false} OrBound(a: nat, b: nat, n: nat)
    requires a < Pow2(n) && b < Pow2(n)
    ensures Or(a, b) < Pow2(n)
    decreases n
  {
    if a > 0 && b > 0 {
      OrBound(a / 2, b / 2, n - 1);
    }
  }

  lemma {:induction false} Pow2Monotone(j: nat, k: nat)
    requires j < k
    ensures Pow2(j) < Pow2(k)
  {
    if j < k - 1 { Pow2Monotone(j, k - 1); }
  }

  /** Fields that do not overlap combine by addition. */
  lemma {:induction false} OrDisjoint(a: nat, c: nat, k: nat)
    requires a < Pow2(k)
    ensures Or(a, Pow2(k) * c) == a + Pow2(k) * c
    decreases k
  {
    if a > 0 && c > 0 {
      assert Pow2(k) * c == 2 * (Pow2(k - 1) * c);
      OrDisjoint(a / 2, c, k - 1);
    }
  }

  lemma {:induction false} OnesBit(n: nat, k: nat)
    ensures Bit(Pow2(n) - 1, k) <==> k < n
    decreases n
  {
    if n == 0 {
      ZeroHasNoBit(k);
    } else if k > 0 {
      assert (Pow2(n) - 1) / 2 == Pow2(n - 1) - 1;
      OnesBit(n - 1, k - 1);
    }
  }

  lemma Pow2Values()
    ensures Pow2(1) == 2 && Pow2(32) == 0x1_0000_0000 && Pow2(33) == 0x2_0000_0000 && Pow2(64) == ONES + 1
  {
    assert Pow2(8) == 0x100;
    assert Pow2(16) == 0x1_0000;
    assert Pow2(24) == 0x100_0000;
    assert Pow2(32) == 0x1_0000_0000;
    assert Pow2(40) == 0x100_0000_0000;
    assert Pow2(48) == 0x1_0000_0000_0000;
    assert Pow2(56) == 0x100_0000_0000_0000;
  }

  // ---------------------------------------------------------------------------
  // Marker words
  // ---------------------------------------------------------------------------

  function Fill(bit: nat): U64 {
    if bit == 1 then ONES else 0
  }

  /** The marker word: the run's bit, its length from bit 1, the literal count from bit 33. */
  function Marker(bit: nat, run: nat, literals: nat): nat {
    bit + run * 2 + literals * 0x2_0000_0000
  }

  function MarkerBit(w: nat): nat {
    w % 2
  }

  /** Bits 33 and up. */
  function MarkerLiterals(w: nat): nat {
    w / 0x2_0000_0000
  }

  /** Bits 1 to 32: what is above bit 0 without what is above bit 32. */
  function MarkerRun(w: nat): nat {
    w / 2 - MarkerLiterals(w) * 0x1_0000_0000
  }

  /** Run length and literal count keep to their 32 and 31 bits and read back. */
  lemma MarkerFields(bit: nat, run: nat, literals: nat)
    requires bit <= 1 && run <= MAX_RUN && literals <= MAX_LITERALS
    ensures var w := Marker(bit, run, literals);
            w <= U64_MAX && MarkerBit(w) == bit && MarkerRun(w) == run && MarkerLiterals(w) == literals
  {
    var w := Marker(bit, run, literals);
    assert 0 <= w - literals * 0x2_0000_0000 < 0x2_0000_0000;
    assert w / 2 == run + literals * 0x1_0000_0000;
  }

  /** The three fields never overlap, so combining them bitwise builds the marker. */
  lemma MarkerByOr(bit: nat, run: nat, literals: nat)
    requires bit <= 1 && run <= MAX_RUN && literals <= MAX_LITERALS
    ensures Or(Or(bit, run * 2), literals * 0x2_0000_0000) == Marker(bit, run, literals)
  {
    Pow2Values();
    OrDisjoint(bit, run, 1);
    OrDisjoint(bit + run * 2, literals, 33);
  }

  // ---------------------------------------------------------------------------
  // The encoder and the decoder as functions on words
  // ---------------------------------------------------------------------------

  /** How many words from `i` on equal `fill`, up to `max`. */
  function RunFrom(plain: seq<U64>, i: nat, fill: U64, max: nat): (n: nat)
    ensures n <= max && (i <= |plain| ==> i + n <= |plain|)
    ensures forall j :: i <= j < i + n && j < |plain| ==> plain[j] == fill
    decreases if i <= |plain| then |plain| - i else 0
  {
    if max > 0 && i < |plain| && plain[i] == fill then 1 + RunFrom(plain, i + 1, fill, max - 1) else 0
  }

  predicate Literal(w: U64) {
    w != 0 && w != ONES
  }

  function LiteralsFrom(plain: seq<U64>, i: nat, max: nat): (n: nat)
    ensures n <= max && (i <= |plain| ==> i + n <= |plain|)
    decreases if i <= |plain| then |plain| - i else 0
  {
    if max > 0 && i < |plain| && Literal(plain[i]) then 1 + LiteralsFrom(plain, i + 1, max - 1) else 0
  }

  function RunBit(w: U64): (r: nat)
    ensures r <= 1
  {
    if w == ONES then 1 else 0
  }

  datatype Chunk = Chunk(bit: nat, run: nat, literals: nat)

  /** What the marker for `plain[i..]` describes; it always covers at least one word. */
  function ChunkAt(plain: seq<U64>, i: nat): (c: Chunk)
    requires i < |plain|
    ensures c.bit <= 1 && c.run <= MAX_RUN && c.literals <= MAX_LITERALS
    ensures 0 < c.run + c.literals && i + c.run + c.literals <= |plain|
    ensures forall j :: i <= j < i + c.run ==> plain[j] == Fill(c.bit)
  {
    var bit := RunBit(plain[i]);
    var run := RunFrom(plain, i, Fill(bit), MAX_RUN);
    Chunk(bit, run, LiteralsFrom(plain, i + run, MAX_LITERALS))
  }

  /** The words the encoder emits for `plain[i..]`. */
  function WordsFrom(plain: seq<U64>, i: nat): seq<U64>
    requires i <= |plain|
    decreases |plain| - i
  {
    if i == |plain| then []
    else
      var c := ChunkAt(plain, i);
      MarkerFields(c.bit, c.run, c.literals);
      var start, next := i + c.run, i + c.run + c.literals;
      [Marker(c.bit, c.run, c.literals)] + plain[start..next] + WordsFrom(plain, next)
  }

  /** An empty bitmap still has one marker. */
  function Words(plain: seq<U64>): seq<U64> {
    if |plain| == 0 then [0] else WordsFrom(plain, 0)
  }

  function Repeat(w: U64, n: nat): (r: seq<U64>)
    ensures |r| == n && forall j :: 0 <= j < n ==> r[j] == w
  {
    seq(n, _ => w)
  }

  /** What a reader of the format expands a word stream into. */
  function Expand(words: seq<U64>): Option<seq<U64>> {
    if |words| == 0 then Some([])
    else
      var literals := MarkerLiterals(words[0]);
      if 1 + literals > |words| then None
      else
        match Expand(words[1 + literals..])
        case None => None
        case Some(rest) =>
          Some(Repeat(Fill(MarkerBit(words[0])), MarkerRun(words[0])) + words[1..1 + literals] + rest)
  }

  /** The index of the last marker a reader meets. */
  function LastMarker(words: seq<U64>): nat {
    if |words| == 0 then 0
    else
      var next := 1 + MarkerLiterals(words[0]);
      if next >= |words| then 0 else next + LastMarker(words[next..])
  }

  /** One marker and its literals, as a reader consumes them. */
  lemma ReadStep(w: U64, literals: seq<U64>, rest: seq<U64>)
    requires MarkerLiterals(w) == |literals|
    ensures var words := [w] + literals + rest;
            && Expand(words) == (match Expand(rest)
                                 case None => None
                                 case Some(r) => Some(Repeat(Fill(MarkerBit(w)), MarkerRun(w)) + literals + r))
            && LastMarker(words) == (if |rest| == 0 then 0 else 1 + |literals| + LastMarker(rest))
            && (Complete(words) <==> Complete(rest))
  {
    var words := [w] + literals + rest;
    assert words[1..1 + |literals|] == literals;
    assert words[1 + |literals|..] == rest;
  }

  lemma ExpandNothing()
    ensures Expand([]) == Some([])
  {
  }

  lemma Spliced<T>(s: seq<T>, i: nat, j: nat, k: nat)
    requires i <= j <= k <= |s|
    ensures s[i..] == s[i..j] + s[j..k] + s[k..]
  {
  }

  /** Expanding the encoder's words gives back exactly what it was handed. */
  lemma {:induction false} ExpandInverts(plain: seq<U64>, i: nat)
    requires i <= |plain|
    ensures Expand(WordsFrom(plain, i)) == Some(plain[i..])
    decreases |plain| - i
  {
    hide *;
    if i == |plain| {
      ExpandNothing();
      WordsEnd(plain);
      assert plain[i..] == [];
    } else {
      var c := ChunkAt(plain, i);
      var start, next := i + c.run, i + c.run + c.literals;
      WordsFromUnfolds(plain, i);
      MarkerFields(c.bit, c.run, c.literals);
      MarkerFits(c.bit, c.run, c.literals);
      ReadStep(Marker(c.bit, c.run, c.literals), plain[start..next], WordsFrom(plain, next));
      ExpandInverts(plain, next);
      ChunkSpliced(plain, i);
    }
  }

  lemma MarkerFits(bit: nat, run: nat, literals: nat)
    requires bit <= 1 && run <= MAX_RUN && literals <= MAX_LITERALS
    ensures Marker(bit, run, literals) <= 0xFFFF_FFFF_FFFF_FFFF
  {
    MarkerFields(bit, run, literals);
  }

  /** A chunk's run and literals are where the words go on. */
  lemma ChunkSpliced(plain: seq<U64>, i: nat)
    requires i < |plain|
    ensures var c := ChunkAt(plain, i);
            var start, next := i + c.run, i + c.run + c.literals;
            Repeat(Fill(c.bit), c.run) + plain[start..next] + plain[next..] == plain[i..]
  {
    hide *;
    var c := ChunkAt(plain, i);
    var start, next := i + c.run, i + c.run + c.literals;
    assert Repeat(Fill(c.bit), c.run) == plain[i..start];
    Spliced(plain, i, start, next);
  }

  lemma ExpandEmptyBitmap(words: seq<U64>, rest: seq<U64>)
    requires |words| == 1 && words[0] == 0 && rest == words[1..]
    ensures Expand(words).Some? && |Expand(words).value| == 0
  {
    assert |rest| == 0;
    assert Expand(rest) == Some([]);
  }

  lemma WordsExpand(plain: seq<U64>)
    ensures Expand(Words(plain)) == Some(plain)
  {
    if |plain| == 0 {
      ExpandEmptyBitmap(Words(plain), Words(plain)[1..]);
    } else {
      ExpandInverts(plain, 0);
      assert plain[0..] == plain;
    }
  }

  lemma {:induction false} WordsFromLength(plain: seq<U64>, i: nat)
    requires i <= |plain|
    ensures |WordsFrom(plain, i)| <= 2 * (|plain| - i)
    ensures i < |plain| ==> |WordsFrom(plain, i)| > 0
    decreases |plain| - i
  {
    hide *;
    if i == |plain| {
      WordsEnd(plain);
    } else {
      var c := ChunkAt(plain, i);
      WordsFromUnfolds(plain, i);
      WordsFromLength(plain, i + c.run + c.literals);
    }
  }

  /** The words are whole: every marker is followed by all its literals. */
  predicate Complete(words: seq<U64>) {
    |words| == 0 ||
    (1 + MarkerLiterals(words[0]) <= |words| && Complete(words[1 + MarkerLiterals(words[0])..]))
  }

  lemma {:induction false} CompleteAppend(words: seq<U64>, w: U64, literals: seq<U64>)
    requires Complete(words) && MarkerLiterals(w) == |literals|
    ensures Complete(words + [w] + literals)
    ensures LastMarker(words + [w] + literals) == |words|
  {
    hide *;
    NoWords();
    if |words| == 0 {
      ReadStep(w, literals, []);
      assert words == [] && words + [w] + literals == [w] + literals + [];
    } else {
      var n := 1 + MarkerLiterals(words[0]);
      CompleteUnfolds(words);
      CompleteAppend(words[n..], w, literals);
      var more := words[n..] + [w] + literals;
      assert words == [words[0]] + words[1..n] + words[n..];
      assert words + [w] + literals == [words[0]] + words[1..n] + more;
      ReadStep(words[0], words[1..n], more);
    }
  }

  lemma NoWords()
    ensures Complete([]) && LastMarker([]) == 0
  {
  }

  lemma CompleteUnfolds(words: seq<U64>)
    requires Complete(words) && |words| > 0
    ensures 1 + MarkerLiterals(words[0]) <= |words| && Complete(words[1 + MarkerLiterals(words[0])..])
  {
  }

  // ---------------------------------------------------------------------------
  // The serialized bitmap
  // ---------------------------------------------------------------------------

  function WordBytes(words: seq<U64>): (r: ByteString)
    ensures |r| == 8 * |words|
  {
    if |words| == 0 then [] else BE64(words[0]) + WordBytes(words[1..])
  }

  function Serialized(bits: nat, words: seq<U64>, last: nat): ByteString {
    BE32(Low32(bits)) + BE32(Low32(|words|)) + WordBytes(words) + BE32(Low32(last))
  }

  datatype Bitmap = Bitmap(bits: nat, plain: seq<U64>, lastMarker: nat, used: nat)

  function ReadWords(s: ByteString, n: nat): (r: seq<U64>)
    requires |s| >= 8 * n
    ensures |r| == n
    decreases n
  {
    if n == 0 then [] else [FromBE64(s[..8])] + ReadWords(s[8..], n - 1)
  }

  /** Reading a bitmap off the front of a string. */
  function Parse(s: ByteString): Option<Bitmap> {
    if |s| < 8 then None
    else
      var n := FromBE32(s[4..8]);
      var used := 8 + 8 * n + 4;
      if |s| < used then None
      else
        match Expand(ReadWords(s[8..], n))
        case None => None
        case Some(plain) => Some(Bitmap(FromBE32(s[..4]), plain, FromBE32(s[8 + 8 * n..used]), used))
  }

  lemma {:induction false} ReadWordBytes(words: seq<U64>, rest: ByteString)
    ensures ReadWords(WordBytes(words) + rest, |words|) == words
  {
    if |words| > 0 {
      var s := WordBytes(words) + rest;
      assert s[..8] == BE64(words[0]);
      assert s[8..] == WordBytes(words[1..]) + rest;
      RoundTrip64(words[0]);
      ReadWordBytes(words[1..], rest);
    }
  }

  lemma ParseSerialized(bits: nat, words: seq<U64>, last: nat, rest: ByteString)
    requires bits <= U32_MAX && |words| <= U32_MAX && last <= U32_MAX
    requires Expand(words).Some?
    ensures Parse(Serialized(bits, words, last) + rest)
            == Some(Bitmap(bits, Expand(words).value, last, |Serialized(bits, words, last)|))
  {
    hide BE32;
    hide FromBE32;
    hide Low32;
    hide Expand;
    hide WordBytes;
    hide ReadWords;
    var s := Serialized(bits, words, last) + rest;
    RoundTrip32(bits);
    RoundTrip32(|words|);
    RoundTrip32(last);
    assert s[..4] == BE32(bits);
    assert s[4..8] == BE32(|words|);
    assert s[8..] == WordBytes(words) + (BE32(last) + rest);
    ReadWordBytes(words, BE32(last) + rest);
    assert s[8 + 8 * |words|..8 + 8 * |words| + 4] == BE32(last);
  }

  // ---------------------------------------------------------------------------
  // The encoder
  // ---------------------------------------------------------------------------

  function WordCount(bits: nat): nat {
    (bits + 63) / 64
  }

  /** As many words as the bits need, and no more. */
  lemma WordsSuffice(bits: nat)
    ensures bits <= 64 * WordCount(bits) < bits + 64
  {
  }

  /** A run's length and a count of literals are as large as their 32 and 31 bits allow. */
  lemma LargestCounts()
    ensures MAX_RUN + 1 == Pow2(32) && MAX_LITERALS + 1 == Pow2(31)
  {
    Pow2Values();
    assert Pow2(32) == 2 * Pow2(31);
  }

  /** `plain` holds the bits below `bits` of those `set_` accepts. */
  ghost predicate HoldsBelow(plain: seq<U64>, bits: nat, set_: nat -> bool)
  {
    forall j, k :: 0 <= j < |plain| && 0 <= k < 64 ==>
      (Bit(plain[j], k) <==> 64 * j + k < bits && set_(64 * j + k))
  }

  ghost predicate Holds(plain: seq<U64>, bits: nat, set_: nat -> bool)
  {
    |plain| == WordCount(bits) && HoldsBelow(plain, bits, set_)
  }

  lemma {:induction false} SameBitsSameWord(a: nat, b: nat, n: nat)
    requires a < Pow2(n) && b < Pow2(n)
    requires forall k :: 0 <= k < n ==> (Bit(a, k) <==> Bit(b, k))
    ensures a == b
  {
    if n > 0 {
      forall k | 0 <= k < n - 1 ensures Bit(a / 2, k) <==> Bit(b / 2, k) {
        assert Bit(a, k + 1) <==> Bit(b, k + 1);
      }
      SameBitsSameWord(a / 2, b / 2, n - 1);
      assert Bit(a, 0) <==> Bit(b, 0);
    }
  }

  /** The predicate determines the words. */
  lemma HoldsUnique(p: seq<U64>, q: seq<U64>, bits: nat, set_: nat -> bool)
    requires Holds(p, bits, set_) && Holds(q, bits, set_)
    ensures p == q
  {
    forall j | 0 <= j < |p| ensures p[j] == q[j] {
      Pow2Values();
      SameBitsSameWord(p[j], q[j], 64);
    }
  }

  /** A bitmap of `bits` bits set as `set_` says, as a reader of the format sees it. */
  ghost predicate Encodes(s: ByteString, bits: nat, set_: nat -> bool)
  {
    exists plain: seq<U64> :: Holds(plain, bits, set_) && s == Serialized(bits, Words(plain), LastMarker(Words(plain)))
  }

  /** There is one encoding. */
  lemma EncodingUnique(s: ByteString, t: ByteString, bits: nat, set_: nat -> bool)
    requires Encodes(s, bits, set_) && Encodes(t, bits, set_)
    ensures s == t
  {
    hide Holds;
    hide Serialized;
    hide Words;
    hide LastMarker;
    var p: seq<U64> :| Holds(p, bits, set_) && s == Serialized(bits, Words(p), LastMarker(Words(p)));
    var q: seq<U64> :| Holds(q, bits, set_) && t == Serialized(bits, Words(q), LastMarker(Words(q)));
    HoldsUnique(p, q, bits, set_);
  }

  /** Reading back what was encoded gives exactly the bits, and the last field indexes the last marker. */
  lemma BitmapRoundTrip(s: ByteString, bits: nat, set_: nat -> bool, rest: ByteString)
    requires bits <= U32_MAX && Encodes(s, bits, set_)
    ensures var b := Parse(s + rest);
            && b.Some? && b.value.bits == bits && b.value.used == |s|
            && Holds(b.value.plain, bits, set_)
            && b.value.lastMarker == LastMarker(Words(b.value.plain))
  {
    var plain: seq<U64> :| Holds(plain, bits, set_) && s == Serialized(bits, Words(plain), LastMarker(Words(plain)));
    WordsExpand(plain);
    WordsFromLength(plain, 0);
    LastMarkerBound(Words(plain));
    ParseSerialized(bits, Words(plain), LastMarker(Words(plain)), rest);
  }

  lemma {:induction false} LastMarkerBound(words: seq<U64>)
    ensures |words| > 0 ==> LastMarker(words) < |words|
  {
    if |words| > 0 {
      var next := 1 + MarkerLiterals(words[0]);
      if next < |words| { LastMarkerBound(words[next..]); }
    }
  }

  lemma BitPosition(bit: nat, j: nat, k: nat)
    requires k < 64
    ensures 64 * j + k == bit <==> j == bit / 64 && k == bit % 64
  {
  }

  lemma SetBit(plain: seq<U64>, bit: nat, set_: nat -> bool, w: U64)
    requires HoldsBelow(plain, bit, set_) && bit / 64 < |plain| && set_(bit)
    requires w == Or(plain[bit / 64], Pow2(bit % 64))
    ensures HoldsBelow(plain[bit / 64 := w], bit + 1, set_)
  {
    hide Or;
    hide Bit;
    hide Pow2;
    var after := plain[bit / 64 := w];
    forall j, k | 0 <= j < |after| && 0 <= k < 64
      ensures Bit(after[j], k) <==> 64 * j + k < bit + 1 && set_(64 * j + k)
    {
      SetBitAt(plain, bit, set_, w, j, k);
    }
  }

  lemma SetBitAt(plain: seq<U64>, bit: nat, set_: nat -> bool, w: U64, j: nat, k: nat)
    requires HoldsBelow(plain, bit, set_) && bit / 64 < |plain| && set_(bit) && j < |plain| && k < 64
    requires w == Or(plain[bit / 64], Pow2(bit % 64))
    ensures Bit(plain[bit / 64 := w][j], k) <==> 64 * j + k < bit + 1 && set_(64 * j + k)
  {
    hide Or;
    hide Bit;
    hide Pow2;
    BitPosition(bit, j, k);
    OrBit(plain[bit / 64], Pow2(bit % 64), k);
    Pow2Bit(bit % 64, k);
    assert Bit(plain[j], k) <==> 64 * j + k < bit && set_(64 * j + k);
  }

  lemma SkipBit(plain: seq<U64>, bit: nat, set_: nat -> bool)
    requires HoldsBelow(plain, bit, set_) && !set_(bit)
    ensures HoldsBelow(plain, bit + 1, set_)
  {
    forall j, k | 0 <= j < |plain| && 0 <= k < 64
      ensures Bit(plain[j], k) <==> 64 * j + k < bit + 1 && set_(64 * j + k)
    {
      BitPosition(bit, j, k);
    }
  }

  method PlainWords(bits: nat, set_: nat -> bool) returns (plain: array<U64>)
    ensures fresh(plain) && Holds(plain[..], bits, set_)
  {
    hide Or;
    hide Bit;
    hide Pow2;
    plain := new U64[WordCount(bits)](_ => 0);
    forall j, k | 0 <= j < plain.Length && 0 <= k < 64 ensures !Bit(plain[..][j], k) {
      ZeroHasNoBit(k);
    }
    for bit := 0 to bits
      invariant HoldsBelow(plain[..], bit, set_)
    {
      if set_(bit) {
        Pow2Values();
        Pow2Monotone(bit % 64, 64);
        OrBound(plain[bit / 64], Pow2(bit % 64), 64);
        SetBit(plain[..], bit, set_, Or(plain[bit / 64], Pow2(bit % 64)));
        ghost var before := plain[..];
        plain[bit / 64] := Or(plain[bit / 64], Pow2(bit % 64));
        assert plain[..] == before[bit / 64 := plain[bit / 64]];
      } else {
        SkipBit(plain[..], bit, set_);
      }
    }
  }

  lemma WordsFromUnfolds(plain: seq<U64>, i: nat)
    requires i < |plain|
    ensures var c := ChunkAt(plain, i);
            var start, next := i + c.run, i + c.run + c.literals;
            WordsFrom(plain, i) == [Marker(c.bit, c.run, c.literals)] + plain[start..next] + WordsFrom(plain, next)
  {
  }

  lemma ZeroMarker()
    ensures Or(Or(0, 0 * 2), 0 * 0x2_0000_0000) == 0
  {
  }

  method RunLoop(plain: array<U64>, runBit: nat, first: nat) returns (run: nat, i: nat)
    requires first <= plain.Length
    ensures i == first + run && run == RunFrom(plain[..], first, Fill(runBit), MAX_RUN)
  {
    run, i := 0, first;
    while run < MAX_RUN && i < plain.Length && plain[i] == (if runBit == 1 then ONES else 0)
      invariant 0 <= i <= plain.Length && i == first + run && run <= MAX_RUN
      invariant RunFrom(plain[..], first, Fill(runBit), MAX_RUN) == run + RunFrom(plain[..], i, Fill(runBit), MAX_RUN - run)
    {
      run := run + 1;
      i := i + 1;
    }
  }

  method LiteralLoop(plain: array<U64>, start: nat) returns (i: nat)
    requires start <= plain.Length
    ensures i == start + LiteralsFrom(plain[..], start, MAX_LITERALS)
  {
    i := start;
    while i < plain.Length && i - start < MAX_LITERALS && plain[i] != 0 && plain[i] != ONES
      invariant start <= i <= plain.Length && i - start <= MAX_LITERALS
      invariant LiteralsFrom(plain[..], start, MAX_LITERALS)
                == i - start + LiteralsFrom(plain[..], i, MAX_LITERALS - (i - start))
    {
      i := i + 1;
    }
  }

  /** One round of the encoder: the marker and literals for what follows `first`. */
  method EncodeChunk(plain: array<U64>, first: nat) returns (marker: U64, start: nat, end: nat)
    requires first <= plain.Length
    ensures first <= start <= end <= plain.Length && MarkerLiterals(marker) == end - start
    ensures first < plain.Length ==> first < end && [marker] + plain[start..end] + WordsFrom(plain[..], end) == WordsFrom(plain[..], first)
    ensures first == plain.Length ==> marker == 0 && end == first
  {
    hide Or;
    hide WordsFrom;
    hide MarkerLiterals;
    hide MarkerRun;
    hide MarkerBit;
    hide Marker;
    var runBit := if first < plain.Length && plain[first] == ONES then 1 else 0;
    var run;
    run, start := RunLoop(plain, runBit, first);
    end := LiteralLoop(plain, start);
    MarkerFields(runBit, run, end - start);
    MarkerByOr(runBit, run, end - start);
    marker := Or(Or(runBit, run * 2), (end - start) * 0x2_0000_0000);
    if first == plain.Length {
      ZeroMarker();
    } else {
      assert ChunkAt(plain[..], first) == Chunk(runBit, run, end - start);
      WordsFromUnfolds(plain[..], first);
      assert plain[..][start..end] == plain[start..end];
    }
  }

  /** The whole encoder; it ends because every round but that of an empty bitmap consumes a word. */
  method Ewah(bits: nat, set_: nat -> bool) returns (out: ByteString)
    ensures Encodes(out, bits, set_)
  {
    hide *;
    var plain := PlainWords(bits, set_);
    ghost var p := plain[..];
    var words: seq<U64> := [];
    var lastRlw := 0;
    var i := 0;
    NoWords();
    WordsStart(p);
    while i < plain.Length || |words| == 0
      invariant 0 <= i <= plain.Length && plain[..] == p
      invariant |words| == 0 ==> i == 0
      invariant Complete(words) && lastRlw == LastMarker(words)
      invariant |p| > 0 ==> words + WordsFrom(p, i) == Words(p)
      invariant |p| == 0 && |words| > 0 ==> words == Words(p)
      decreases plain.Length - i, |words| == 0
    {
      var marker, start, end := EncodeChunk(plain, i);
      CompleteAppend(words, marker, plain[start..end]);
      lastRlw := |words|;
      assert words + ([marker] + plain[start..end] + WordsFrom(p, end)) == words + [marker] + plain[start..end] + WordsFrom(p, end);
      words := words + [marker];
      words := words + plain[start..end];
      i := end;
    }
    assert words == Words(p) by {
      WordsEnd(p);
      if |p| > 0 { assert words + [] == words; }
    }
    out := Serialized(bits, words, lastRlw);
    EncodesIntro(out, bits, set_, p);
  }

  lemma WordsStart(p: seq<U64>)
    ensures if |p| == 0 then Words(p) == [0] else Words(p) == WordsFrom(p, 0)
  {
  }

  lemma WordsEnd(p: seq<U64>)
    ensures WordsFrom(p, |p|) == []
  {
  }

  lemma EncodesIntro(s: ByteString, bits: nat, set_: nat -> bool, plain: seq<U64>)
    requires Holds(plain, bits, set_) && s == Serialized(bits, Words(plain), LastMarker(Words(plain)))
    ensures Encodes(s, bits, set_)
  {
  }
}
