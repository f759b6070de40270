/**
 * Git's variable-length integers: big-endian base 128 where every continuation
 * also counts one, so that each value has exactly one encoding.
 */
module Varint {
  import opened Wrappers
  import opened Bytes

  const WORD: int := 0x1_0000_0000_0000_0000

  /** The continuation bytes that stand for `v` before a further byte. */
  function Lead(v: nat): ByteString
    decreases v
  {
    if v == 0 then [] else Lead((v - 1) / 128) + [128 + (v - 1) % 128]
  }

  function Encode(v: nat): ByteString {
    Lead(v / 128) + [v % 128]
  }

  datatype Decoded = Decoded(value: nat, used: nat)

  /** The decoding of a string over unbounded integers, `acc` being read already. */
  function DecodeFrom(s: ByteString, acc: nat): (r: Option<Decoded>)
    ensures r.Some? ==> 0 < r.value.used <= |s|
  {
    if |s| == 0 then None
    else
      var a := acc * 128 + s[0] % 128;
      if s[0] < 128 then Some(Decoded(a, 1))
      else
        match DecodeFrom(s[1..], a + 1)
        case None => None
        case Some(d) => Some(Decoded(d.value, d.used + 1))
  }

  /** The low 64 bits of a number. */
  function Wrap(n: nat): (r: U64)
    ensures n < WORD ==> r == n
  {
    if n < WORD then n else Wrap(n - WORD)
  }

  /** One turn of the cursor's loop: shift a 64-bit accumulator, losing what leaves it, and set the low seven bits. */
  function Accumulate(acc: U64, b: Byte): U64 {
    ShiftLeavesRoom(acc * 128);
    Wrap(acc * 128) + b % 128
  }

  lemma {:induction false} ShiftLeavesRoom(n: nat)
    requires n % 128 == 0
    ensures Wrap(n) % 128 == 0 && Wrap(n) <= WORD - 128
  {
    if n >= WORD {
      ShiftLeavesRoom(n - WORD);
    }
  }

  /** The decoding the cursor performs, in 64-bit arithmetic that wraps. */
  function DecodeWrapping(s: ByteString, acc: U64): (r: Option<Decoded>)
    ensures r.Some? ==> 0 < r.value.used <= |s| && r.value.value < WORD
  {
    if |s| == 0 then None
    else
      var a := Accumulate(acc, s[0]);
      if s[0] < 128 then Some(Decoded(a, 1))
      else
        match DecodeWrapping(s[1..], Wrap(a + 1))
        case None => None
        case Some(d) => Some(Decoded(d.value, d.used + 1))
  }

  /** All bytes but the last carry the continuation bit, and the last does not. */
  predicate Terminated(s: ByteString)
  {
    && |s| > 0
    && s[|s| - 1] < 128
    && forall i :: 0 <= i < |s| - 1 ==> s[i] >= 128
  }

  // ---------------------------------------------------------------------------
  // Encoding and decoding are inverse
  // ---------------------------------------------------------------------------

  lemma {:induction false} DecodeLead(v: nat, t: ByteString)
    ensures DecodeFrom(Lead(v) + t, 0) ==
            match DecodeFrom(t, v)
            case None => None
            case Some(d) => Some(Decoded(d.value, d.used + |Lead(v)|))
    decreases v
  {
    if v == 0 {
      assert Lead(v) + t == t;
    } else {
      var b: Byte := 128 + (v - 1) % 128;
      var h := (v - 1) / 128;
      assert Lead(v) + t == Lead(h) + ([b] + t);
      DecodeLead(h, [b] + t);
      assert ([b] + t)[1..] == t;
      assert h * 128 + b % 128 + 1 == v;
    }
  }

  /** Decoding what was encoded gives the value back, whatever follows. */
  lemma RoundTrip(v: nat, rest: ByteString)
    ensures DecodeFrom(Encode(v) + rest, 0) == Some(Decoded(v, |Encode(v)|))
  {
    assert Encode(v) + rest == Lead(v / 128) + ([v % 128] + rest);
    DecodeLead(v / 128, [v % 128] + rest);
  }

  /** The value a run of continuation bytes stands for. */
  function Folded(c: ByteString): nat {
    if |c| == 0 then 0 else Folded(c[..|c| - 1]) * 128 + c[|c| - 1] % 128 + 1
  }

  lemma {:induction false} LeadFolded(c: ByteString)
    requires forall i :: 0 <= i < |c| ==> c[i] >= 128
    ensures Lead(Folded(c)) == c
  {
    if |c| > 0 {
      var n := |c| - 1;
      LeadFolded(c[..n]);
      assert c == c[..n] + [c[n]];
      assert (Folded(c) - 1) / 128 == Folded(c[..n]);
      assert 128 + (Folded(c) - 1) % 128 == c[n] as int;
    }
  }

  lemma {:induction false} LeadContinues(v: nat)
    ensures forall i :: 0 <= i < |Lead(v)| ==> Lead(v)[i] >= 128
    decreases v
  {
    if v > 0 {
      LeadContinues((v - 1) / 128);
    }
  }

  /** A string is the encoding of some value exactly when it is terminated, and then of the value it denotes. */
  lemma EncodingsAreTheTerminatedStrings(s: ByteString)
    ensures Terminated(s) <==> exists v: nat :: Encode(v) == s
    ensures Terminated(s) ==>
              DecodeFrom(s, 0).Some? && DecodeFrom(s, 0).value.used == |s|
              && Encode(DecodeFrom(s, 0).value.value) == s
  {
    if Terminated(s) {
      TerminatedEncodes(s);
    } else if v: nat :| Encode(v) == s {
      LeadContinues(v / 128);
      assert false;
    }
  }

  lemma EncodeIs(v: nat)
    ensures Encode(v) == Lead(v / 128) + [v % 128]
  {
  }

  lemma TerminatedEncodes(s: ByteString)
    requires Terminated(s)
    ensures exists v: nat :: Encode(v) == s
    ensures DecodeFrom(s, 0).Some? && DecodeFrom(s, 0).value.used == |s| && Encode(DecodeFrom(s, 0).value.value) == s
  {
    hide Folded;
    hide Encode;
    hide Lead;
    hide DecodeFrom;
    var n := |s| - 1;
    var v := Folded(s[..n]) * 128 + s[n];
    LeadFolded(s[..n]);
    EncodeIs(v);
    LastDigit(Folded(s[..n]), s[n]);
    assert s == s[..n] + [s[n]];
    assert Encode(v) == s;
    RoundTrip(v, []);
    assert s + [] == s;
  }

  lemma LastDigit(lead: nat, last: nat)
    requires last < 128
    ensures (lead * 128 + last) / 128 == lead && (lead * 128 + last) % 128 == last
  {
  }

  /** A decoding whose value is kept to 64 bits. */
  function Wrapped(d: Option<Decoded>): Option<Decoded> {
    match d
    case None => None
    case Some(d) => Some(Decoded(Wrap(d.value), d.used))
  }

  lemma {:induction false} WrapAddend(x: nat, k: nat, b: nat)
    ensures Wrap(Wrap(x) * k + b) == Wrap(x * k + b)
    decreases x
  {
    if x >= WORD {
      WrapAddend(x - WORD, k, b);
      WrapMultiple((x - WORD) * k + b, k);
      assert (x - WORD) * k + b + k * WORD == x * k + b;
    }
  }

  lemma {:induction false} WrapMultiple(x: nat, q: nat)
    ensures Wrap(x + q * WORD) == Wrap(x)
  {
    if q > 0 {
      WrapMultiple(x, q - 1);
      assert x + q * WORD - WORD == x + (q - 1) * WORD;
    }
  }

  lemma {:induction false} WrapLowBits(n: nat, b: nat)
    requires n % 128 == 0 && b < 128
    ensures Wrap(n) + b == Wrap(n + b)
  {
    if n >= WORD {
      WrapLowBits(n - WORD, b);
    }
  }

  lemma AccumulateWraps(acc: nat, b: Byte)
    ensures Accumulate(Wrap(acc), b) == Wrap(acc * 128 + b % 128)
  {
    WrapLowBits(Wrap(acc) * 128, b % 128);
    WrapAddend(acc, 128, b % 128);
  }

  lemma SuccessorWraps(a: nat)
    ensures Wrap(Wrap(a) + 1) == Wrap(a + 1)
  {
    WrapAddend(a, 1, 1);
  }

  /** On every string the wrapping decoder reads the low 64 bits of the unbounded value. */
  lemma {:induction false} WrappingIsModular(s: ByteString, acc: nat, w: U64)
    requires w == Wrap(acc)
    ensures DecodeWrapping(s, w) == Wrapped(DecodeFrom(s, acc))
  {
    if |s| > 0 {
      var a: nat := acc * 128 + s[0] % 128;
      var b: nat := Accumulate(w, s[0]);
      AccumulateWraps(acc, s[0]);
      assert b == Wrap(a);
      SuccessorWraps(a);
      if s[0] >= 128 {
        WrappingIsModular(s[1..], a + 1, Wrap(b + 1));
      }
    }
  }

  /** The cursor's wrapping loop is exact on the encoding of every 64-bit value. */
  lemma WrappingRoundTrip(v: U64, rest: ByteString)
    ensures DecodeWrapping(Encode(v) + rest, 0) == Some(Decoded(v, |Encode(v)|))
  {
    RoundTrip(v, rest);
    WrappingIsModular(Encode(v) + rest, 0, 0);
  }

  // ---------------------------------------------------------------------------
  // The encoder's fixed buffer
  // ---------------------------------------------------------------------------

  function LeadBound(n: nat): nat {
    if n == 0 then 1 else 128 * LeadBound(n - 1) + 1
  }

  lemma {:induction false} LeadLength(v: nat, n: nat)
    requires v < LeadBound(n)
    ensures |Lead(v)| <= n
    decreases n
  {
    if v > 0 {
      LeadLength((v - 1) / 128, n - 1);
    }
  }

  /** A 64-bit value takes at most ten of the sixteen bytes. */
  lemma EncodeLength(v: U64)
    ensures 1 <= |Encode(v)| <= 10
  {
    assert LeadBound(3) == 2113665;
    assert LeadBound(6) == 4432676798593;
    assert LeadBound(9) >= 0x100_0000_0000_0000;
    LeadLength(v / 128, 9);
  }

  method EncodeVarint(value: U64, out: Vector<Byte>)
    modifies out
    ensures out.items == old(out.items) + Encode(value)
  {
    EncodeLength(value);
    var buf := new Byte[16](_ => 0);
    var pos := buf.Length - 1;
    var rest: U64 := value;
    buf[pos] := rest % 128;
    assert buf[pos..] == [value % 128];
    while true
      invariant 0 <= pos < 16 && out.items == old(out.items)
      invariant Encode(value) == Lead(rest / 128) + buf[pos..]
      decreases rest
    {
      rest := rest / 128;
      if rest == 0 {
        break;
      }
      ghost var written := buf[pos..];
      rest := rest - 1;
      pos := pos - 1;
      buf[pos] := 128 + rest % 128;
      assert buf[pos..] == [128 + rest % 128] + written;
    }
    out.items := out.items + buf[pos..];
  }
}
