/** Decimal numbers and UTF-8 text inside binary formats. */
module Decimals {
  import opened Wrappers
  import opened Bytes

  const ZERO: Byte := 48
  const PLUS: Byte := 43
  const MINUS: Byte := 45

  predicate Digits(s: ByteString) {
    forall i :: 0 <= i < |s| ==> 48 <= s[i] < 58
  }

  function Decimal(n: nat): (r: ByteString)
    ensures |r| > 0 && Digits(r)
  {
    if n < 10 then [ZERO + n] else Decimal(n / 10) + [ZERO + n % 10]
  }

  function Value(s: ByteString): nat
    requires Digits(s)
  {
    if |s| == 0 then 0 else Value(s[..|s| - 1]) * 10 + (s[|s| - 1] as int - 48)
  }

  /** `str::parse::<i64>`: an optional sign, then at least one digit, within range. */
  function ParseI64(s: ByteString): Option<int> {
    var signed := |s| > 0 && (s[0] == PLUS || s[0] == MINUS);
    var digits := if signed then s[1..] else s;
    if |digits| == 0 || !Digits(digits) then None
    else
      var value: int := if signed && s[0] == MINUS then 0 - Value(digits) as int else Value(digits);
      if -I64_MAX - 1 <= value <= I64_MAX then Some(value) else None
  }

  lemma {:induction false} ValueOfDecimal(n: nat)
    ensures Value(Decimal(n)) == n
  {
    if n < 10 {
      assert Decimal(n)[..0] == [];
    } else {
      assert Decimal(n)[..|Decimal(n)| - 1] == Decimal(n / 10);
      ValueOfDecimal(n / 10);
    }
  }

  lemma ParseDecimal(n: nat)
    requires n <= I64_MAX
    ensures ParseI64(Decimal(n)) == Some(n)
  {
    ValueOfDecimal(n);
  }

  /** A minus sign reads as one. */
  lemma ParseNegative(n: nat)
    requires n <= I64_MAX + 1
    ensures ParseI64([45] + Decimal(n)) == Some(0 - n)
  {
    ValueOfDecimal(n);
    assert ([45] + Decimal(n))[1..] == Decimal(n);
  }

  /** What reads as a number: digits, with a sign or without, whose value is in range; nothing else. */
  lemma ParsesExactly(s: ByteString, n: int)
    ensures ParseI64(s) == Some(n) <==>
            && -0x8000_0000_0000_0000 <= n <= 0x7FFF_FFFF_FFFF_FFFF
            && var digits := if |s| > 0 && (s[0] == 43 || s[0] == 45) then s[1..] else s;
               && |digits| > 0 && Digits(digits)
               && n == if s[0] == 45 then 0 - Value(digits) as int else Value(digits)
  {
  }

  predicate Continuation(b: Byte) {
    0x80 <= b < 0xC0
  }

  /** Well-formed UTF-8: the byte sequences of RFC 3629, section 4. */
  predicate Utf8(s: ByteString) {
    if |s| == 0 then true
    else if s[0] < 0x80 then Utf8(s[1..])
    else if 0xC2 <= s[0] <= 0xDF then |s| >= 2 && Continuation(s[1]) && Utf8(s[2..])
    else if 0xE0 <= s[0] <= 0xEF then
      && |s| >= 3 && Continuation(s[1]) && Continuation(s[2])
      && (s[0] == 0xE0 ==> s[1] >= 0xA0) && (s[0] == 0xED ==> s[1] < 0xA0)
      && Utf8(s[3..])
    else if 0xF0 <= s[0] <= 0xF4 then
      && |s| >= 4 && Continuation(s[1]) && Continuation(s[2]) && Continuation(s[3])
      && (s[0] == 0xF0 ==> s[1] >= 0x90) && (s[0] == 0xF4 ==> s[1] < 0x90)
      && Utf8(s[4..])
    else false
  }

  lemma {:induction false} AsciiIsUtf8(s: ByteString)
    requires forall b <- s :: b < 0x80
    ensures Utf8(s)
  {
    if |s| > 0 {
      assert s[0] in s;
      forall b <- s[1..] ensures b < 0x80 { assert b in s; }
      AsciiIsUtf8(s[1..]);
    }
  }

  /** A Unicode scalar value: any code point but the surrogates. */
  predicate Scalar(c: nat) {
    c < 0xD800 || 0xE000 <= c < 0x11_0000
  }

  /** The UTF-8 of a scalar value, by RFC 3629. */
  function Utf8Char(c: nat): ByteString
    requires Scalar(c)
  {
    if c < 0x80 then [c]
    else if c < 0x800 then [0xC0 + c / 64, 0x80 + c % 64]
    else if c < 0x1_0000 then [0xE0 + c / 4096, 0x80 + c / 64 % 64, 0x80 + c % 64]
    else [0xF0 + c / 0x4_0000, 0x80 + c / 4096 % 64, 0x80 + c / 64 % 64, 0x80 + c % 64]
  }

  function Utf8Text(cs: seq<nat>): ByteString
    requires forall c <- cs :: Scalar(c)
  {
    if |cs| == 0 then [] else Utf8Char(cs[0]) + Utf8Text(cs[1..])
  }

  lemma OneChar(c: nat, rest: ByteString)
    requires Scalar(c)
    ensures Utf8(Utf8Char(c) + rest) <==> Utf8(rest)
  {
    var first := Utf8Char(c);
    CharParts(c);
    hide Utf8Char;
    var s := first + rest;
    assert s[|first|..] == rest;
  }

  lemma CharParts(c: nat)
    requires Scalar(c)
    ensures var s := Utf8Char(c);
            && |s| == (if c < 0x80 then 1 else if c < 0x800 then 2 else if c < 0x1_0000 then 3 else 4)
            && (|s| == 1 ==> s[0] < 0x80) && (|s| == 2 ==> 0xC2 <= s[0] <= 0xDF)
            && (|s| == 3 ==> 0xE0 <= s[0] <= 0xEF && (s[0] == 0xE0 ==> s[1] >= 0xA0) && (s[0] == 0xED ==> s[1] < 0xA0))
            && (|s| == 4 ==> 0xF0 <= s[0] <= 0xF4 && (s[0] == 0xF0 ==> s[1] >= 0x90) && (s[0] == 0xF4 ==> s[1] < 0x90))
            && forall k :: 0 < k < |s| ==> Continuation(s[k])
  {
  }

  lemma {:induction false} TextIsUtf8(cs: seq<nat>)
    requires forall c <- cs :: Scalar(c)
    ensures Utf8(Utf8Text(cs))
  {
    if |cs| > 0 {
      TextIsUtf8(cs[1..]);
      OneChar(cs[0], Utf8Text(cs[1..]));
    }
  }

  lemma TwoBytes(a: nat, b: nat)
    requires 2 <= a < 32 && b < 64
    ensures Scalar(a * 64 + b) && Utf8Char(a * 64 + b) == [0xC0 + a, 0x80 + b]
  {
  }

  lemma ThreeBytes(a: nat, b: nat, c: nat)
    requires a < 16 && b < 64 && c < 64 && (a == 0 ==> b >= 32) && (a == 13 ==> b < 32)
    ensures var n := a * 4096 + b * 64 + c; Scalar(n) && Utf8Char(n) == [0xE0 + a, 0x80 + b, 0x80 + c]
  {
    var n := a * 4096 + b * 64 + c;
    assert n / 64 == a * 64 + b;
  }

  lemma FourBytes(a: nat, b: nat, c: nat, d: nat)
    requires a < 5 && b < 64 && c < 64 && d < 64 && (a == 0 ==> b >= 16) && (a == 4 ==> b < 16)
    ensures var n := a * 0x4_0000 + b * 4096 + c * 64 + d;
            Scalar(n) && Utf8Char(n) == [0xF0 + a, 0x80 + b, 0x80 + c, 0x80 + d]
  {
    var n := a * 0x4_0000 + b * 4096 + c * 64 + d;
    assert n / 64 == a * 4096 + b * 64 + c;
    assert n / 4096 == a * 64 + b;
  }

  lemma FirstChar(s: ByteString) returns (c: nat, rest: ByteString)
    requires Utf8(s) && |s| > 0
    ensures Scalar(c) && s == Utf8Char(c) + rest && Utf8(rest) && |rest| < |s|
  {
    var lead: int := s[0];
    if lead < 0x80 {
      c, rest := lead, s[1..];
    } else if lead <= 0xDF {
      TwoBytes(lead - 0xC0, s[1] as int - 0x80);
      c, rest := (lead - 0xC0) * 64 + (s[1] as int - 0x80), s[2..];
    } else if lead <= 0xEF {
      ThreeBytes(lead - 0xE0, s[1] as int - 0x80, s[2] as int - 0x80);
      c, rest := (lead - 0xE0) * 4096 + (s[1] as int - 0x80) * 64 + (s[2] as int - 0x80), s[3..];
    } else {
      FourBytes(lead - 0xF0, s[1] as int - 0x80, s[2] as int - 0x80, s[3] as int - 0x80);
      c, rest := (lead - 0xF0) * 0x4_0000 + (s[1] as int - 0x80) * 4096 + (s[2] as int - 0x80) * 64 + (s[3] as int - 0x80), s[4..];
    }
    hide Utf8Char;
  }

  lemma {:induction false} Utf8IsText(s: ByteString) returns (cs: seq<nat>)
    requires Utf8(s)
    ensures (forall c <- cs :: Scalar(c)) && Utf8Text(cs) == s
    decreases |s|
  {
    if |s| == 0 {
      cs := [];
    } else {
      var c, rest := FirstChar(s);
      var others := Utf8IsText(rest);
      cs := [c] + others;
      assert cs[1..] == others;
    }
  }

  /** The check accepts exactly the encodings of scalar values. */
  lemma Utf8Exactly(s: ByteString)
    ensures Utf8(s) <==> exists cs: seq<nat> :: (forall c <- cs :: Scalar(c)) && Utf8Text(cs) == s
  {
    if Utf8(s) {
      var cs := Utf8IsText(s);
    }
    if cs: seq<nat> :| (forall c <- cs :: Scalar(c)) && Utf8Text(cs) == s {
      TextIsUtf8(cs);
    }
  }
}
