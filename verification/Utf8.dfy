/** UTF-16 to UTF-8 and back: the k6 shim's encoder and decoder and CryptoJS's parser, on
    every sequence of code units, against section 3 of RFC 3629.

    On the ranges at hand `x >> k` is division by a power of two, `x & mask` a remainder and
    `|` of disjoint bits an addition. */
module Utf8 {

  type Byte = b: int | 0 <= b < 256
  type CodeUnit = u: int | 0 <= u < 0x1_0000

  predicate IsHigh(u: int) {
    0xD800 <= u <= 0xDBFF
  }

  predicate IsLow(u: int) {
    0xDC00 <= u <= 0xDFFF
  }

  // ---------- the standard ----------

  /** The table of section 3 of RFC 3629. */
  function Rfc3629(cp: int): (bytes: seq<Byte>)
    requires 0 <= cp <= 0x10FFFF
  {
    if cp < 0x80 then [cp]
    else if cp < 0x800 then [0xC0 + cp / 64, 0x80 + cp % 64]
    else if cp < 0x1_0000 then [0xE0 + cp / 4096, 0x80 + (cp / 64) % 64, 0x80 + cp % 64]
    else [0xF0 + cp / 262144, 0x80 + (cp / 4096) % 64, 0x80 + (cp / 64) % 64, 0x80 + cp % 64]
  }

  function PairValue(high: int, low: int): (cp: int)
    requires IsHigh(high) && IsLow(low)
    ensures 0x1_0000 <= cp <= 0x10FFFF
  {
    0x1_0000 + (high - 0xD800) * 1024 + (low - 0xDC00)
  }

  /** Every surrogate is half of a pair. */
  predicate WellFormed(s: seq<CodeUnit>) {
    s == [] ||
    (if IsHigh(s[0]) then |s| > 1 && IsLow(s[1]) && WellFormed(s[2..])
     else !IsLow(s[0]) && WellFormed(s[1..]))
  }

  /** The Unicode scalar values of a well-formed string, each in its UTF-8 form. */
  function Standard(s: seq<CodeUnit>): (bytes: seq<Byte>)
    requires WellFormed(s)
  {
    if s == [] then []
    else if IsHigh(s[0]) then Rfc3629(PairValue(s[0], s[1])) + Standard(s[2..])
    else Rfc3629(s[0]) + Standard(s[1..])
  }

  /** The UTF-8 form of a string of scalar values. */
  function OfString(s: string): (bytes: seq<Byte>) {
    if s == [] then [] else Rfc3629(s[0] as int) + OfString(s[1..])
  }

  /** No code point's bytes begin another's. */
  lemma PrefixFree(a: int, x: seq<Byte>, b: int, y: seq<Byte>)
    requires 0 <= a <= 0x10FFFF && 0 <= b <= 0x10FFFF
    requires Rfc3629(a) + x == Rfc3629(b) + y
    ensures a == b && x == y
  {
    var p, q := Rfc3629(a), Rfc3629(b);
    var s := p + x;
    assert s[0] == p[0] && s[0] == q[0];
    assert |p| == |q| by { LeadByte(a); LeadByte(b); }
    assert p == s[..|p|] && q == s[..|q|];
    assert x == s[|p|..] && y == s[|q|..];
    SameBytes(a, b);
  }

  lemma LeadByte(cp: int)
    requires 0 <= cp <= 0x10FFFF
    ensures var p := Rfc3629(cp);
            && (|p| == 1 <==> p[0] < 0x80) && (|p| == 2 <==> 0x80 <= p[0] < 0xE0)
            && (|p| == 3 <==> 0xE0 <= p[0] < 0xF0) && (|p| == 4 <==> 0xF0 <= p[0])
  {
  }

  lemma SameBytes(a: int, b: int)
    requires 0 <= a <= 0x10FFFF && 0 <= b <= 0x10FFFF && Rfc3629(a) == Rfc3629(b)
    ensures a == b
  {
    Value(a);
    Value(b);
  }

  /** The number the bytes carry. */
  function Carried(p: seq<Byte>): (cp: int) {
    var at := (i: int) => if 0 <= i < |p| then p[i] as int else 0;
    if |p| == 1 then at(0)
    else if |p| == 2 then (at(0) - 0xC0) * 64 + (at(1) - 0x80)
    else if |p| == 3 then (at(0) - 0xE0) * 4096 + (at(1) - 0x80) * 64 + (at(2) - 0x80)
    else (at(0) - 0xF0) * 262144 + (at(1) - 0x80) * 4096 + (at(2) - 0x80) * 64 + (at(3) - 0x80)
  }

  lemma Value(cp: int)
    requires 0 <= cp <= 0x10FFFF
    ensures Carried(Rfc3629(cp)) == cp
  {
    assert cp / 4096 == (cp / 64) / 64;
    assert cp / 262144 == (cp / 4096) / 64;
  }

  lemma {:induction false} OfStringInjective(s: string, t: string)
    requires OfString(s) == OfString(t)
    ensures s == t
  {
    if s != [] && t != [] {
      PrefixFree(s[0] as int, OfString(s[1..]), t[0] as int, OfString(t[1..]));
      OfStringInjective(s[1..], t[1..]);
      assert s == [s[0]] + s[1..] && t == [t[0]] + t[1..];
    }
  }

  // ---------- the encoders ----------

  function Two(c: int): (bytes: seq<Byte>)
    requires 0x80 <= c < 0x800
  {
    [0xC0 + c / 64, 0x80 + c % 64]
  }

  function Three(c: int): (bytes: seq<Byte>)
    requires 0x800 <= c < 0x1_0000
  {
    [0xE0 + c / 4096, 0x80 + (c / 64) % 64, 0x80 + c % 64]
  }

  function Four(c: int, lo: int): (bytes: seq<Byte>)
    requires IsHigh(c) && IsLow(lo)
  {
    var cp := 0x1_0000 + (c - 0xD800) * 1024 + (lo - 0xDC00);
    [0xF0 + cp / 262144, 0x80 + (cp / 4096) % 64, 0x80 + (cp / 64) % 64, 0x80 + cp % 64]
  }

  const REPLACEMENT: seq<Byte> := [0xEF, 0xBF, 0xBD]

  /** A high surrogate at the head with its low surrogate behind it. */
  predicate StartsPair(s: seq<CodeUnit>) {
    |s| > 1 && IsHigh(s[0]) && IsLow(s[1])
  }

  /** A high surrogate at the head with something else behind it. */
  predicate StartsBroken(s: seq<CodeUnit>) {
    |s| > 1 && IsHigh(s[0]) && !IsLow(s[1])
  }

  function OneUnit(c: int): (bytes: seq<Byte>)
    requires 0 <= c < 0x1_0000
  {
    if c < 0x80 then [c] else if c < 0x800 then Two(c) else Three(c)
  }

  /** How many units the head of the string takes, and what the encoders write for it. */
  function Width(s: seq<CodeUnit>): (n: nat)
    requires s != []
    ensures 1 <= n <= |s|
  {
    if StartsPair(s) then 2 else 1
  }

  function K6Head(s: seq<CodeUnit>): (bytes: seq<Byte>)
    requires s != []
  {
    if StartsPair(s) then Four(s[0], s[1])
    else if StartsBroken(s) then REPLACEMENT
    else OneUnit(s[0])
  }

  function CryptoJsHead(s: seq<CodeUnit>): (bytes: seq<Byte>)
    requires s != []
  {
    if StartsPair(s) then Four(s[0], s[1]) else OneUnit(s[0])
  }

  function K6Encode(s: seq<CodeUnit>): (bytes: seq<Byte>) {
    if s == [] then [] else K6Head(s) + K6Encode(s[Width(s)..])
  }

  function CryptoJsEncode(s: seq<CodeUnit>): (bytes: seq<Byte>) {
    if s == [] then [] else CryptoJsHead(s) + CryptoJsEncode(s[Width(s)..])
  }

  method K6Utf8Encode(str: seq<CodeUnit>) returns (bytes: seq<Byte>)
    ensures bytes == K6Encode(str)
  {
    hide K6Head, Width;
    bytes := [];
    var i := 0;
    while i < |str|
      invariant 0 <= i <= |str|
      invariant bytes + K6Encode(str[i..]) == K6Encode(str)
    {
      ghost var start, before := i, bytes;
      var chunk;
      chunk, i := K6EncodeAt(str, i);
      bytes := bytes + chunk;
      assert str[start..][Width(str[start..])..] == str[i..];
      assert before + (chunk + K6Encode(str[i..])) == bytes + K6Encode(str[i..]);
    }
  }

  /** One round of the encoding loop: the bytes it pushes and where it goes on. */
  method K6EncodeAt(str: seq<CodeUnit>, i: nat) returns (chunk: seq<Byte>, next: nat)
    requires i < |str|
    ensures chunk == K6Head(str[i..]) && next == i + Width(str[i..])
  {
    hide Two, Three, Four;
    var c := str[i];
    if c < 0x80 {
      return [c], i + 1;
    } else if c < 0x800 {
      return Two(c), i + 1;
    } else if IsHigh(c) && i + 1 < |str| {
      var lo := str[i + 1];
      if IsLow(lo) {
        return Four(c, lo), i + 2;
      }
      return REPLACEMENT, i + 1;
    } else {
      return Three(c), i + 1;
    }
  }

  method CryptoJsUtf8Parse(str: seq<CodeUnit>) returns (bytes: seq<Byte>)
    ensures bytes == CryptoJsEncode(str)
  {
    hide CryptoJsHead, Width;
    bytes := [];
    var i := 0;
    while i < |str|
      invariant 0 <= i <= |str|
      invariant bytes + CryptoJsEncode(str[i..]) == CryptoJsEncode(str)
    {
      ghost var start, before := i, bytes;
      var chunk;
      chunk, i := CryptoJsEncodeAt(str, i);
      bytes := bytes + chunk;
      assert str[start..][Width(str[start..])..] == str[i..];
      assert before + (chunk + CryptoJsEncode(str[i..])) == bytes + CryptoJsEncode(str[i..]);
    }
  }

  method CryptoJsEncodeAt(str: seq<CodeUnit>, i: nat) returns (chunk: seq<Byte>, next: nat)
    requires i < |str|
    ensures chunk == CryptoJsHead(str[i..]) && next == i + Width(str[i..])
  {
    hide Two, Three, Four;
    var c := str[i];
    if IsHigh(c) && i + 1 < |str| {
      var lo := str[i + 1];
      if IsLow(lo) {
        return Four(c, lo), i + 2;
      }
    }
    if c < 0x80 {
      return [c], i + 1;
    } else if c < 0x800 {
      return Two(c), i + 1;
    } else {
      return Three(c), i + 1;
    }
  }

  // ---------- the decoder ----------

  function FromTwo(b: Byte, b1: Byte): (u: CodeUnit) {
    (b % 32) * 64 + b1 % 64
  }

  function FromThree(b: Byte, b1: Byte, b2: Byte): (u: CodeUnit) {
    (b % 16) * 4096 + (b1 % 64) * 64 + b2 % 64
  }

  function FourBits(b: int, b1: int, b2: int, b3: int): (cp: int) {
    262144 * (b % 8) + 4096 * (b1 % 64) + 64 * (b2 % 64) + b3 % 64
  }

  function FromFour(b: Byte, b1: Byte, b2: Byte, b3: Byte): (us: seq<CodeUnit>) {
    Surrogates(FourBits(b, b1, b2, b3))
  }

  function Surrogates(cp: int): (us: seq<CodeUnit>) {
    [(0xD800 + (cp - 0x1_0000) / 1024) % 0x1_0000, 0xDC00 + (cp - 0x1_0000) % 1024]
  }

  function DecodeWidth(bytes: seq<Byte>): (n: nat)
    requires bytes != []
    ensures 1 <= n <= |bytes|
  {
    var b := bytes[0];
    if b < 0x80 then 1
    else if b < 0xE0 && |bytes| > 1 then 2
    else if b < 0xF0 && |bytes| > 2 then 3
    else if |bytes| > 3 then 4
    else 1
  }

  function DecodeHead(bytes: seq<Byte>): (us: seq<CodeUnit>)
    requires bytes != []
  {
    var b := bytes[0];
    var n := DecodeWidth(bytes);
    if n == 1 then [b]
    else if n == 2 then [FromTwo(b, bytes[1])]
    else if n == 3 then [FromThree(b, bytes[1], bytes[2])]
    else FromFour(b, bytes[1], bytes[2], bytes[3])
  }

  function K6Decode(bytes: seq<Byte>): (s: seq<CodeUnit>) {
    if bytes == [] then [] else DecodeHead(bytes) + K6Decode(bytes[DecodeWidth(bytes)..])
  }

  method K6Utf8Decode(bytes: seq<Byte>) returns (out: seq<CodeUnit>)
    ensures out == K6Decode(bytes)
  {
    hide DecodeHead, DecodeWidth;
    out := [];
    var i := 0;
    while i < |bytes|
      invariant 0 <= i <= |bytes|
      invariant out + K6Decode(bytes[i..]) == K6Decode(bytes)
    {
      ghost var start, before := i, out;
      var units;
      units, i := DecodeAt(bytes, i);
      out := out + units;
      assert bytes[start..][DecodeWidth(bytes[start..])..] == bytes[i..];
      assert before + (units + K6Decode(bytes[i..])) == out + K6Decode(bytes[i..]);
    }
  }

  /** One round of the decoding loop: the units it appends and where it goes on. */
  method DecodeAt(bytes: seq<Byte>, i: nat) returns (units: seq<CodeUnit>, next: nat)
    requires i < |bytes|
    ensures units == DecodeHead(bytes[i..]) && next == i + DecodeWidth(bytes[i..])
  {
    hide FromTwo, FromThree, FromFour;
    var b := bytes[i];
    if b < 0x80 {
      return [b], i + 1;
    } else if b < 0xE0 && i + 1 < |bytes| {
      return [FromTwo(b, bytes[i + 1])], i + 2;
    } else if b < 0xF0 && i + 2 < |bytes| {
      return [FromThree(b, bytes[i + 1], bytes[i + 2])], i + 3;
    } else if i + 3 < |bytes| {
      return FromFour(b, bytes[i + 1], bytes[i + 2], bytes[i + 3]), i + 4;
    } else {
      return [b], i + 1;
    }
  }

  // ---------- round trip ----------

  lemma ThreeValue(c: int)
    requires 0x800 <= c < 0x1_0000
    ensures var p := Three(c); 0xE0 <= p[0] < 0xF0 && FromThree(p[0], p[1], p[2]) == c
  {
    assert c / 4096 == (c / 64) / 64;
  }

  /** A number below 2^21 in base 64, the top digit first. */
  lemma SixBitGroups(n: int)
    requires 0 <= n < 0x20_0000
    ensures n == 262144 * (n / 262144) + 4096 * ((n / 4096) % 64) + 64 * ((n / 64) % 64) + n % 64
    ensures 0 <= n / 262144 < 8
  {
    var x := n / 64;
    var y := x / 64;
    assert n / 4096 == y;
    assert n / 262144 == y / 64;
  }

  lemma FourValue(c: int, lo: int)
    requires IsHigh(c) && IsLow(lo)
    ensures var p := Four(c, lo); 0xF0 <= p[0] && FromFour(p[0], p[1], p[2], p[3]) == [c, lo]
  {
    hide FourBits, Surrogates;
    var cp := PairValue(c, lo);
    SixBitGroups(cp);
    FromGroups(cp / 262144, (cp / 4096) % 64, (cp / 64) % 64, cp % 64);
    PairSplits(c, lo);
  }

  lemma PairSplits(c: int, lo: int)
    requires IsHigh(c) && IsLow(lo)
    ensures Surrogates(PairValue(c, lo)) == [c, lo]
  {
    var d := PairValue(c, lo) - 0x1_0000;
    assert d / 1024 == c - 0xD800 && d % 1024 == lo - 0xDC00;
  }

  lemma FromGroups(a: int, b: int, c: int, d: int)
    requires 0 <= a < 8 && 0 <= b < 64 && 0 <= c < 64 && 0 <= d < 64
    ensures FourBits(0xF0 + a, 0x80 + b, 0x80 + c, 0x80 + d) == 262144 * a + 4096 * b + 64 * c + d
  {
    assert (0xF0 + a) % 8 == a;
    assert (0x80 + b) % 64 == b && (0x80 + c) % 64 == c && (0x80 + d) % 64 == d;
  }

  lemma DecodeOneUnit(c: int, rest: seq<Byte>)
    requires 0 <= c < 0x1_0000
    ensures K6Decode(OneUnit(c) + rest) == [c] + K6Decode(rest)
  {
    if c >= 0x800 { ThreeValue(c); }
    hide Three, FromThree;
    var p := OneUnit(c);
    var s := p + rest;
    assert s[|p|..] == rest;
    assert c >= 0x800 ==> |Three(c)| == 3 by { if c >= 0x800 { ThreeLength(c); } }
    assert DecodeHead(s) == [c] && DecodeWidth(s) == |p|;
  }

  lemma ThreeLength(c: int)
    requires 0x800 <= c < 0x1_0000
    ensures |Three(c)| == 3
  {
  }

  lemma DecodePair(c: int, lo: int, rest: seq<Byte>)
    requires IsHigh(c) && IsLow(lo)
    ensures K6Decode(Four(c, lo) + rest) == [c, lo] + K6Decode(rest)
  {
    FourValue(c, lo);
    FourLength(c, lo);
    hide Four, FromFour;
    var s := Four(c, lo) + rest;
    assert s[4..] == rest;
    assert DecodeHead(s) == [c, lo] && DecodeWidth(s) == 4;
  }

  lemma FourLength(c: int, lo: int)
    requires IsHigh(c) && IsLow(lo)
    ensures |Four(c, lo)| == 4
  {
  }

  /** The string with every broken high surrogate replaced by U+FFFD. */
  function Repaired(s: seq<CodeUnit>): (t: seq<CodeUnit>)
    ensures |t| == |s|
  {
    if s == [] then []
    else if StartsPair(s) then [s[0], s[1]] + Repaired(s[2..])
    else [if StartsBroken(s) then 0xFFFD else s[0]] + Repaired(s[1..])
  }

  lemma {:induction false} DecodeEncode(s: seq<CodeUnit>)
    ensures K6Decode(K6Encode(s)) == Repaired(s)
  {
    assert OneUnit(0xFFFD) == REPLACEMENT;
    hide OneUnit, Four, K6Decode;
    if s == [] {
      DecodeNothing();
    } else {
      if StartsPair(s) {
        DecodePair(s[0], s[1], K6Encode(s[2..]));
        DecodeEncode(s[2..]);
      } else {
        DecodeEncode(s[1..]);
        DecodeOneUnit(if StartsBroken(s) then 0xFFFD else s[0], K6Encode(s[1..]));
      }
    }
  }

  lemma DecodeNothing()
    ensures K6Decode([]) == []
  {
  }

  /** No high surrogate is followed by anything but its low surrogate (it may be last). */
  predicate Unbroken(s: seq<CodeUnit>) {
    forall i | 0 <= i < |s| - 1 && IsHigh(s[i]) :: IsLow(s[i + 1])
  }

  lemma {:induction false} RepairedSame(s: seq<CodeUnit>)
    ensures Repaired(s) == s <==> Unbroken(s)
  {
    if s != [] {
      if StartsPair(s) {
        RepairedSame(s[2..]);
        UnbrokenPair(s);
        assert s == [s[0], s[1]] + s[2..];
        assert Repaired(s)[2..] == Repaired(s[2..]);
      } else {
        RepairedSame(s[1..]);
        UnbrokenTail(s);
        assert s == [s[0]] + s[1..];
        assert Repaired(s)[1..] == Repaired(s[1..]);
        assert Repaired(s)[0] == if StartsBroken(s) then 0xFFFD else s[0];
      }
    }
  }

  lemma UnbrokenTail(s: seq<CodeUnit>)
    requires s != []
    ensures Unbroken(s) <==> !StartsBroken(s) && Unbroken(s[1..])
  {
    var t := s[1..];
    if Unbroken(s) {
      assert forall i | 0 <= i < |t| - 1 && IsHigh(t[i]) :: t[i] == s[i + 1] && t[i + 1] == s[i + 2];
    }
    if !StartsBroken(s) && Unbroken(t) {
      forall i | 0 <= i < |s| - 1 && IsHigh(s[i]) ensures IsLow(s[i + 1]) {
        if i > 0 { assert t[i - 1] == s[i] && t[i] == s[i + 1]; }
      }
    }
  }

  lemma UnbrokenPair(s: seq<CodeUnit>)
    requires StartsPair(s)
    ensures Unbroken(s) <==> Unbroken(s[2..])
  {
    UnbrokenTail(s);
    UnbrokenTail(s[1..]);
    assert s[1..][1..] == s[2..];
  }

  /** The k6 round trip restores a string exactly when no high surrogate is followed by
      anything but its low surrogate; in particular every well-formed string. */
  lemma RoundTripExact(s: seq<CodeUnit>)
    ensures K6Decode(K6Encode(s)) == s <==> Unbroken(s)
  {
    DecodeEncode(s);
    RepairedSame(s);
  }

  /** The two encoders agree on exactly the same strings. */
  lemma {:induction false} EncodersAgree(s: seq<CodeUnit>)
    ensures CryptoJsEncode(s) == K6Encode(s) <==> Unbroken(s)
  {
    if s != [] {
      if StartsPair(s) {
        EncodersAgree(s[2..]);
        UnbrokenPair(s);
        SameSuffix(Four(s[0], s[1]), CryptoJsEncode(s[2..]), Four(s[0], s[1]), K6Encode(s[2..]));
      } else {
        EncodersAgree(s[1..]);
        UnbrokenTail(s);
        var p := if StartsBroken(s) then REPLACEMENT else OneUnit(s[0]);
        SameSuffix(OneUnit(s[0]), CryptoJsEncode(s[1..]), p, K6Encode(s[1..]));
        if StartsBroken(s) {
          assert OneUnit(s[0])[0] == 0xED;
        }
      }
    }
  }

  lemma SameSuffix(p: seq<Byte>, x: seq<Byte>, q: seq<Byte>, y: seq<Byte>)
    requires |p| == |q|
    ensures p + x == q + y <==> p == q && x == y
  {
    if p + x == q + y {
      assert p == (p + x)[..|p|] && q == (q + y)[..|q|];
      assert x == (p + x)[|p|..] && y == (q + y)[|q|..];
    }
  }

  lemma {:induction false} WellFormedUnbroken(s: seq<CodeUnit>)
    requires WellFormed(s)
    ensures Unbroken(s)
  {
    if s != [] {
      if IsHigh(s[0]) {
        WellFormedUnbroken(s[2..]);
        UnbrokenPair(s);
      } else {
        WellFormedUnbroken(s[1..]);
        UnbrokenTail(s);
      }
    }
  }

  /** On every well-formed string both encoders produce the standard's bytes, and
      decoding them gives the string back. */
  lemma {:induction false} StandardOnWellFormed(s: seq<CodeUnit>)
    requires WellFormed(s)
    ensures K6Encode(s) == Standard(s) == CryptoJsEncode(s)
    ensures K6Decode(Standard(s)) == s
  {
    WellFormedUnbroken(s);
    EncodersAgree(s);
    RoundTripExact(s);
    EncodesStandard(s);
  }

  lemma {:induction false} EncodesStandard(s: seq<CodeUnit>)
    requires WellFormed(s)
    ensures K6Encode(s) == Standard(s)
  {
    if s != [] {
      if IsHigh(s[0]) {
        EncodesStandard(s[2..]);
        assert Four(s[0], s[1]) == Rfc3629(PairValue(s[0], s[1]));
      } else {
        EncodesStandard(s[1..]);
        assert OneUnit(s[0]) == Rfc3629(s[0]);
      }
    }
  }

  /** What CryptoJS encodes, lone surrogates included, decodes to itself, for every string. */
  lemma {:induction false} CryptoJsRoundTrip(s: seq<CodeUnit>)
    ensures K6Decode(CryptoJsEncode(s)) == s
  {
    hide OneUnit, Four, K6Decode;
    if s == [] {
      DecodeNothing();
    } else if StartsPair(s) {
      DecodePair(s[0], s[1], CryptoJsEncode(s[2..]));
      CryptoJsRoundTrip(s[2..]);
      assert s == [s[0], s[1]] + s[2..];
    } else {
      DecodeOneUnit(s[0], CryptoJsEncode(s[1..]));
      CryptoJsRoundTrip(s[1..]);
      assert s == [s[0]] + s[1..];
    }
  }

  /** The bytes that a lead byte asks for. */
  function Wanted(b: Byte): (n: nat) {
    if b < 0x80 then 1 else if b < 0xE0 then 2 else if b < 0xF0 then 3 else 4
  }

  /** A sequence cut off by the end of the input is read byte by byte, each as its own unit,
      unless what is left happens to be as long as a later byte asks for. */
  lemma TruncatedTail(b: Byte, rest: seq<Byte>)
    requires 1 + |rest| < Wanted(b)
    ensures K6Decode([b] + rest) == [b] + K6Decode(rest)
  {
    var bytes := [b] + rest;
    assert bytes[1..] == rest && DecodeWidth(bytes) == 1;
  }
}
