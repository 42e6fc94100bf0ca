/** The JavaScript base64 encoder and the two decoders beside it (section 4 of RFC 4648). */
module Base64 {
  import opened Text
  import Utf8

  type Byte = Utf8.Byte

  const UPPER := "ABCDEFGHIJKLMNOPQRSTUVWXYZ"
  const LOWER := "abcdefghijklmnopqrstuvwxyz"
  const DIGITS := "0123456789"
  const ALPHABET := UPPER + LOWER + DIGITS + "+/"

  function Char(i: int): (c: char)
    requires 0 <= i < 64
  {
    ALPHABET[i]
  }

  /** `alphabet.indexOf(c)` */
  function Index(c: char): (i: int)
    ensures -1 <= i < 64
  {
    var i := IndexOf(ALPHABET, c);
    if i < 64 then i else -1
  }

  lemma IndexOfChar(i: int)
    requires 0 <= i < 64
    ensures Index(Char(i)) == i && Char(i) != '='
  {
    DistinctChars(i, IndexOf(ALPHABET, Char(i)));
    PadOutside(i);
  }

  /** Where a character stands in the alphabet, by its range. */
  function Rank(c: char): (i: int) {
    if 'A' <= c <= 'Z' then c as int - 65
    else if 'a' <= c <= 'z' then c as int - 71
    else if '0' <= c <= '9' then c as int + 4
    else if c == '+' then 62
    else 63
  }

  lemma RankOfChar(i: int)
    requires 0 <= i < 64
    ensures Rank(ALPHABET[i]) == i && ALPHABET[i] != '='
  {
    hide Rank;
    FourAt(UPPER, LOWER, DIGITS, "+/", i);
    if i < 26 {
      UpperRank(i);
    } else if i < 52 {
      LowerRank(i - 26);
    } else if i < 62 {
      DigitRank(i - 52);
    } else {
      SignRank();
    }
  }

  lemma FourAt(a: string, b: string, c: string, d: string, i: int)
    requires |a| == 26 && |b| == 26 && |c| == 10 && |d| == 2 && 0 <= i < 64
    ensures (a + b + c + d)[i] ==
            if i < 26 then a[i] else if i < 52 then b[i - 26] else if i < 62 then c[i - 52] else d[i - 62]
  {
  }

  lemma UpperRank(i: int)
    requires 0 <= i < 26
    ensures Rank(UPPER[i]) == i && UPPER[i] != '='
  {
  }

  lemma LowerRank(i: int)
    requires 0 <= i < 26
    ensures Rank(LOWER[i]) == i + 26 && LOWER[i] != '='
  {
  }

  lemma DigitRank(i: int)
    requires 0 <= i < 10
    ensures Rank(DIGITS[i]) == i + 52 && DIGITS[i] != '='
  {
  }

  lemma SignRank()
    ensures Rank('+') == 62 && Rank('/') == 63
  {
  }

  lemma DistinctChars(i: int, j: int)
    requires 0 <= i < 64 && 0 <= j < 64 && ALPHABET[i] == ALPHABET[j]
    ensures i == j
  {
    RankOfChar(i);
    RankOfChar(j);
  }

  lemma PadOutside(i: int)
    requires 0 <= i < 64
    ensures Char(i) != '='
  {
    RankOfChar(i);
  }

  // ---------- the encoder ----------

  /** The four six-bit groups of three bytes. */
  function Quad(b0: int, b1: int, b2: int): (q: string)
    requires 0 <= b0 < 256 && 0 <= b1 < 256 && 0 <= b2 < 256
    ensures |q| == 4
  {
    var n := b0 * 65536 + b1 * 256 + b2;
    [Char((n / 262144) % 64), Char((n / 4096) % 64), Char((n / 64) % 64), Char(n % 64)]
  }

  /** Whole groups give four characters; a last group of one or two bytes is padded with
      zero bits and then with `=`. */
  function Encode(bytes: seq<Byte>): (s: string) {
    if bytes == [] then ""
    else if |bytes| == 1 then Quad(bytes[0], 0, 0)[..2] + "=="
    else if |bytes| == 2 then Quad(bytes[0], bytes[1], 0)[..3] + "="
    else Quad(bytes[0], bytes[1], bytes[2]) + Encode(bytes[3..])
  }

  /** The encoding before the end is replaced by padding. */
  function Unpadded(bytes: seq<Byte>): (s: string)
    ensures |bytes| > 0 ==> |s| >= 4
  {
    if bytes == [] then ""
    else
      var b1 := if |bytes| > 1 then bytes[1] else 0;
      var b2 := if |bytes| > 2 then bytes[2] else 0;
      Quad(bytes[0], b1, b2) + (if |bytes| > 3 then Unpadded(bytes[3..]) else "")
  }

  /** The end of the text replaced by as many pads as bytes are missing. */
  function PadEnd(s: string, over: int): (t: string)
    requires |s| >= 2 || over == 0
  {
    if over == 1 then s[..|s| - 2] + "==" else if over == 2 then s[..|s| - 1] + "=" else s
  }

  lemma PadEndPrefix(q: string, s: string, over: int)
    requires |s| >= 2
    ensures PadEnd(q + s, over) == q + PadEnd(s, over)
  {
    assert (q + s)[..|q + s| - 2] == q + s[..|s| - 2];
    assert (q + s)[..|q + s| - 1] == q + s[..|s| - 1];
  }

  lemma {:induction false} PaddingReplaced(bytes: seq<Byte>)
    ensures Encode(bytes) == PadEnd(Unpadded(bytes), |bytes| % 3)
    decreases |bytes|
  {
    hide Quad;
    if |bytes| > 3 {
      hide PadEnd;
      PaddingReplaced(bytes[3..]);
      PadEndPrefix(Quad(bytes[0], bytes[1], bytes[2]), Unpadded(bytes[3..]), |bytes| % 3);
    } else if |bytes| == 3 {
      assert bytes[3..] == [];
    }
  }

  method BytesToBase64(bytes: seq<Byte>) returns (out: string)
    ensures out == Encode(bytes)
  {
    hide Quad, Unpadded, Encode;
    out := WriteQuads(bytes);
    PaddingReplaced(bytes);
    var pad := |bytes| % 3;
    if pad == 1 {
      out := out[..|out| - 2] + "==";
    } else if pad == 2 {
      out := out[..|out| - 1] + "=";
    }
  }

  /** The loop: four characters for every group of three bytes, a short one filled up with zeros. */
  method WriteQuads(bytes: seq<Byte>) returns (out: string)
    ensures out == Unpadded(bytes)
  {
    hide Quad, Unpadded, From;
    out := "";
    var i := 0;
    FromEnds(bytes);
    while i < |bytes|
      invariant 0 <= i
      invariant out + From(bytes, i) == From(bytes, 0)
    {
      var b0 := bytes[i];
      var b1 := if i + 1 < |bytes| then bytes[i + 1] else 0;
      var b2 := if i + 2 < |bytes| then bytes[i + 2] else 0;
      FromStep(bytes, i);
      assert out + (Quad(b0, b1, b2) + From(bytes, i + 3)) == (out + Quad(b0, b1, b2)) + From(bytes, i + 3);
      out := out + Quad(b0, b1, b2);
      i := i + 3;
    }
    assert From(bytes, i) == "" && out + "" == out;
  }

  lemma FromEnds(bytes: seq<Byte>)
    ensures From(bytes, 0) == Unpadded(bytes) && forall i: nat | i >= |bytes| :: From(bytes, i) == ""
  {
    assert bytes[0..] == bytes;
    NothingUnpadded();
  }

  lemma NothingUnpadded()
    ensures Unpadded([]) == ""
  {
  }

  /** What the loop still has to write from position `i` on. */
  function From(bytes: seq<Byte>, i: nat): (s: string) {
    if i < |bytes| then Unpadded(bytes[i..]) else ""
  }

  lemma FromStep(bytes: seq<Byte>, i: nat)
    requires i < |bytes|
    ensures var b1 := if i + 1 < |bytes| then bytes[i + 1] else 0;
            var b2 := if i + 2 < |bytes| then bytes[i + 2] else 0;
            From(bytes, i) == Quad(bytes[i], b1, b2) + From(bytes, i + 3)
  {
    hide Quad;
    assert i + 3 < |bytes| ==> bytes[i..][3..] == bytes[i + 3..];
  }

  // ---------- the accumulator decoder ----------

  /** `buffer` is the 32-bit accumulator, read as unsigned; `bits` counts the pending ones. */
  function Accumulate(buffer: int, bits: int, s: string): (bytes: seq<int>)
    decreases |s|
  {
    if s == "" || s[0] == '=' then []
    else if Index(s[0]) < 0 then Accumulate(buffer, bits, s[1..])
    else
      var next := (buffer * 64 + Index(s[0])) % 0x1_0000_0000;
      if bits + 6 >= 8 then [(next / Power2(bits - 2)) % 256] + Accumulate(next, bits - 2, s[1..])
      else Accumulate(next, bits + 6, s[1..])
  }

  function Power2(n: int): (p: int)
    ensures p >= 1
  {
    if n <= 0 then 1 else 2 * Power2(n - 1)
  }

  function Decode(s: string): (bytes: seq<int>) {
    Accumulate(0, 0, s)
  }

  method Base64ToBytes(b64: string) returns (out: seq<int>)
    ensures out == Decode(b64)
  {
    hide Index, Power2;
    out := [];
    var buffer, bits := 0, 0;
    for i := 0 to |b64|
      invariant 0 <= bits < 8
      invariant out + Accumulate(buffer, bits, b64[i..]) == Decode(b64)
    {
      var c := b64[i];
      assert b64[i..][1..] == b64[i + 1..];
      if c == '=' { return; }
      var idx := Index(c);
      if idx < 0 { continue; }
      buffer := (buffer * 64 + idx) % 0x1_0000_0000;
      bits := bits + 6;
      if bits >= 8 {
        bits := bits - 8;
        out := out + [(buffer / Power2(bits)) % 256];
      }
    }
    assert b64[|b64|..] == "";
  }

  lemma Mod4096(n: int)
    ensures (n % 0x1_0000_0000) % 4096 == n % 4096
  {
  }

  lemma Mod1024(n: int)
    ensures (n % 0x1_0000_0000) % 1024 == n % 1024
  {
  }

  lemma Mod256(n: int)
    ensures (n % 0x1_0000_0000) % 256 == n % 256
  {
  }

  lemma Mod64(n: int)
    ensures (n % 0x1_0000_0000) % 64 == n % 64
  {
  }

  lemma Remainder4096(q: int, r: int)
    requires 0 <= r < 4096
    ensures (4096 * q + r) % 4096 == r
  {
  }

  lemma Remainder1024(q: int, r: int)
    requires 0 <= r < 1024
    ensures (1024 * q + r) % 1024 == r
  {
  }

  lemma Remainder256(q: int, r: int)
    requires 0 <= r < 256
    ensures (256 * q + r) % 256 == r
  {
  }

  lemma Bits16(m: int)
    ensures (m / 16) % 256 == (m % 4096) / 16
    ensures (m % 4096) % 16 == m % 16
  {
  }

  lemma Bits4(m: int)
    ensures (m / 4) % 256 == (m % 1024) / 4
    ensures (m % 1024) % 4 == m % 4
  {
  }

  /** Adding a six-bit group to the accumulator and dropping what is above 32 bits. */
  function Shifted(buffer: int, i: int): (next: int) {
    (buffer * 64 + i) % 0x1_0000_0000
  }

  lemma Shift1(buffer: int, i: int)
    requires 0 <= i < 64
    ensures Shifted(buffer, i) % 64 == i
  {
    Mod64(buffer * 64 + i);
  }

  lemma Shift2(buffer: int, i: int)
    requires 0 <= i < 64
    ensures (Shifted(buffer, i) / 16) % 256 == ((buffer % 64) * 64 + i) / 16
    ensures Shifted(buffer, i) % 16 == i % 16
  {
    hide Shifted;
    Low12(buffer, i);
    Bits16(Shifted(buffer, i));
  }

  lemma Low12(buffer: int, i: int)
    requires 0 <= i < 64
    ensures Shifted(buffer, i) % 4096 == (buffer % 64) * 64 + i
  {
    var q, r := buffer / 64, (buffer % 64) * 64 + i;
    assert buffer * 64 + i == 4096 * q + r;
    Mod4096(4096 * q + r);
    Remainder4096(q, r);
  }

  lemma Shift3(buffer: int, i: int)
    requires 0 <= i < 64
    ensures (Shifted(buffer, i) / 4) % 256 == ((buffer % 16) * 64 + i) / 4
    ensures Shifted(buffer, i) % 4 == i % 4
  {
    hide Shifted;
    Low10(buffer, i);
    Bits4(Shifted(buffer, i));
  }

  lemma Low10(buffer: int, i: int)
    requires 0 <= i < 64
    ensures Shifted(buffer, i) % 1024 == (buffer % 16) * 64 + i
  {
    var q, r := buffer / 16, (buffer % 16) * 64 + i;
    assert buffer * 64 + i == 1024 * q + r;
    Mod1024(1024 * q + r);
    Remainder1024(q, r);
  }

  lemma Shift4(buffer: int, i: int)
    requires 0 <= i < 64
    ensures Shifted(buffer, i) % 256 == (buffer % 4) * 64 + i
  {
    var q, r := buffer / 4, (buffer % 4) * 64 + i;
    assert buffer * 64 + i == 256 * q + r;
    Mod256(256 * q + r);
    Remainder256(q, r);
  }

  /** What one character of the alphabet does. */
  lemma OneChar(buffer: int, bits: int, i: int, s: string)
    requires 0 <= i < 64 && (bits == 0 || bits == 6 || bits == 4 || bits == 2)
    ensures var next := Shifted(buffer, i);
            Accumulate(buffer, bits, [Char(i)] + s) ==
            if bits == 0 then Accumulate(next, 6, s)
            else [(next / (if bits == 6 then 16 else if bits == 4 then 4 else 1)) % 256] + Accumulate(next, bits - 2, s)
  {
    hide Char, Index;
    IndexOfChar(i);
    assert ([Char(i)] + s)[1..] == s;
    assert Power2(0) == 1 && Power2(2) == 4 && Power2(4) == 16;
  }

  /** The six-bit groups give the bytes back. */
  lemma Groups(b0: int, b1: int, b2: int)
    requires 0 <= b0 < 256 && 0 <= b1 < 256 && 0 <= b2 < 256
    ensures var n := b0 * 65536 + b1 * 256 + b2;
            var i0, i1, i2, i3 := (n / 262144) % 64, (n / 4096) % 64, (n / 64) % 64, n % 64;
            && i0 == b0 / 4 && i1 == (b0 % 4) * 16 + b1 / 16 && i2 == (b1 % 16) * 4 + b2 / 64 && i3 == b2 % 64
  {
    Group0(b0, b1, b2);
    Group1(b0, b1, b2);
    Group2(b0, b1, b2);
  }

  lemma Group0(b0: int, b1: int, b2: int)
    requires 0 <= b0 < 256 && 0 <= b1 < 256 && 0 <= b2 < 256
    ensures var n := b0 * 65536 + b1 * 256 + b2; (n / 262144) % 64 == b0 / 4 && n % 64 == b2 % 64
  {
    var n := b0 * 65536 + b1 * 256 + b2;
    assert n == 262144 * (b0 / 4) + 65536 * (b0 % 4) + b1 * 256 + b2;
    assert n == 64 * (b0 * 1024 + b1 * 4) + b2;
  }

  lemma Group1(b0: int, b1: int, b2: int)
    requires 0 <= b0 < 256 && 0 <= b1 < 256 && 0 <= b2 < 256
    ensures var n := b0 * 65536 + b1 * 256 + b2; (n / 4096) % 64 == (b0 % 4) * 16 + b1 / 16
  {
    var n := b0 * 65536 + b1 * 256 + b2;
    var h := b1 / 16;
    assert n == 4096 * (b0 * 16 + h) + 256 * (b1 % 16) + b2;
    assert n / 4096 == b0 * 16 + h;
    assert b0 * 16 + h == 64 * (b0 / 4) + ((b0 % 4) * 16 + h);
    Divide64(b0 / 4, (b0 % 4) * 16 + h);
  }

  lemma Group2(b0: int, b1: int, b2: int)
    requires 0 <= b0 < 256 && 0 <= b1 < 256 && 0 <= b2 < 256
    ensures var n := b0 * 65536 + b1 * 256 + b2; (n / 64) % 64 == (b1 % 16) * 4 + b2 / 64
  {
    var n := b0 * 65536 + b1 * 256 + b2;
    var h := b2 / 64;
    var m := b0 * 1024 + b1 * 4 + h;
    assert n == 64 * m + b2 % 64;
    Divide64(m, b2 % 64);
    assert m == 64 * (b0 * 16 + b1 / 16) + ((b1 % 16) * 4 + h);
    Divide64(b0 * 16 + b1 / 16, (b1 % 16) * 4 + h);
  }

  lemma Divide64(q: int, r: int)
    requires 0 <= r < 64
    ensures (64 * q + r) / 64 == q && (64 * q + r) % 64 == r
  {
  }

  /** The first two characters give the first byte, whatever the accumulator held. */
  lemma FirstByte(buffer: int, b0: int, b1: int, s: string) returns (x: int)
    requires 0 <= b0 < 256 && 0 <= b1 < 256
    ensures var i0, i1 := b0 / 4, (b0 % 4) * 16 + b1 / 16;
            Accumulate(buffer, 0, [Char(i0), Char(i1)] + s) == [b0] + Accumulate(x, 4, s)
    ensures x % 16 == b1 / 16
  {
    hide Accumulate, Char, Shifted;
    var i0, i1 := b0 / 4, (b0 % 4) * 16 + b1 / 16;
    var y := Shifted(buffer, i0);
    x := Shifted(y, i1);
    OneChar(buffer, 0, i0, [Char(i1)] + s);
    OneChar(y, 6, i1, s);
    assert [Char(i0), Char(i1)] + s == [Char(i0)] + ([Char(i1)] + s);
    Shift1(buffer, i0);
    Shift2(y, i1);
    assert (i0 * 64 + i1) / 16 == b0;
  }

  lemma SecondByte(x: int, b1: int, b2: int, s: string) returns (z: int)
    requires 0 <= b1 < 256 && 0 <= b2 < 256 && x % 16 == b1 / 16
    ensures Accumulate(x, 4, [Char((b1 % 16) * 4 + b2 / 64)] + s) == [b1] + Accumulate(z, 2, s)
    ensures z % 4 == b2 / 64
  {
    hide Accumulate, Char, Shifted;
    var i2 := (b1 % 16) * 4 + b2 / 64;
    z := Shifted(x, i2);
    OneChar(x, 4, i2, s);
    Shift3(x, i2);
    assert ((b1 / 16) * 64 + i2) / 4 == b1;
  }

  lemma ThirdByte(z: int, b2: int, s: string) returns (next: int)
    requires 0 <= b2 < 256 && z % 4 == b2 / 64
    ensures Accumulate(z, 2, [Char(b2 % 64)] + s) == [b2] + Accumulate(next, 0, s)
  {
    hide Accumulate, Char, Shifted;
    next := Shifted(z, b2 % 64);
    OneChar(z, 2, b2 % 64, s);
    Shift4(z, b2 % 64);
    assert (b2 / 64) * 64 + b2 % 64 == b2;
  }

  lemma QuadChars(b0: int, b1: int, b2: int)
    requires 0 <= b0 < 256 && 0 <= b1 < 256 && 0 <= b2 < 256
    ensures Quad(b0, b1, b2) ==
            [Char(b0 / 4), Char((b0 % 4) * 16 + b1 / 16), Char((b1 % 16) * 4 + b2 / 64), Char(b2 % 64)]
  {
    hide Char;
    Groups(b0, b1, b2);
  }

  lemma AccumulateQuad(buffer: int, b0: int, b1: int, b2: int, s: string) returns (next: int)
    requires 0 <= b0 < 256 && 0 <= b1 < 256 && 0 <= b2 < 256
    ensures Accumulate(buffer, 0, Quad(b0, b1, b2) + s) == [b0, b1, b2] + Accumulate(next, 0, s)
  {
    hide Accumulate, Char, Quad;
    QuadChars(b0, b1, b2);
    var q := Quad(b0, b1, b2);
    assert q + s == [q[0], q[1]] + ([q[2]] + ([q[3]] + s));
    var x := FirstByte(buffer, b0, b1, [q[2]] + ([q[3]] + s));
    var z := SecondByte(x, b1, b2, [q[3]] + s);
    next := ThirdByte(z, b2, s);
  }

  lemma AccumulateTwo(buffer: int, b0: int, b1: int)
    requires 0 <= b0 < 256 && 0 <= b1 < 256
    ensures Accumulate(buffer, 0, Quad(b0, b1, 0)[..3] + "=") == [b0, b1]
  {
    hide Accumulate, Char, Quad;
    QuadChars(b0, b1, 0);
    var q := Quad(b0, b1, 0);
    assert q[..3] + "=" == [q[0], q[1]] + ([q[2]] + "=");
    var x := FirstByte(buffer, b0, b1, [q[2]] + "=");
    var z := SecondByte(x, b1, 0, "=");
    AtPad(z, 2, "");
    assert "=" + "" == "=";
  }

  lemma AccumulateOne(buffer: int, b0: int)
    requires 0 <= b0 < 256
    ensures Accumulate(buffer, 0, Quad(b0, 0, 0)[..2] + "==") == [b0]
  {
    hide Accumulate, Char, Quad;
    QuadChars(b0, 0, 0);
    var q := Quad(b0, 0, 0);
    assert q[..2] + "==" == [q[0], q[1]] + "==";
    var x := FirstByte(buffer, b0, 0, "==");
    AtPad(x, 4, "=");
    assert "=" + "=" == "==";
  }

  lemma AtEnd(buffer: int)
    ensures Accumulate(buffer, 0, "") == []
  {
  }

  lemma AtPad(buffer: int, bits: int, s: string)
    ensures Accumulate(buffer, bits, "=" + s) == []
  {
  }

  /** Whatever the accumulator holds from earlier groups, decoding restores the bytes. */
  lemma {:induction false} AccumulateEncode(buffer: int, bytes: seq<Byte>)
    ensures Accumulate(buffer, 0, Encode(bytes)) == bytes
    decreases |bytes|
  {
    hide Quad, Accumulate;
    if bytes == [] {
      AtEnd(buffer);
    } else if |bytes| == 1 {
      AccumulateOne(buffer, bytes[0]);
    } else if |bytes| == 2 {
      AccumulateTwo(buffer, bytes[0], bytes[1]);
    } else {
      var next := AccumulateQuad(buffer, bytes[0], bytes[1], bytes[2], Encode(bytes[3..]));
      AccumulateEncode(next, bytes[3..]);
      assert bytes == [bytes[0], bytes[1], bytes[2]] + bytes[3..];
    }
  }

  // ---------- the quad decoder ----------

  predicate IsBase64Char(c: char) {
    Index(c) >= 0 || c == '='
  }

  /** `replace(/[^A-Za-z0-9+/=]/g, '')` */
  function Clean(s: string): (t: string) {
    if s == "" then "" else (if IsBase64Char(s[0]) then [s[0]] else "") + Clean(s[1..])
  }

  function Fill(s: string): (t: string)
    ensures |t| % 4 == 0
    decreases (4 - |s| % 4) % 4
  {
    if |s| % 4 == 0 then s else Fill(s + "=")
  }

  /** The bytes of one quad, or nothing when its first two characters are not digits. */
  function QuadBytes(q: string): (bytes: Option<seq<int>>)
    requires |q| == 4
  {
    var e1, e2 := Index(q[0]), Index(q[1]);
    var e3 := if q[2] == '=' then -1 else Index(q[2]);
    var e4 := if q[3] == '=' then -1 else Index(q[3]);
    if e1 < 0 || e2 < 0 then None
    else Some([e1 * 4 + e2 / 16]
              + (if e3 >= 0 then [(e2 % 16) * 16 + e3 / 4] else [])
              + (if e4 >= 0 then [(e3 % 4) * 64 + e4] else []))
  }

  function Quads(s: string): (bytes: Option<seq<int>>)
    requires |s| % 4 == 0
  {
    if s == "" then Some([])
    else
      var head := QuadBytes(s[..4]);
      var rest := Quads(s[4..]);
      if head.None? || rest.None? then None else Some(head.value + rest.value)
  }

  function OpenDecode(s: string): (bytes: Option<seq<int>>) {
    Quads(Fill(Clean(s)))
  }

  method OpenDataBase64ToBytes(b64: string) returns (r: Option<seq<int>>)
    ensures r == OpenDecode(b64)
  {
    hide Quads, Clean, Fill;
    var clean := CleanText(b64);
    clean := FillText(clean);
    r := DecodeQuads(clean);
  }

  method FillText(s: string) returns (t: string)
    ensures t == Fill(s)
  {
    t := s;
    while |t| % 4 != 0
      invariant Fill(t) == Fill(s)
      decreases 4 - |t| % 4
    {
      ghost var more := t + "=";
      assert |more| % 4 == (|t| % 4 + 1) % 4;
      t := t + "=";
      if |t| % 4 == 0 { return; }
    }
  }

  method DecodeQuads(clean: string) returns (r: Option<seq<int>>)
    requires |clean| % 4 == 0
    ensures r == Quads(clean)
  {
    hide QuadBytes;
    var bytes: seq<int> := [];
    var i := 0;
    assert clean[0..] == clean;
    if Quads(clean).Some? { assert [] + Quads(clean).value == Quads(clean).value; }
    while i < |clean|
      invariant 0 <= i <= |clean| && i % 4 == 0
      invariant Quads(clean) == Prepended(bytes, Quads(clean[i..]))
    {
      assert clean[i..][..4] == clean[i..i + 4] && clean[i..][4..] == clean[i + 4..];
      var quad := QuadBytes(clean[i..i + 4]);
      if quad.None? { return None; }
      ghost var rest := Quads(clean[i + 4..]);
      if rest.Some? { assert bytes + (quad.value + rest.value) == (bytes + quad.value) + rest.value; }
      bytes := bytes + quad.value;
      i := i + 4;
    }
    assert clean[|clean|..] == "" && bytes + [] == bytes;
    return Some(bytes);
  }

  function Prepended(bytes: seq<int>, rest: Option<seq<int>>): (r: Option<seq<int>>) {
    if rest.None? then None else Some(bytes + rest.value)
  }

  method CleanText(s: string) returns (t: string)
    ensures t == Clean(s)
  {
    hide IsBase64Char;
    t := "";
    for i := 0 to |s|
      invariant t + Clean(s[i..]) == Clean(s)
    {
      assert s[i..][1..] == s[i + 1..];
      if IsBase64Char(s[i]) { t := t + [s[i]]; }
    }
    assert s[|s|..] == "";
  }

  lemma {:induction false} CleanSame(s: string)
    requires forall c | c in s :: IsBase64Char(c)
    ensures Clean(s) == s
  {
    if s != "" {
      assert s[0] in s;
      CleanSame(s[1..]);
    }
  }

  lemma QuadClean(b0: int, b1: int, b2: int)
    requires 0 <= b0 < 256 && 0 <= b1 < 256 && 0 <= b2 < 256
    ensures forall c | c in Quad(b0, b1, b2) :: IsBase64Char(c)
  {
    QuadChars(b0, b1, b2);
    hide Char, Index, Quad;
    IndexOfChar(b0 / 4);
    IndexOfChar((b0 % 4) * 16 + b1 / 16);
    IndexOfChar((b1 % 16) * 4 + b2 / 64);
    IndexOfChar(b2 % 64);
  }

  lemma {:induction false} EncodeClean(bytes: seq<Byte>)
    ensures |Encode(bytes)| % 4 == 0 && forall c | c in Encode(bytes) :: IsBase64Char(c)
    decreases |bytes|
  {
    hide Quad, IsBase64Char;
    assert IsBase64Char('=') by { PadIsChar(); }
    if |bytes| == 1 {
      QuadClean(bytes[0], 0, 0);
    } else if |bytes| == 2 {
      QuadClean(bytes[0], bytes[1], 0);
    } else if |bytes| >= 3 {
      QuadClean(bytes[0], bytes[1], bytes[2]);
      EncodeClean(bytes[3..]);
    }
  }

  lemma PadIsChar()
    ensures IsBase64Char('=')
  {
  }

  lemma ByteValues(b0: int, b1: int, b2: int)
    requires 0 <= b0 < 256 && 0 <= b1 < 256 && 0 <= b2 < 256
    ensures var e1, e2, e3, e4 := b0 / 4, (b0 % 4) * 16 + b1 / 16, (b1 % 16) * 4 + b2 / 64, b2 % 64;
            e1 * 4 + e2 / 16 == b0 && (e2 % 16) * 16 + e3 / 4 == b1 && (e3 % 4) * 64 + e4 == b2
  {
    var e2, e3 := (b0 % 4) * 16 + b1 / 16, (b1 % 16) * 4 + b2 / 64;
    assert e2 / 16 == b0 % 4 && e2 % 16 == b1 / 16;
    assert e3 / 4 == b1 % 16 && e3 % 4 == b2 / 64;
  }

  /** A full quad, and the two padded ones. */
  lemma QuadInverse(b0: int, b1: int, b2: int)
    requires 0 <= b0 < 256 && 0 <= b1 < 256 && 0 <= b2 < 256
    ensures QuadBytes(Quad(b0, b1, b2)) == Some([b0, b1, b2])
    ensures b2 == 0 ==> QuadBytes(Quad(b0, b1, b2)[..3] + "=") == Some([b0, b1])
    ensures b1 == 0 && b2 == 0 ==> QuadBytes(Quad(b0, b1, b2)[..2] + "==") == Some([b0])
  {
    hide Char, Index, Quad;
    QuadChars(b0, b1, b2);
    ByteValues(b0, b1, b2);
    var e1, e2, e3, e4 := b0 / 4, (b0 % 4) * 16 + b1 / 16, (b1 % 16) * 4 + b2 / 64, b2 % 64;
    IndexOfChar(e1);
    IndexOfChar(e2);
    IndexOfChar(e3);
    IndexOfChar(e4);
    var q := Quad(b0, b1, b2);
    assert [b0] + [b1] + [b2] == [b0, b1, b2];
    assert [b0] + [b1] + [] == [b0, b1];
    assert [b0] + [] + [] == [b0];
    assert QuadBytes(q) == Some([b0] + [b1] + [b2]);
    assert QuadBytes(q[..3] + "=") == Some([b0] + [b1] + []);
    assert QuadBytes(q[..2] + "==") == Some([b0] + [] + []);
  }

  lemma {:induction false} QuadsEncode(bytes: seq<Byte>)
    requires |Encode(bytes)| % 4 == 0
    ensures Quads(Encode(bytes)) == Some(bytes)
    decreases |bytes|
  {
    hide Quad, QuadBytes;
    var s := Encode(bytes);
    if bytes == [] {
    } else if |bytes| <= 2 {
      QuadInverse(bytes[0], if |bytes| == 2 then bytes[1] else 0, 0);
      assert s[..4] == s && s[4..] == "";
      assert |bytes| == 1 ==> bytes == [bytes[0]] + [];
      assert |bytes| == 2 ==> bytes == [bytes[0], bytes[1]] + [];
    } else {
      QuadInverse(bytes[0], bytes[1], bytes[2]);
      EncodeClean(bytes[3..]);
      QuadsEncode(bytes[3..]);
      assert s[..4] == Quad(bytes[0], bytes[1], bytes[2]) && s[4..] == Encode(bytes[3..]);
      assert bytes == [bytes[0], bytes[1], bytes[2]] + bytes[3..];
    }
  }

  /** Both decoders invert the encoder, on byte sequences of any length. */
  lemma BothInvert(bytes: seq<Byte>)
    ensures Decode(Encode(bytes)) == bytes
    ensures OpenDecode(Encode(bytes)) == Some(bytes)
  {
    hide Encode, Accumulate, Quads, Clean;
    AccumulateEncode(0, bytes);
    EncodeClean(bytes);
    CleanSame(Encode(bytes));
    QuadsEncode(bytes);
  }

  // ---------- the alphabet and the test vectors ----------

  /** The alphabet of section 4 of RFC 4648: `A` to `Z`, `a` to `z`, `0` to `9`, `+` and `/`. */
  lemma AlphabetOrder(i: int)
    requires 0 <= i < 64
    ensures Char(i) as int == if i < 26 then 'A' as int + i
                              else if i < 52 then 'a' as int + i - 26
                              else if i < 62 then '0' as int + i - 52
                              else if i == 62 then '+' as int else '/' as int
  {
    RankOfChar(i);
    FourAt(UPPER, LOWER, DIGITS, "+/", i);
  }

  // ---------- text that is not as the encoder writes it ----------

  /** Characters outside the alphabet are skipped, and a pad ends the text. */
  lemma {:induction false} AccumulateCleans(buffer: int, bits: int, s: string)
    ensures Accumulate(buffer, bits, s) == Accumulate(buffer, bits, Clean(s))
    decreases |s|
  {
    hide Index, Power2;
    if s != "" && s[0] != '=' {
      if Index(s[0]) < 0 {
        assert Clean(s) == Clean(s[1..]);
        AccumulateCleans(buffer, bits, s[1..]);
      } else {
        assert Clean(s)[0] == s[0] && Clean(s)[1..] == Clean(s[1..]);
        var next := (buffer * 64 + Index(s[0])) % 0x1_0000_0000;
        AccumulateCleans(next, if bits + 6 >= 8 then bits - 2 else bits + 6, s[1..]);
      }
    } else if s != "" {
      assert Clean(s)[0] == '=';
    }
  }

  /** Both decoders read an encoding through blanks, line breaks and other foreign characters. */
  lemma ForeignIgnored(s: string, bytes: seq<Byte>)
    requires Clean(s) == Encode(bytes)
    ensures Decode(s) == bytes && OpenDecode(s) == Some(bytes)
  {
    hide Accumulate, Quads, Encode;
    AccumulateCleans(0, 0, s);
    AccumulateEncode(0, bytes);
    BothInvert(bytes);
    EncodeClean(bytes);
    CleanSame(Encode(bytes));
  }

  /** What is kept, told without the alphabet: letters, digits, `+`, `/` and `=`. */
  lemma KeptChars(c: char)
    ensures IsBase64Char(c) <==>
            'A' <= c <= 'Z' || 'a' <= c <= 'z' || '0' <= c <= '9' || c == '+' || c == '/' || c == '='
  {
    hide Index;
    if Index(c) >= 0 {
      CharOfIndex(c);
      AlphabetOrder(Index(c));
    }
    if 'A' <= c <= 'Z' || 'a' <= c <= 'z' || '0' <= c <= '9' || c == '+' || c == '/' { IndexOfRank(c); }
  }

  lemma CharOfIndex(c: char)
    requires Index(c) >= 0
    ensures Char(Index(c)) == c
  {
  }

  lemma IndexOfRank(c: char)
    requires 'A' <= c <= 'Z' || 'a' <= c <= 'z' || '0' <= c <= '9' || c == '+' || c == '/'
    ensures Index(c) >= 0
  {
    hide Index;
    var i := if 'A' <= c <= 'Z' then c as int - 'A' as int
             else if 'a' <= c <= 'z' then c as int - 'a' as int + 26
             else if '0' <= c <= '9' then c as int - '0' as int + 52
             else if c == '+' then 62 else 63;
    AlphabetOrder(i);
    hide Char;
    IndexOfChar(i);
    assert Char(i) == c;
  }

  /** A pad is the first or second character of a group of four. */
  predicate PadsEarly(s: string) {
    exists i :: 0 <= i < |s| && i % 4 < 2 && s[i] == '='
  }

  lemma {:induction false} QuadsFail(s: string)
    requires |s| % 4 == 0 && forall c | c in s :: IsBase64Char(c)
    ensures Quads(s).None? <==> PadsEarly(s)
  {
    hide Index;
    if s != "" {
      var rest := s[4..];
      QuadsFail(rest);
      assert s[0] in s && s[1] in s;
      PadIndex();
      assert QuadBytes(s[..4]).None? <==> s[0] == '=' || s[1] == '=';
      hide QuadBytes;
      if Quads(rest).None? {
        var i :| 0 <= i < |rest| && i % 4 < 2 && rest[i] == '=';
        assert s[i + 4] == '=' && (i + 4) % 4 < 2;
      }
      if exists i :: 0 <= i < |s| && i % 4 < 2 && s[i] == '=' {
        var i :| 0 <= i < |s| && i % 4 < 2 && s[i] == '=';
        if i >= 4 { assert rest[i - 4] == '=' && (i - 4) % 4 < 2; }
      }
    }
  }

  lemma PadIndex()
    ensures Index('=') < 0
  {
    if Index('=') >= 0 { PadOutside(Index('=')); }
  }

  /** The second decoder gives up exactly when, of what it keeps, a pad is the first or second
      character of a group of four. */
  lemma OpenFailsExactly(s: string)
    ensures OpenDecode(s).None? <==> PadsEarly(Fill(Clean(s)))
  {
    hide Quads, PadsEarly;
    CleanKeeps(s);
    FillKeeps(Clean(s));
    QuadsFail(Fill(Clean(s)));
  }

  lemma {:induction false} CleanKeeps(s: string)
    ensures forall c | c in Clean(s) :: IsBase64Char(c)
  {
    if s != "" { CleanKeeps(s[1..]); }
  }

  /** Filling up adds fewer than four pads. */
  lemma {:induction false} FillKeeps(s: string)
    requires forall c | c in s :: IsBase64Char(c)
    ensures forall c | c in Fill(s) :: IsBase64Char(c)
    ensures s <= Fill(s) && |Fill(s)| < |s| + 4 && forall i | |s| <= i < |Fill(s)| :: Fill(s)[i] == '='
    decreases (4 - |s| % 4) % 4
  {
    if |s| % 4 != 0 {
      PadIsChar();
      var t := s + "=";
      assert |t| % 4 == (|s| % 4 + 1) % 4;
      if |t| % 4 != 0 { FillKeeps(t); }
    }
  }
}
