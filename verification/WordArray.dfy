/** CryptoJS word arrays: bytes packed big-endian into 32-bit words, with a byte count that
    may end inside a word, and the OpenSSL `Salted__` envelope built from them. */
module WordArray {
  import opened Text

  type Word = bv32
  type Byte = b: bv32 | b <= 0xff

  /** Reading past the end of the array gives `undefined`, which the bit operations take as zero. */
  function WordAt(words: seq<Word>, i: nat): (w: Word) {
    if i < |words| then words[i] else 0
  }

  /** `(w >>> (24 - k * 8)) & 0xff` */
  function ByteOf(w: Word, k: nat): (b: Byte)
    requires k < 4
  {
    if k == 0 then (w >> 24) & 0xff
    else if k == 1 then (w >> 16) & 0xff
    else if k == 2 then (w >> 8) & 0xff
    else w & 0xff
  }

  /** `b << (24 - k * 8)` */
  function Placed(b: Byte, k: nat): (w: Word)
    requires k < 4
  {
    if k == 0 then b << 24
    else if k == 1 then b << 16
    else if k == 2 then b << 8
    else b
  }

  function ByteAt(words: seq<Word>, i: nat): (b: Byte) {
    ByteOf(WordAt(words, i / 4), i % 4)
  }

  function BytesOf(words: seq<Word>, n: nat): (bytes: seq<Byte>)
    ensures |bytes| == n
  {
    seq(n, i requires 0 <= i < n => ByteAt(words, i))
  }

  /** The first byte of a word is its most significant one. */
  lemma BigEndian(w: Word)
    ensures w == (ByteOf(w, 0) << 24) | (ByteOf(w, 1) << 16) | (ByteOf(w, 2) << 8) | ByteOf(w, 3)
  {
  }

  // ---------- assignments past the end, and changes of length ----------

  function Zeros(n: nat): (ws: seq<Word>)
    ensures |ws| == n && forall i | 0 <= i < n :: ws[i] == 0
  {
    seq(n, i => 0)
  }

  /** `words[i] = w` */
  function Assign(words: seq<Word>, i: nat, w: Word): (r: seq<Word>)
    ensures forall j: nat :: WordAt(r, j) == if j == i then w else WordAt(words, j)
  {
    if i < |words| then words[i := w] else words + Zeros(i - |words|) + [w]
  }

  /** `words.length = n` */
  function Resize(words: seq<Word>, n: nat): (r: seq<Word>)
    ensures |r| == n && forall j: nat :: WordAt(r, j) == if j < n then WordAt(words, j) else 0
  {
    if n <= |words| then words[..n] else words + Zeros(n - |words|)
  }

  /** The mask `0xffffffff << (32 - r * 8)`; a shift by 32 is a shift by 0. */
  function KeepMask(r: nat): (m: Word)
    requires r < 4
  {
    if r == 0 then 0xffffffff else if r == 1 then 0xff000000 else if r == 2 then 0xffff0000 else 0xffffff00
  }

  function Masked(w: Word, r: nat): (m: Word)
    requires r < 4
  {
    w & KeepMask(r)
  }

  function Merged(w: Word, b: Byte, k: nat): (m: Word)
    requires k < 4
  {
    w | Placed(b, k)
  }

  lemma MaskBytes(w: Word, r: nat, k: nat)
    requires r < 4 && k < 4
    ensures r > 0 ==> ByteOf(Masked(w, r), k) == if k < r then ByteOf(w, k) else 0
    ensures r == 0 ==> Masked(w, r) == w
  {
    hide ByteOf, Masked;
    Mask0(w);
    Mask1(w);
    Mask2(w);
    Mask3(w);
  }

  lemma Mask0(w: Word)
    ensures Masked(w, 0) == w
  {
    MaskShifts(w);
  }

  lemma Mask1(w: Word)
    ensures var m := Masked(w, 1);
            && ByteOf(m, 0) == ByteOf(w, 0) && ByteOf(m, 1) == 0
            && ByteOf(m, 2) == 0 && ByteOf(m, 3) == 0
  {
    MaskShifts(w);
  }

  lemma Mask2(w: Word)
    ensures var m := Masked(w, 2);
            && ByteOf(m, 0) == ByteOf(w, 0) && ByteOf(m, 1) == ByteOf(w, 1)
            && ByteOf(m, 2) == 0 && ByteOf(m, 3) == 0
  {
    MaskShifts(w);
  }

  lemma Mask3(w: Word)
    ensures var m := Masked(w, 3);
            && ByteOf(m, 0) == ByteOf(w, 0) && ByteOf(m, 1) == ByteOf(w, 1)
            && ByteOf(m, 2) == ByteOf(w, 2) && ByteOf(m, 3) == 0
  {
    MaskShifts(w);
  }

  /** The masks of `KeepMask` seen through each of the four shifts. */
  lemma MaskShifts(w: bv32)
    ensures w & 0xffffffff == w
    ensures ((w & 0xff000000) >> 24) & 0xff == (w >> 24) & 0xff
    ensures ((w & 0xff000000) >> 16) & 0xff == ((w & 0xff000000) >> 8) & 0xff == (w & 0xff000000) & 0xff == 0
    ensures ((w & 0xffff0000) >> 24) & 0xff == (w >> 24) & 0xff && ((w & 0xffff0000) >> 16) & 0xff == (w >> 16) & 0xff
    ensures ((w & 0xffff0000) >> 8) & 0xff == (w & 0xffff0000) & 0xff == 0
    ensures ((w & 0xffffff00) >> 24) & 0xff == (w >> 24) & 0xff && ((w & 0xffffff00) >> 16) & 0xff == (w >> 16) & 0xff
    ensures ((w & 0xffffff00) >> 8) & 0xff == (w >> 8) & 0xff && (w & 0xffffff00) & 0xff == 0
  {
  }

  lemma PlacedBytes(w: Word, b: Byte, p: nat, k: nat)
    requires p < 4 && k < 4
    ensures ByteOf(w, k) == 0 || k != p ==> ByteOf(Merged(w, b, p), k) == if k == p then b else ByteOf(w, k)
  {
    hide ByteOf, Merged;
    Placed0(w, b);
    Placed1(w, b);
    Placed2(w, b);
    Placed3(w, b);
  }

  lemma Placed0(w: Word, b: Byte)
    ensures var m := Merged(w, b, 0);
            && (ByteOf(w, 0) == 0 ==> ByteOf(m, 0) == b)
            && ByteOf(m, 1) == ByteOf(w, 1) && ByteOf(m, 2) == ByteOf(w, 2) && ByteOf(m, 3) == ByteOf(w, 3)
  {
    OrShift24(w, b);
  }

  lemma Placed1(w: Word, b: Byte)
    ensures var m := Merged(w, b, 1);
            && (ByteOf(w, 1) == 0 ==> ByteOf(m, 1) == b)
            && ByteOf(m, 0) == ByteOf(w, 0) && ByteOf(m, 2) == ByteOf(w, 2) && ByteOf(m, 3) == ByteOf(w, 3)
  {
    OrShift16(w, b);
  }

  lemma Placed2(w: Word, b: Byte)
    ensures var m := Merged(w, b, 2);
            && (ByteOf(w, 2) == 0 ==> ByteOf(m, 2) == b)
            && ByteOf(m, 0) == ByteOf(w, 0) && ByteOf(m, 1) == ByteOf(w, 1) && ByteOf(m, 3) == ByteOf(w, 3)
  {
    OrShift8(w, b);
  }

  lemma Placed3(w: Word, b: Byte)
    ensures var m := Merged(w, b, 3);
            && (ByteOf(w, 3) == 0 ==> ByteOf(m, 3) == b)
            && ByteOf(m, 0) == ByteOf(w, 0) && ByteOf(m, 1) == ByteOf(w, 1) && ByteOf(m, 2) == ByteOf(w, 2)
  {
    OrShift0(w, b);
  }

  lemma OrShift24(w: bv32, b: bv32)
    requires b <= 0xff
    ensures (w >> 24) & 0xff == 0 ==> ((w | (b << 24)) >> 24) & 0xff == b
    ensures ((w | (b << 24)) >> 16) & 0xff == (w >> 16) & 0xff
    ensures ((w | (b << 24)) >> 8) & 0xff == (w >> 8) & 0xff
    ensures (w | (b << 24)) & 0xff == w & 0xff
  {
  }

  lemma OrShift16(w: bv32, b: bv32)
    requires b <= 0xff
    ensures ((w | (b << 16)) >> 24) & 0xff == (w >> 24) & 0xff
    ensures (w >> 16) & 0xff == 0 ==> ((w | (b << 16)) >> 16) & 0xff == b
    ensures ((w | (b << 16)) >> 8) & 0xff == (w >> 8) & 0xff
    ensures (w | (b << 16)) & 0xff == w & 0xff
  {
  }

  lemma OrShift8(w: bv32, b: bv32)
    requires b <= 0xff
    ensures ((w | (b << 8)) >> 24) & 0xff == (w >> 24) & 0xff
    ensures ((w | (b << 8)) >> 16) & 0xff == (w >> 16) & 0xff
    ensures (w >> 8) & 0xff == 0 ==> ((w | (b << 8)) >> 8) & 0xff == b
    ensures (w | (b << 8)) & 0xff == w & 0xff
  {
  }

  lemma OrShift0(w: bv32, b: bv32)
    requires b <= 0xff
    ensures ((w | b) >> 24) & 0xff == (w >> 24) & 0xff
    ensures ((w | b) >> 16) & 0xff == (w >> 16) & 0xff
    ensures ((w | b) >> 8) & 0xff == (w >> 8) & 0xff
    ensures w & 0xff == 0 ==> (w | b) & 0xff == b
  {
  }

  lemma ZeroBytes(k: nat)
    requires k < 4
    ensures ByteOf(0, k) == 0
  {
  }

  /** `words[p >>> 2] |= b << (24 - (p % 4) * 8)` */
  function OrByte(words: seq<Word>, p: nat, b: Byte): (r: seq<Word>) {
    Assign(words, p / 4, Merged(WordAt(words, p / 4), b, p % 4))
  }

  /** Into a cleared position the byte is written; every other byte stays. */
  lemma OrByteAt(words: seq<Word>, p: nat, b: Byte, j: nat)
    requires ByteAt(words, p) == 0
    ensures ByteAt(OrByte(words, p, b), j) == if j == p then b else ByteAt(words, j)
  {
    hide ByteOf, Merged;
    if j / 4 == p / 4 {
      PlacedBytes(WordAt(words, p / 4), b, p % 4, j % 4);
    }
  }

  function Clamped(words: seq<Word>, sigBytes: nat): (r: seq<Word>) {
    Resize(Assign(words, sigBytes / 4, Masked(WordAt(words, sigBytes / 4), sigBytes % 4)), (sigBytes + 3) / 4)
  }

  /** Clamping keeps the counted bytes and clears everything after them. */
  lemma ClampedAt(words: seq<Word>, sigBytes: nat, j: nat)
    ensures ByteAt(Clamped(words, sigBytes), j) == if j < sigBytes then ByteAt(words, j) else 0
    ensures |Clamped(words, sigBytes)| == (sigBytes + 3) / 4
  {
    hide ByteOf, Masked;
    ZeroBytes(j % 4);
    if j / 4 == sigBytes / 4 {
      MaskBytes(WordAt(words, sigBytes / 4), sigBytes % 4, j % 4);
    }
  }

  lemma ClampedBytes(words: seq<Word>, sigBytes: nat)
    ensures BytesOf(Clamped(words, sigBytes), sigBytes) == BytesOf(words, sigBytes)
  {
    hide ByteAt, Clamped;
    forall j | 0 <= j < sigBytes ensures ByteAt(Clamped(words, sigBytes), j) == ByteAt(words, j) {
      ClampedAt(words, sigBytes, j);
    }
  }

  // ---------- the object ----------

  /** A JavaScript array of words; several word arrays may hold the same one. */
  class WordList {
    var data: seq<Word>

    constructor (data: seq<Word>)
      ensures this.data == data
    {
      this.data := data;
    }
  }

  /** A byte count of zero is taken as missing. */
  function Counted(words: seq<Word>, sigBytes: nat): (n: nat) {
    if sigBytes == 0 then 4 * |words| else sigBytes
  }

  /** Byte `i` of the appended array as the code reads it, `n` being the count of the array that is
      appended to.  When both hold the same list, clamping has cleared it from `n` on, and the merge
      then reads back what it has just written. */
  function ReadByte(n: nat, others: seq<Word>, shared: bool, i: nat): (b: Byte) {
    if !shared || i < n then ByteAt(others, i)
    else if n % 4 == 0 then 0
    else ByteAt(others, i % n)
  }

  function ReadBytes(n: nat, others: seq<Word>, shared: bool, m: nat): (bytes: seq<Byte>)
    ensures |bytes| == m
  {
    seq(m, i requires 0 <= i < m => ReadByte(n, others, shared, i))
  }

  class WordArray {
    var words: WordList
    var sigBytes: nat

    constructor (words: WordList, sigBytes: nat)
      ensures this.words == words && this.sigBytes == Counted(words.data, sigBytes)
      ensures this.sigBytes == if sigBytes == 0 then 4 * |words.data| else sigBytes
    {
      this.words := words;
      this.sigBytes := if sigBytes == 0 then |words.data| * 4 else sigBytes;
    }

    function Bytes(): (bytes: seq<Byte>)
      reads this, words
    {
      BytesOf(words.data, sigBytes)
    }

    method Clamp()
      modifies words
      ensures words.data == Clamped(old(words.data), sigBytes)
      ensures Bytes() == old(Bytes())
    {
      hide Assign, Resize, Masked, BytesOf;
      ClampedBytes(words.data, sigBytes);
      words.data := Assign(words.data, sigBytes / 4, Masked(WordAt(words.data, sigBytes / 4), sigBytes % 4));
      words.data := Resize(words.data, (sigBytes + 3) / 4);
    }

    /** Appends what it reads of `that`, which may be this very array or share its list. */
    method Concat(that: WordArray)
      modifies this, words
      ensures Bytes() == old(Bytes()) + old(ReadBytes(sigBytes, that.words.data, that.words == words, that.sigBytes))
      ensures sigBytes == old(sigBytes) + old(that.sigBytes) && (words == old(words) || fresh(words))
      ensures that != this ==> that.words == old(that.words) && that.sigBytes == old(that.sigBytes)
    {
      hide Clamped, ByteAt, ReadByte, BytesOf;
      if that.sigBytes <= 0 {
        assert Bytes() + [] == Bytes();
        return;
      }
      var thisSigBytes, thatSigBytes := sigBytes, that.sigBytes;
      ghost var start, others, shared := words.data, that.words.data, that.words == words;
      Clamp();
      ClampedAll(start, thisSigBytes);
      ghost var theirs := that.words.data;
      if thisSigBytes % 4 != 0 {
        Merge(that, others, shared);
      } else {
        words := new WordList(words.data + that.words.data);
        AlignedRead(start, others, shared, thisSigBytes, thatSigBytes, theirs);
      }
      sigBytes := sigBytes + thatSigBytes;
      Appended(words.data, start, thisSigBytes, others, shared, thatSigBytes);
    }

    /** The byte-by-byte merge behind a partly filled last word. */
    method Merge(that: WordArray, ghost others: seq<Word>, ghost shared: bool)
      requires sigBytes % 4 != 0 && shared == (that.words == words)
      requires forall j: nat | j >= sigBytes :: ByteAt(words.data, j) == 0
      requires if shared then forall j | 0 <= j < sigBytes :: ByteAt(words.data, j) == ByteAt(others, j)
               else others == that.words.data
      modifies words
      ensures forall j | 0 <= j < sigBytes :: ByteAt(words.data, j) == old(ByteAt(words.data, j))
      ensures forall j | 0 <= j < that.sigBytes ::
                ByteAt(words.data, sigBytes + j) == ReadByte(sigBytes, others, shared, j)
    {
      hide ByteAt, OrByte, ReadByte;
      ghost var before := words.data;
      for i := 0 to that.sigBytes
        invariant shared || that.words.data == others
        invariant forall j | 0 <= j < sigBytes :: ByteAt(words.data, j) == ByteAt(before, j)
        invariant forall j | 0 <= j < i :: ByteAt(words.data, sigBytes + j) == ReadByte(sigBytes, others, shared, j)
        invariant forall j: nat | j >= sigBytes + i :: ByteAt(words.data, j) == 0
      {
        var thatByte := ByteAt(that.words.data, i);
        ReadBack(words.data, sigBytes, others, shared, i, that.words.data);
        ghost var current := words.data;
        words.data := OrByte(words.data, sigBytes + i, thatByte);
        forall j: nat ensures ByteAt(words.data, j) == if j == sigBytes + i then thatByte else ByteAt(current, j) {
          OrByteAt(current, sigBytes + i, thatByte, j);
        }
      }
    }
  }

  /** Reading a shared list while it is written gives its bytes over and over. */
  lemma ReadBack(words: seq<Word>, n: nat, others: seq<Word>, shared: bool, i: nat, theirs: seq<Word>)
    requires n % 4 != 0
    requires if shared then theirs == words && (forall j | 0 <= j < n :: ByteAt(words, j) == ByteAt(others, j))
             else theirs == others
    requires forall j | 0 <= j < i :: ByteAt(words, n + j) == ReadByte(n, others, shared, j)
    ensures ByteAt(theirs, i) == ReadByte(n, others, shared, i)
  {
    hide ByteAt;
    if shared && i >= n {
      assert ByteAt(words, n + (i - n)) == ReadByte(n, others, shared, i - n);
      WrapAround(i, n);
    }
  }

  lemma WrapAround(i: nat, n: nat)
    requires 0 < n <= i
    ensures (i - n) % n == i % n
    ensures i - n < n ==> i % n == i - n
  {
    assert i == (i - n) + n;
    var q, r := (i - n) / n, (i - n) % n;
    assert i - n == n * q + r;
    assert i == n * (q + 1) + r;
    DivisionUnique(i, n, q + 1, r);
    if i - n < n { DivisionUnique(i, n, 1, i - n); }
  }

  lemma DivisionUnique(i: nat, n: nat, q: nat, r: nat)
    requires 0 < n && r < n && i == n * q + r
    ensures i % n == r
  {
    var p := i / n;
    assert n * p + i % n == n * q + r;
    assert n * (p - q) == r - i % n;
    assert p - q >= 1 ==> n * (p - q) >= n;
    assert p - q <= -1 ==> n * (p - q) + n <= 0;
  }

  lemma ClampedAll(words: seq<Word>, n: nat)
    ensures var c := Clamped(words, n);
            && |c| == (n + 3) / 4
            && (forall j | 0 <= j < n :: ByteAt(c, j) == ByteAt(words, j))
            && (forall j: nat | j >= n :: ByteAt(c, j) == 0)
  {
    hide Clamped, ByteAt;
    ClampedAt(words, n, 0);
    forall j: nat ensures ByteAt(Clamped(words, n), j) == if j < n then ByteAt(words, j) else 0 {
      ClampedAt(words, n, j);
    }
  }

  /** Word by word, behind a full last word. */
  lemma AlignedRead(start: seq<Word>, others: seq<Word>, shared: bool, n: nat, m: nat, theirs: seq<Word>)
    requires n % 4 == 0 && theirs == (if shared then Clamped(start, n) else others) && (shared ==> others == start)
    ensures var words := Clamped(start, n) + theirs;
            && (forall j | 0 <= j < n :: ByteAt(words, j) == ByteAt(start, j))
            && (forall j | 0 <= j < m :: ByteAt(words, n + j) == ReadByte(n, others, shared, j))
  {
    hide Clamped, ByteAt;
    ClampedAll(start, n);
    var words := Clamped(start, n) + theirs;
    forall j: nat ensures ByteAt(words, j) == if j < n then ByteAt(Clamped(start, n), j) else ByteAt(theirs, j - n) {
      AlignedAt(Clamped(start, n), theirs, n, j);
    }
    forall j | 0 <= j < m ensures ByteAt(words, n + j) == ReadByte(n, others, shared, j) {
      assert ByteAt(words, n + j) == ByteAt(theirs, j);
    }
  }

  lemma Appended(words: seq<Word>, a: seq<Word>, n: nat, b: seq<Word>, shared: bool, m: nat)
    requires forall j | 0 <= j < n :: ByteAt(words, j) == ByteAt(a, j)
    requires forall j | 0 <= j < m :: ByteAt(words, n + j) == ReadByte(n, b, shared, j)
    ensures BytesOf(words, n + m) == BytesOf(a, n) + ReadBytes(n, b, shared, m)
  {
    hide ByteAt, ReadByte;
    var whole, parts := BytesOf(words, n + m), BytesOf(a, n) + ReadBytes(n, b, shared, m);
    forall j | 0 <= j < n + m ensures whole[j] == parts[j] {
      if j >= n { assert ByteAt(words, n + (j - n)) == ReadByte(n, b, shared, j - n); }
    }
  }

  /** The bytes from `n` on are those of a cleared list, or the ones before them over again. */
  predicate ReadsBack(words: seq<Word>, n: nat, m: nat) {
    forall i | n <= i < m :: ByteAt(words, i) == if n % 4 == 0 then 0 else ByteAt(words, i % n)
  }

  /** What is appended are the other array's bytes exactly when it has a list of its own, or no
      more bytes than this one, or its further bytes happen to be the ones that are read. */
  lemma ConcatExact(n: nat, others: seq<Word>, shared: bool, m: nat)
    ensures ReadBytes(n, others, shared, m) == BytesOf(others, m) <==> !shared || ReadsBack(others, n, m)
  {
    hide ByteAt;
    var read, own := ReadBytes(n, others, shared, m), BytesOf(others, m);
    if read == own {
      forall i | n <= i < m && shared ensures ByteAt(others, i) == if n % 4 == 0 then 0 else ByteAt(others, i % n) {
        assert read[i] == own[i];
      }
    }
    if !shared || ReadsBack(others, n, m) {
      forall i | 0 <= i < m ensures read[i] == own[i] {
        assert ReadByte(n, others, shared, i) == ByteAt(others, i);
      }
      assert read == own;
    }
  }

  /** Appending an array to itself, or one with its own list, appends its bytes. */
  lemma ConcatAppends(n: nat, others: seq<Word>, shared: bool, m: nat)
    requires shared ==> m <= n
    ensures ReadBytes(n, others, shared, m) == BytesOf(others, m)
  {
    hide ByteAt;
    ConcatExact(n, others, shared, m);
  }

  /** Two arrays over one list, the second appended to the first: its bytes arrive exactly when
      those past the first count are the ones that are read. */
  method ConcatShared(list: WordList, firstBytes: nat, secondBytes: nat) returns (first: WordArray, second: WordArray)
    modifies list
    ensures var data := old(list.data);
            var n, m := Counted(data, firstBytes), Counted(data, secondBytes);
            && (first.Bytes() == BytesOf(data, n) + BytesOf(data, m) <==> ReadsBack(data, n, m))
            && first.sigBytes == n + m && second.sigBytes == m && second.words == list
  {
    hide ByteAt, BytesOf, ReadBytes, ReadsBack, Counted;
    ghost var data := list.data;
    ghost var n, m := Counted(data, firstBytes), Counted(data, secondBytes);
    first := new WordArray(list, firstBytes);
    second := new WordArray(list, secondBytes);
    assert first.Bytes() == BytesOf(data, n);
    first.Concat(second);
    ConcatExact(n, data, true, m);
    SameTail(BytesOf(data, n), ReadBytes(n, data, true, m), BytesOf(data, m));
  }

  lemma SameTail(a: seq<Byte>, b: seq<Byte>, c: seq<Byte>)
    ensures a + b == a + c <==> b == c
  {
    assert (a + b)[|a|..] == b && (a + c)[|a|..] == c;
  }

  /** An array that counts one word of a list of two, and is given one that counts both: the
      second word is cleared before it is read. */
  method SharedLoses(w: Word) returns (first: WordArray, second: WordArray)
    requires ByteOf(w, 3) != 0
    ensures first.Bytes() != BytesOf([0, w], 4) + BytesOf([0, w], 8)
  {
    var list := new WordList([0, w]);
    assert ByteAt([0, w], 7) == ByteOf(w, 3);
    hide ByteAt, ByteOf, BytesOf;
    first, second := ConcatShared(list, 4, 8);
  }

  lemma AlignedAt(a: seq<Word>, b: seq<Word>, n: nat, j: nat)
    requires n % 4 == 0 && |a| == n / 4
    ensures ByteAt(a + b, j) == if j < n then ByteAt(a, j) else ByteAt(b, j - n)
  {
    if j >= n {
      assert (j - n) / 4 == j / 4 - n / 4 && (j - n) % 4 == j % 4;
    } else {
      assert j / 4 < n / 4;
    }
  }

  // ---------- conversions ----------

  method FromBytes(bytes: seq<Byte>) returns (w: WordArray)
    ensures fresh(w) && fresh(w.words) && w.Bytes() == bytes && w.sigBytes == |bytes|
  {
    hide ByteAt, OrByte;
    var words: seq<Word> := [];
    forall j: nat ensures ByteAt(words, j) == 0 { NoWords(j); }
    for i := 0 to |bytes|
      invariant |words| == (i + 3) / 4
      invariant forall j | 0 <= j < i :: ByteAt(words, j) == bytes[j]
      invariant forall j: nat | j >= i :: ByteAt(words, j) == 0
    {
      ghost var current := words;
      words := OrByte(words, i, bytes[i]);
      forall j: nat ensures ByteAt(words, j) == if j == i then bytes[i] else ByteAt(current, j) {
        OrByteAt(current, i, bytes[i], j);
      }
      OrByteLength(current, i, bytes[i]);
    }
    var list := new WordList(words);
    w := new WordArray(list, |bytes|);
  }

  lemma NoWords(j: nat)
    ensures ByteAt([], j) == 0
  {
    ZeroBytes(j % 4);
  }

  lemma OrByteLength(words: seq<Word>, i: nat, b: Byte)
    requires |words| == (i + 3) / 4
    ensures |OrByte(words, i, b)| == (i + 4) / 4
  {
  }

  method ToBytes(w: WordArray) returns (bytes: seq<Byte>)
    ensures bytes == w.Bytes()
  {
    bytes := [];
    for i := 0 to w.sigBytes
      invariant bytes == BytesOf(w.words.data, i)
    {
      bytes := bytes + [ByteOf(WordAt(w.words.data, i / 4), i % 4)];
    }
  }

  // ---------- the envelope ----------

  const MAGIC: seq<Byte> := [83, 97, 108, 116, 101, 100, 95, 95]

  lemma MagicText()
    ensures |MAGIC| == |"Salted__"| == 8 && forall i | 0 <= i < 8 :: MAGIC[i] as int == "Salted__"[i] as int
  {
  }

  /** `CipherParams.toString` before the text encoding. */
  method Envelope(salt: WordArray, ciphertext: WordArray) returns (bytes: seq<Byte>)
    ensures bytes == if salt.sigBytes > 0 then MAGIC + salt.Bytes() + ciphertext.Bytes() else ciphertext.Bytes()
    ensures salt.sigBytes > 0 ==> |bytes| >= 8 && forall i | 0 <= i < 8 :: bytes[i] as int == "Salted__"[i] as int
  {
    hide BytesOf, ReadBytes;
    MagicText();
    if salt.sigBytes > 0 {
      var prefix := FromBytes(MAGIC);
      var list := new WordList([]);
      var combined := new WordArray(list, 0);
      assert combined.Bytes() == [];
      ConcatAppends(0, prefix.words.data, false, 8);
      combined.Concat(prefix);
      assert combined.Bytes() == MAGIC by { assert [] + MAGIC == MAGIC; }
      ConcatAppends(combined.sigBytes, salt.words.data, false, salt.sigBytes);
      combined.Concat(salt);
      ConcatAppends(combined.sigBytes, ciphertext.words.data, false, ciphertext.sigBytes);
      combined.Concat(ciphertext);
      bytes := ToBytes(combined);
    } else {
      bytes := ToBytes(ciphertext);
    }
  }

  /** What `AES.decrypt` takes apart when the key is a passphrase: the salt, if the magic is
      there, and the bytes to decrypt. */
  function Open(raw: seq<Byte>): (r: (Option<seq<Byte>>, seq<Byte>)) {
    if |raw| >= 16 && raw[..8] == MAGIC then (Some(raw[8..16]), raw[16..]) else (None, raw)
  }

  /** Bytes that are too short, or do not begin with the magic, are taken as they are. */
  lemma OpenPlain(raw: seq<Byte>)
    ensures Open(raw) == (None, raw) <==>
            |raw| < 16 || exists i :: 0 <= i < 8 && raw[i] as int != "Salted__"[i] as int
  {
    MagicText();
    if |raw| >= 16 && raw[..8] != MAGIC {
      var i :| 0 <= i < 8 && raw[..8][i] != MAGIC[i];
    }
  }

  /** An envelope opens to the salt and ciphertext it was made of exactly when the salt has
      the eight bytes that the format fixes. */
  lemma EnvelopeOpens(salt: seq<Byte>, ciphertext: seq<Byte>)
    ensures Open(MAGIC + salt + ciphertext) == (Some(salt), ciphertext) <==> |salt| == 8
  {
    var raw := MAGIC + salt + ciphertext;
    assert raw[..8] == MAGIC;
    if |salt| == 8 {
      assert raw[8..16] == salt && raw[16..] == ciphertext;
    }
  }
}
