/**
 * The hash encoder of EmailCheckerService.hashEmailToOffset: the first four bytes of
 * the email's SHA-256 digest, packed little-endian into a Java `int`, then `Math.abs`.
 * The digest itself is an input; only the packing and the absolute value are modelled.
 */
module OffsetEncoder {
  import opened Outcomes

  /** A digest byte read unsigned, which is what `b & 0xFF` makes of a Java byte. */
  type Byte = bv8

  /** Number of leading digest bytes that make up the offset. */
  const WORD_BYTES: nat := 4

  const INT_MIN: int := -0x8000_0000
  const INT_MAX: int := 0x7FFF_FFFF
  const TWO_32: int := 0x1_0000_0000

  function Min(a: int, b: int): int { if a < b then a else b }

  /** Bytes of the digest that take part in the offset: `Math.min(4, hashBytes.length)`. */
  function UsedBytes(d: seq<Byte>): (n: nat)
    ensures n <= WORD_BYTES && n <= |d|
  {
    Min(WORD_BYTES, |d|)
  }

  /** Lane `i` of the word: `(b & 0xFF) << (i * 8)`, with the shift distance written out. */
  function Lane(b: Byte, i: nat): bv32
    requires i < WORD_BYTES
  {
    var x := b as bv32;
    if i == 0 then x else if i == 1 then x << 8 else if i == 2 then x << 16 else x << 24
  }

  /** The 32-bit word after `n` rounds of `offset |= (hashBytes[i] & 0xFF) << (i * 8)`. */
  function PackPrefix(d: seq<Byte>, n: nat): bv32
    requires n <= WORD_BYTES && n <= |d|
  {
    if n == 0 then 0 else PackPrefix(d, n - 1) | Lane(d[n - 1], n - 1)
  }

  /** The whole word the loop builds. */
  function PackedWord(d: seq<Byte>): bv32 {
    PackPrefix(d, UsedBytes(d))
  }

  /** A 32-bit pattern, given by its unsigned value, read as a Java `int` (two's complement). */
  function ToInt32(u: int): (v: int)
    requires 0 <= u < TWO_32
    ensures INT_MIN <= v <= INT_MAX
    ensures (u - v) % TWO_32 == 0
  {
    if u <= INT_MAX then u else u - TWO_32
  }

  /** Java `int` arithmetic: keep the low 32 bits and read them as signed. */
  function Wrap32(x: int): (v: int)
    ensures INT_MIN <= v <= INT_MAX
    ensures (x - v) % TWO_32 == 0
  {
    var m := x % TWO_32;
    if m <= INT_MAX then m else m - TWO_32
  }

  /** `Math.abs(int)`: negation in 32-bit arithmetic. */
  function JavaAbs(v: int): (a: int)
    requires INT_MIN <= v <= INT_MAX
    ensures INT_MIN <= a <= INT_MAX
  {
    if v < 0 then Wrap32(-v) else v
  }

  /** The offset of a digest; `None` stands for NoSuchAlgorithmException, which yields 0. */
  function DigestOffset(digest: Option<seq<Byte>>): int {
    match digest
    case None => 0
    case Some(d) => JavaAbs(ToInt32(PackedWord(d) as int))
  }

  /** hashEmailToOffset, from the digest onwards: the byte-packing loop and `Math.abs`. */
  method HashEmailToOffset(digest: Option<seq<Byte>>) returns (offset: int)
    ensures offset == DigestOffset(digest)
    ensures INT_MIN <= offset <= INT_MAX
  {
    if digest.None? {
      return 0;
    }
    var hashBytes := digest.value;
    var word: bv32 := 0;
    var i := 0;
    while i < Min(4, |hashBytes|)
      invariant 0 <= i <= UsedBytes(hashBytes)
      invariant word == PackPrefix(hashBytes, i)
    {
      word := word | Lane(hashBytes[i], i);  // (hashBytes[i] & 0xFF) << (i * 8), see LaneIsShift
      i := i + 1;
    }
    offset := JavaAbs(ToInt32(word as int));
  }

  /** The lane is the shift the source writes. */
  lemma LaneIsShift(b: Byte, i: nat)
    requires i < WORD_BYTES
    ensures Lane(b, i) == (b as bv32) << (i * 8)
  {
    if i == 0 {
      assert i * 8 == 0;
    } else if i == 1 {
      assert i * 8 == 8;
    } else if i == 2 {
      assert i * 8 == 16;
    } else {
      assert i * 8 == 24;
    }
  }

  /** Digest byte `i`, or zero past the end of a short digest. */
  function ByteAt(d: seq<Byte>, i: nat): Byte {
    if i < |d| then d[i] else 0
  }

  /** One round of the loop. */
  lemma PackStep(d: seq<Byte>, n: nat)
    requires 1 <= n <= WORD_BYTES && n <= |d|
    ensures PackPrefix(d, n) == PackPrefix(d, n - 1) | Lane(d[n - 1], n - 1)
  {
  }

  /** The word in closed form: four lanes, each taken from one leading digest byte. */
  lemma PackedWordLanes(d: seq<Byte>)
    ensures PackedWord(d)
         == Lane(ByteAt(d, 0), 0) | Lane(ByteAt(d, 1), 1) | Lane(ByteAt(d, 2), 2) | Lane(ByteAt(d, 3), 3)
  {
    var b0, b1, b2, b3 := ByteAt(d, 0), ByteAt(d, 1), ByteAt(d, 2), ByteAt(d, 3);
    var l0, l1, l2, l3 := Lane(b0, 0), Lane(b1, 1), Lane(b2, 2), Lane(b3, 3);
    var n := UsedBytes(d);
    if n >= 1 { PackStep(d, 1); }
    if n >= 2 { PackStep(d, 2); }
    if n >= 3 { PackStep(d, 3); }
    if n >= 4 { PackStep(d, 4); }
    if n == 0 {
      assert l0 == 0 && l1 == 0 && l2 == 0 && l3 == 0;
    } else if n == 1 {
      assert l1 == 0 && l2 == 0 && l3 == 0;
    } else if n == 2 {
      assert l2 == 0 && l3 == 0;
    } else if n == 3 {
      assert l3 == 0;
    }
  }

  /**
   * Little-endian placement: byte i of the word (bits 8i .. 8i+7) is digest byte i
   * for i < min(4, |d|), and zero for the lanes a short digest does not reach.
   */
  lemma PackedWordBytes(d: seq<Byte>)
    ensures PackedWord(d) & 0xFF == ByteAt(d, 0) as bv32
    ensures (PackedWord(d) >> 8) & 0xFF == ByteAt(d, 1) as bv32
    ensures (PackedWord(d) >> 16) & 0xFF == ByteAt(d, 2) as bv32
    ensures PackedWord(d) >> 24 == ByteAt(d, 3) as bv32
  {
    PackedWordLanes(d);
  }

  /** Bytes past the fourth have no effect on the word. */
  lemma LaterBytesIgnored(d: seq<Byte>, e: seq<Byte>)
    requires forall i :: 0 <= i < WORD_BYTES ==> ByteAt(d, i) == ByteAt(e, i)
    ensures PackedWord(d) == PackedWord(e)
  {
    PackedWordLanes(d);
    PackedWordLanes(e);
    assert ByteAt(d, 0) == ByteAt(e, 0) && ByteAt(d, 1) == ByteAt(e, 1);
    assert ByteAt(d, 2) == ByteAt(e, 2) && ByteAt(d, 3) == ByteAt(e, 3);
  }

  /** The unsigned value of the word, read arithmetically from the four leading bytes. */
  function LittleEndianValue(d: seq<Byte>): (u: int)
    ensures 0 <= u < TWO_32
  {
    ByteAt(d, 0) as int + 0x100 * ByteAt(d, 1) as int
      + 0x1_0000 * ByteAt(d, 2) as int + 0x100_0000 * ByteAt(d, 3) as int
  }

  /** The packed word, read as an unsigned number, is the little-endian value of the bytes. */
  lemma PackedWordValue(d: seq<Byte>)
    ensures PackedWord(d) as int == LittleEndianValue(d)
  {
    var b0, b1, b2, b3 := ByteAt(d, 0), ByteAt(d, 1), ByteAt(d, 2), ByteAt(d, 3);
    PackedWordLanes(d);
    LanesAreShifts(b0, b1, b2, b3);
    ShiftsValue(b0, b1, b2, b3);
  }

  /** The four lanes, or-ed, with the shifts written out. */
  lemma LanesAreShifts(b0: Byte, b1: Byte, b2: Byte, b3: Byte)
    ensures Lane(b0, 0) | Lane(b1, 1) | Lane(b2, 2) | Lane(b3, 3)
         == (b0 as bv32) | ((b1 as bv32) << 8) | ((b2 as bv32) << 16) | ((b3 as bv32) << 24)
  {
  }

  /** Lanes occupy disjoint bits, so or-ing them adds their values. */
  lemma ShiftsValue(b0: Byte, b1: Byte, b2: Byte, b3: Byte)
    ensures ((b0 as bv32) | ((b1 as bv32) << 8) | ((b2 as bv32) << 16) | ((b3 as bv32) << 24)) as int
         == b0 as int + 0x100 * b1 as int + 0x1_0000 * b2 as int + 0x100_0000 * b3 as int
  {
  }

  /** `Math.abs` is the absolute value on every int but the least. */
  lemma JavaAbsValue(v: int)
    requires INT_MIN <= v <= INT_MAX
    ensures JavaAbs(v) == if v == INT_MIN then INT_MIN else if v < 0 then -v else v
  {
    if v < 0 {
      assert 0 < -v <= TWO_32;
      if v == INT_MIN {
        assert -v % TWO_32 == -INT_MIN;
      } else {
        assert -v % TWO_32 == -v;
      }
    }
  }

  /**
   * The offset read arithmetically from an unsigned word value `u`: the absolute value of
   * the signed reading, except that 0x80000000 (whose negation overflows) stays at -2^31.
   */
  function ExpectedOffset(u: int): int
    requires 0 <= u < TWO_32
  {
    if u <= INT_MAX then u else if u == -INT_MIN then INT_MIN else TWO_32 - u
  }

  /** `Math.abs` of a word read as a Java int, in terms of the word's unsigned value. */
  lemma WordOffset(u: int)
    requires 0 <= u < TWO_32
    ensures JavaAbs(ToInt32(u)) == ExpectedOffset(u)
  {
    JavaAbsValue(ToInt32(u));
  }

  /** The bit-level computation agrees with the arithmetic reading of the four bytes. */
  lemma DigestOffsetIsExpected(d: seq<Byte>)
    ensures DigestOffset(Some(d)) == ExpectedOffset(LittleEndianValue(d))
  {
    PackedWordValue(d);
    WordOffset(PackedWord(d) as int);
  }

  /**
   * The offset lies in [0, 2^31 - 1] except for the single word 0x80000000, for which
   * `Math.abs` returns -2^31.
   */
  lemma OffsetRange(d: seq<Byte>)
    ensures PackedWord(d) != 0x8000_0000 ==> 0 <= DigestOffset(Some(d)) <= INT_MAX
    ensures PackedWord(d) == 0x8000_0000 <==> DigestOffset(Some(d)) == INT_MIN
    ensures DigestOffset(Some(d)) == INT_MIN <==> DigestOffset(Some(d)) < 0
  {
    PackedWordValue(d);
    DigestOffsetIsExpected(d);
  }

  /** A digest that starts 00 00 00 80 reaches the negative offset. */
  lemma {:induction false} NegativeOffsetWitness(rest: seq<Byte>)
    ensures DigestOffset(Some([0x00, 0x00, 0x00, 0x80] + rest)) == INT_MIN
  {
    var d: seq<Byte> := [0x00, 0x00, 0x00, 0x80] + rest;
    assert ByteAt(d, 0) == 0 && ByteAt(d, 1) == 0 && ByteAt(d, 2) == 0 && ByteAt(d, 3) == 0x80;
    DigestOffsetIsExpected(d);
  }
}
