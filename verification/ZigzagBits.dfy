// The shifts and exclusive-ors of zigzag (src/Serializer.cpp:71-77), on 64-bit words.

module ZigzagBits {
  import opened Bytes
  import opened Powers
  import Varint

  const ONES: bv64 := 0xFFFF_FFFF_FFFF_FFFF
  const TOP: bv64 := 0x8000_0000_0000_0000

  // ------------------------------------------------------------------ the code

  /** `v >> 63` on a signed word: its sign, everywhere. */
  function SignFill(v: bv64): (r: bv64) {
    if v >= TOP then ONES else 0
  }

  function EncodeWord(v: bv64): (r: bv64) {
    (v << 1) ^ SignFill(v)
  }

  function DecodeWord(v: bv64): (r: bv64) {
    (v >> 1) ^ (0 - (v & 1))
  }

  // ------------------------------------------------------------------ what words stand for

  /** Bit `i` of a word. */
  predicate Has(v: bv64, i: bv64) {
    i < 64 && (v >> i) & 1 == 1
  }

  /** The number written in the low `k` bits of a word; `i` is `k` as a word. */
  function Value(v: bv64, k: nat, i: bv64): (n: nat)
    ensures n < Pow2(k)
  {
    if k == 0 then 0 else Value(v, k - 1, i - 1) + if Has(v, i - 1) then Pow2(k - 1) else 0
  }

  lemma WordPowers()
    ensures Pow2(64) == TWO64 && Pow2(63) == 0x8000_0000_0000_0000
  {
    assert Pow2(4) == 16 && Pow2(3) == 8;
    hide Pow2;
    Pow2Adds(4, 4);
    Pow2Adds(8, 8);
    Pow2Adds(16, 16);
    Pow2Adds(32, 32);
    Pow2Adds(4, 3);
    Pow2Adds(8, 7);
    Pow2Adds(16, 15);
    Pow2Adds(32, 31);
  }

  lemma {:induction false} Pow2Adds(a: nat, b: nat)
    ensures Pow2(a + b) == Pow2(a) * Pow2(b)
  {
    if a > 0 {
      Pow2Adds(a - 1, b);
      assert Pow2(a + b) == 2 * Pow2(a - 1 + b);
    }
  }

  /** A word as a `uint64_t`... */
  function Unsigned(v: bv64): (n: uint64) {
    WordPowers();
    Value(v, 64, 64)
  }

  /** ... and as an `int64_t`. */
  function Signed(v: bv64): (i: int64) {
    if Unsigned(v) < 0x8000_0000_0000_0000 then Unsigned(v) else Unsigned(v) - TWO64
  }

  // ------------------------------------------------------------------ single bits

  lemma FlippedBit(v: bv64, i: bv64)
    requires i < 64
    ensures Has(v ^ ONES, i) <==> !Has(v, i)
  {
  }

  lemma ShiftedBit(v: bv64, i: bv64)
    requires 0 < i < 64
    ensures Has(v << 1, i) <==> Has(v, i - 1)
    ensures Has(v, i) <==> Has(v >> 1, i - 1)
  {
  }

  lemma EndBits(v: bv64)
    ensures !Has(v << 1, 0)
    ensures Has(v, 0) <==> v & 1 == 1
    ensures Has(v, 63) <==> v >= TOP
    ensures !Has(v >> 1, 63)
  {
  }

  /** `i` is `k` counted in words. */
  predicate Linked(k: nat, i: bv64) {
    if k == 0 then i == 0 else 0 < i <= 64 && Linked(k - 1, i - 1)
  }

  lemma LinkedMore(k: nat, i: bv64)
    requires Linked(k, i) && i <= 56
    ensures Linked(k + 8, i + 8)
  {
    LinkedOne(k, i);
    LinkedOne(k + 1, i + 1);
    LinkedOne(k + 2, i + 2);
    LinkedOne(k + 3, i + 3);
    LinkedOne(k + 4, i + 4);
    LinkedOne(k + 5, i + 5);
    LinkedOne(k + 6, i + 6);
    LinkedOne(k + 7, i + 7);
  }

  lemma LinkedOne(k: nat, i: bv64)
    requires Linked(k, i) && i < 64
    ensures Linked(k + 1, i + 1)
  {
  }

  lemma SixtyFour()
    ensures Linked(63, 63) && Linked(64, 64)
  {
    LinkedMore(0, 0);
    LinkedMore(8, 8);
    LinkedMore(16, 16);
    LinkedMore(24, 24);
    LinkedMore(32, 32);
    LinkedMore(40, 40);
    LinkedMore(48, 48);
    LinkedMore(56, 56);
    LinkedLess(64, 64);
  }

  lemma LinkedLess(k: nat, i: bv64)
    requires Linked(k, i) && k > 0
    ensures Linked(k - 1, i - 1)
  {
  }

  // ------------------------------------------------------------------ whole words

  lemma {:induction false} FlippedValue(v: bv64, k: nat, i: bv64)
    requires Linked(k, i)
    ensures Value(v ^ ONES, k, i) + Value(v, k, i) == Pow2(k) - 1
  {
    hide Has;
    if k > 0 {
      FlippedBit(v, i - 1);
      FlippedValue(v, k - 1, i - 1);
    }
  }

  lemma {:induction false} ShiftedLeft(v: bv64, k: nat, i: bv64)
    requires Linked(k, i) && i < 64
    ensures Value(v << 1, k + 1, i + 1) == 2 * Value(v, k, i)
  {
    hide Has;
    if k == 0 {
      EndBits(v);
    } else {
      ShiftedBit(v, i);
      ShiftedLeft(v, k - 1, i - 1);
    }
  }

  lemma {:induction false} ShiftedRight(v: bv64, k: nat, i: bv64)
    requires Linked(k, i) && i < 64
    ensures Value(v, k + 1, i + 1) == 2 * Value(v >> 1, k, i) + if v & 1 == 1 then 1 else 0
  {
    hide Has;
    if k == 0 {
      EndBits(v);
    } else {
      ShiftedBit(v, i);
      ShiftedRight(v, k - 1, i - 1);
    }
  }

  lemma {:induction false} TopBit(v: bv64)
    ensures Value(v, 64, 64) == Value(v, 63, 63) + if v >= TOP then Pow2(63) else 0
  {
    EndBits(v);
    hide Has, Pow2;
  }

  lemma FillIsXor(v: bv64)
    ensures v >= TOP ==> EncodeWord(v) == (v << 1) ^ ONES
    ensures v < TOP ==> EncodeWord(v) == v << 1
    ensures v & 1 == 1 ==> DecodeWord(v) == (v >> 1) ^ ONES
    ensures v & 1 != 1 ==> DecodeWord(v) == v >> 1
    ensures v >> 1 < TOP
  {
  }

  /** `zigzagEncode` on words is the zigzag of the number. */
  lemma EncodeWordExact(v: bv64)
    ensures Unsigned(EncodeWord(v)) == Varint.ZigzagEncode(Signed(v))
  {
    hide Value, Pow2, EncodeWord;
    WordPowers();
    SixtyFour();
    FillIsXor(v);
    TopBit(v);
    ShiftedLeft(v, 63, 63);
    FlippedValue(v << 1, 64, 64);
  }

  /** `zigzagDecode` on words is its inverse. */
  lemma DecodeWordExact(v: bv64)
    ensures Signed(DecodeWord(v)) == Varint.ZigzagDecode(Unsigned(v))
  {
    hide Value, Pow2, DecodeWord, Varint.ZigzagDecode;
    WordPowers();
    SixtyFour();
    FillIsXor(v);
    TopBit(v >> 1);
    ShiftedRight(v, 63, 63);
    FlippedValue(v >> 1, 64, 64);
    Varint.ZigzagHalf(Unsigned(v), Value(v >> 1, 63, 63), v & 1 == 1);
  }
}
