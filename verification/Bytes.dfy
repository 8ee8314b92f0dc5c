// Bytes and the fixed-width integers of the wire format.

/** Machine integers as ranges of `int`; every wrap-around is written out where the source has one. */
module Bytes {

  newtype byte = b: int | 0 <= b < 0x100
  type uint16 = x: int | 0 <= x < 0x1_0000
  type uint32 = x: int | 0 <= x < 0x1_0000_0000
  type uint64 = x: int | 0 <= x < 0x1_0000_0000_0000_0000
  type int64 = x: int | -0x8000_0000_0000_0000 <= x < 0x8000_0000_0000_0000

  const TWO32 := 0x1_0000_0000
  const TWO64 := 0x1_0000_0000_0000_0000

  /** The outcome of reading a `T` off the front of a byte string. */
  datatype Parse<+T> = Fail | Ok(value: T, rest: seq<byte>)

  datatype Option<+T> = None | Some(value: T)

  function Pow256(k: nat): (p: nat)
    ensures p >= 1
  {
    if k == 0 then 1 else 256 * Pow256(k - 1)
  }

  /** `k` bytes, least significant first. */
  function LittleEndian(n: nat, k: nat): (bs: seq<byte>)
    ensures |bs| == k
    decreases k, n
  {
    if k == 0 then [] else [(n % 256) as byte] + LittleEndian(n / 256, k - 1)
  }

  function FromLittleEndian(bs: seq<byte>): (n: nat)
    ensures n < Pow256(|bs|)
  {
    if bs == [] then 0 else bs[0] as int + 256 * FromLittleEndian(bs[1..])
  }

  /** `k` bytes in network order, most significant first. */
  function BigEndian(n: nat, k: nat): (bs: seq<byte>)
    ensures |bs| == k
    decreases k, n
  {
    if k == 0 then [] else BigEndian(n / 256, k - 1) + [(n % 256) as byte]
  }

  function FromBigEndian(bs: seq<byte>): (n: nat)
    ensures n < Pow256(|bs|)
  {
    if bs == [] then 0 else 256 * FromBigEndian(bs[..|bs| - 1]) + bs[|bs| - 1] as int
  }

  lemma {:induction false} LittleEndianRoundTrip(n: nat, k: nat)
    requires n < Pow256(k)
    ensures FromLittleEndian(LittleEndian(n, k)) == n
    decreases k
  {
    if k > 0 {
      LittleEndianRoundTrip(n / 256, k - 1);
      assert LittleEndian(n, k)[1..] == LittleEndian(n / 256, k - 1);
    }
  }

  lemma {:induction false} BigEndianRoundTrip(n: nat, k: nat)
    requires n < Pow256(k)
    ensures FromBigEndian(BigEndian(n, k)) == n
    decreases k
  {
    if k > 0 {
      BigEndianRoundTrip(n / 256, k - 1);
      assert BigEndian(n, k)[..k - 1] == BigEndian(n / 256, k - 1);
    }
  }

  /** The byte at each place: the lowest digit, to the base 256, comes first in the one order and last in the other. */
  lemma {:induction false} LittleEndianDigits(n: nat, k: nat, i: nat)
    requires i < k
    ensures LittleEndian(n, k)[i] as int == n / Pow256(i) % 256
    decreases k
  {
    if i > 0 {
      LittleEndianDigits(n / 256, k - 1, i - 1);
      DivideTwice(n, Pow256(i - 1));
    }
  }

  lemma {:induction false} BigEndianDigits(n: nat, k: nat, i: nat)
    requires i < k
    ensures BigEndian(n, k)[i] as int == n / Pow256(k - 1 - i) % 256
    decreases k
  {
    if i < k - 1 {
      BigEndianDigits(n / 256, k - 1, i);
      DivideTwice(n, Pow256(k - 2 - i));
    }
  }

  lemma DivideTwice(n: nat, m: nat)
    requires m > 0
    ensures n / 256 / m == n / (256 * m)
  {
    var a, b := n / 256, n % 256;
    var q, r := a / m, a % m;
    assert n == 256 * (q * m + r) + b;
    assert n == q * (256 * m) + (256 * r + b);
    assert 0 <= 256 * r + b < 256 * m;
    QuotientUnique(n, 256 * m, q, 256 * r + b);
  }

  lemma QuotientUnique(n: nat, m: nat, q: nat, r: nat)
    requires r < m && n == q * m + r
    ensures n / m == q
  {
    var d := n / m - q;
    assert n == (n / m) * m + n % m;
    assert d * m == r - n % m;
    NoSmallMultiple(d, m);
  }

  lemma NoSmallMultiple(d: int, m: nat)
    requires 0 - m < d * m < m
    ensures d == 0
  {
  }

  /** Network order loses nothing in the other direction either. */
  lemma {:induction false} BigEndianOnto(bs: seq<byte>)
    ensures BigEndian(FromBigEndian(bs), |bs|) == bs
  {
    if bs != [] {
      BigEndianOnto(bs[..|bs| - 1]);
      assert bs == bs[..|bs| - 1] + [bs[|bs| - 1]];
    }
  }
}
