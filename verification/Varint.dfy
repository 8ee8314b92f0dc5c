// Base 128 varints and zigzag, as in the Protocol Buffers encoding specification,
// sections "Base 128 Varints" and "Signed Integers" (src/Serializer.cpp:32-77).

module Varint {
  import opened Bytes

  /** Longest varint the reader accepts. */
  const MAX_BYTES := 10

  function Pow128(k: nat): (p: nat)
    ensures p >= 1
  {
    if k == 0 then 1 else 128 * Pow128(k - 1)
  }

  // ------------------------------------------------------------------ specification

  /** The canonical (shortest) varint of `n`. */
  function Encode(n: nat): (bs: seq<byte>)
    ensures |bs| >= 1
  {
    if n < 128 then [n as byte] else [(n % 128 + 128) as byte] + Encode(n / 128)
  }

  /**
   * The number spelled by the last `budget` groups a 64-bit reader may still take. The very last one is
   * shifted by 63, so all but its lowest bit fall off the top of the word.
   */
  function ParseGroups(bs: seq<byte>, budget: nat): (p: Parse<nat>)
    ensures p.Ok? ==> budget > 0 && p.value < 2 * Pow128(budget - 1)
    ensures p.Ok? ==> |p.rest| < |bs|
    decreases |bs|
  {
    if budget == 0 || bs == [] then
      Fail
    else if bs[0] < 128 then
      Ok(if budget == 1 then bs[0] as int % 2 else bs[0] as int, bs[1..])
    else
      match ParseGroups(bs[1..], budget - 1)
      case Fail => Fail
      case Ok(n, rest) => Ok(bs[0] as int - 128 + 128 * n, rest)
  }

  /** A varint read into a 64-bit word. */
  function Parse(bs: seq<byte>): (p: Parse<uint64>)
    ensures p.Ok? ==> |p.rest| < |bs|
  {
    match ParseGroups(bs, MAX_BYTES)
    case Fail => Fail
    case Ok(n, rest) => WordSize(); Ok(n, rest)
  }

  function ZigzagEncode(i: int64): (u: uint64) {
    if i >= 0 then 2 * i else -2 * i - 1
  }

  function ZigzagDecode(u: uint64): (i: int64) {
    if u % 2 == 0 then u / 2 else -((u + 1) / 2)
  }

  // ------------------------------------------------------------------ properties

  /** Zigzag is a bijection between the signed and the unsigned 64-bit integers. */
  lemma ZigzagBijection(i: int64, u: uint64)
    ensures ZigzagDecode(ZigzagEncode(i)) == i
    ensures ZigzagEncode(ZigzagDecode(u)) == u
  {
    assert u == 2 * (u / 2) + u % 2;
  }

  lemma ZigzagHalf(u: uint64, half: int, odd: bool)
    requires half >= 0 && u == 2 * half + if odd then 1 else 0
    ensures ZigzagDecode(u) == if odd then -half - 1 else half
  {
    assert u / 2 == half;
    assert odd ==> (u + 1) / 2 == half + 1;
  }

  /** Nine full groups and one bit make 64 bits. */
  lemma WordSize()
    ensures 2 * Pow128(MAX_BYTES - 1) == TWO64
    ensures Pow128(MAX_BYTES - 1) == 0x8000_0000_0000_0000
  {
    assert Pow128(4) == 128 * 128 * 128 * 128;
    assert Pow128(6) == 128 * 128 * Pow128(4);
    assert Pow128(8) == 128 * 128 * Pow128(6);
  }

  lemma {:induction false} EncodeMonotone(m: nat, n: nat)
    requires m <= n
    ensures |Encode(m)| <= |Encode(n)|
  {
    if m >= 128 {
      EncodeMonotone(m / 128, n / 128);
    }
  }

  lemma {:induction false} GroupsRoundTrip(n: nat, rest: seq<byte>, budget: nat)
    requires 0 < budget && n < 2 * Pow128(budget - 1)
    ensures ParseGroups(Encode(n) + rest, budget) == Ok(n, rest)
  {
    if n < 128 {
      LastGroup(n, rest, budget);
    } else {
      var low, high := SplitGroup(n);
      GroupsRoundTrip(high, rest, budget - 1);
      OneMoreGroup(low, high, Encode(high), rest, budget);
    }
  }

  lemma LastGroup(n: nat, rest: seq<byte>, budget: nat)
    requires n < 128 && 0 < budget && (budget == 1 ==> n < 2)
    ensures ParseGroups([n as byte] + rest, budget) == Ok(n, rest)
  {
    assert ([n as byte] + rest)[1..] == rest;
  }

  lemma SplitGroup(n: nat) returns (low: nat, high: nat)
    requires n >= 128
    ensures n == low + 128 * high && low < 128 && 0 < high < n
    ensures Encode(n) == [(low + 128) as byte] + Encode(high)
  {
    low, high := n % 128, n / 128;
  }

  lemma OneMoreGroup(low: nat, high: nat, bs: seq<byte>, rest: seq<byte>, budget: nat)
    requires low < 128 && 0 < budget && ParseGroups(bs + rest, budget - 1) == Ok(high, rest)
    ensures ParseGroups([(low + 128) as byte] + bs + rest, budget) == Ok(low + 128 * high, rest)
  {
    assert ([(low + 128) as byte] + bs + rest)[1..] == bs + rest;
  }

  lemma {:induction false} ParseFrom(bs: seq<byte>, n: uint64, rest: seq<byte>)
    requires ParseGroups(bs, MAX_BYTES) == Ok(n, rest)
    ensures Parse(bs) == Ok(n, rest)
  {
  }

  /** Every 64-bit value survives, whatever follows it in the stream. */
  lemma {:induction false} RoundTrip(n: uint64, rest: seq<byte>)
    ensures Parse(Encode(n) + rest) == Ok(n, rest)
  {
    WordSize();
    GroupsRoundTrip(n, rest, MAX_BYTES);
    ParseFrom(Encode(n) + rest, n, rest);
  }

  lemma {:induction false} GroupsAtLeastCanonical(bs: seq<byte>, budget: nat)
    requires ParseGroups(bs, budget).Ok?
    ensures var p := ParseGroups(bs, budget); |Encode(p.value)| <= |bs| - |p.rest|
    decreases |bs|
  {
    if bs[0] >= 128 {
      GroupsAtLeastCanonical(bs[1..], budget - 1);
      var n := ParseGroups(bs[1..], budget - 1).value;
      if n > 0 {
        assert (bs[0] as int - 128 + 128 * n) / 128 == n;
      }
    }
  }

  /** However a varint was spelled, re-encoding its value takes no more bytes. */
  lemma AtLeastCanonical(bs: seq<byte>)
    requires Parse(bs).Ok?
    ensures |Encode(Parse(bs).value)| <= |bs| - |Parse(bs).rest|
  {
    GroupsAtLeastCanonical(bs, MAX_BYTES);
  }

  lemma {:induction false} GroupsExtend(bs: seq<byte>, more: seq<byte>, budget: nat)
    requires ParseGroups(bs, budget).Ok?
    ensures var p := ParseGroups(bs, budget);
            ParseGroups(bs + more, budget) == Ok(p.value, p.rest + more)
    decreases |bs|
  {
    assert (bs + more)[1..] == bs[1..] + more;
    if bs[0] >= 128 {
      GroupsExtend(bs[1..], more, budget - 1);
    }
  }

  /** A successful read never depends on the bytes it leaves behind. */
  lemma Extend(bs: seq<byte>, more: seq<byte>)
    requires Parse(bs).Ok?
    ensures Parse(bs + more) == Ok(Parse(bs).value, Parse(bs).rest + more)
  {
    GroupsExtend(bs, more, MAX_BYTES);
  }

  // ------------------------------------------------------------------ the writer loop

  /** `writeVarint`: appends the groups of `value` to `out`, low group first. */
  method Write(out: seq<byte>, value: uint64) returns (res: seq<byte>)
    ensures res == out + Encode(value)
  {
    res := out;
    var v := value;
    while v >= 128
      invariant 0 <= v < TWO64
      invariant res + Encode(v) == out + Encode(value)
    {
      res := res + [(v % 128 + 128) as byte];
      v := v / 128;
    }
    res := res + [v as byte];
  }
}
