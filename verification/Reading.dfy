// The bounds-checked cursor of src/Serializer.cpp:9-61.

module Reading {
  import opened Bytes
  import Varint

  /** A length-prefixed run of bytes. */
  function Delimited(payload: seq<byte>): (bs: seq<byte>)
    ensures |bs| > |payload|
  {
    Varint.Encode(|payload|) + payload
  }

  function ParseDelimited(bs: seq<byte>): (p: Parse<seq<byte>>)
    ensures p.Ok? ==> |p.rest| + |p.value| < |bs|
  {
    match Varint.Parse(bs)
    case Fail => Fail
    case Ok(len, rest) => if len > |rest| then Fail else Ok(rest[..len], rest[len..])
  }

  lemma DelimitedRoundTrip(payload: seq<byte>, rest: seq<byte>)
    requires |payload| < TWO64
    ensures ParseDelimited(Delimited(payload) + rest) == Ok(payload, rest)
  {
    Varint.RoundTrip(|payload|, payload + rest);
    assert Delimited(payload) + rest == Varint.Encode(|payload|) + (payload + rest);
  }

  lemma DelimitedFrom(bs: seq<byte>, len: uint64, rest: seq<byte>)
    requires Varint.Parse(bs) == Ok(len, rest) && len <= |rest|
    ensures ParseDelimited(bs) == Ok(rest[..len], rest[len..])
  {
  }

  lemma DelimitedExtend(bs: seq<byte>, more: seq<byte>)
    requires ParseDelimited(bs).Ok?
    ensures ParseDelimited(bs + more) == Ok(ParseDelimited(bs).value, ParseDelimited(bs).rest + more)
  {
    var Ok(len, rest) := Varint.Parse(bs);
    Varint.Extend(bs, more);
    DelimitedFrom(bs + more, len, rest + more);
    assert (rest + more)[..len] == rest[..len];
    assert (rest + more)[len..] == rest[len..] + more;
  }

  /** A payload no longer than the one read back re-encodes no longer than the run it came from. */
  lemma DelimitedAtLeastCanonical(bs: seq<byte>, payload: seq<byte>)
    requires ParseDelimited(bs).Ok?
    requires |payload| <= |ParseDelimited(bs).value|
    ensures |Delimited(payload)| <= |bs| - |ParseDelimited(bs).rest|
  {
    Varint.AtLeastCanonical(bs);
    Varint.EncodeMonotone(|payload|, |ParseDelimited(bs).value|);
  }

  class Reader {
    const data: seq<byte>
    var p: nat

    ghost predicate Valid()
      reads this
    {
      p <= |data|
    }

    /** The bytes still ahead of the cursor. */
    ghost function Rest(): (s: seq<byte>)
      requires Valid()
      reads this
    {
      data[p..]
    }

    constructor (bytes: seq<byte>)
      ensures Valid() && Rest() == bytes
    {
      data := bytes;
      p := 0;
    }

    function Remaining(): (n: nat)
      requires Valid()
      reads this
      ensures n == |Rest()|
    {
      |data| - p
    }

    method ReadByte() returns (ok: bool, b: byte)
      requires Valid()
      modifies this
      ensures Valid()
      ensures ok == (old(Rest()) != [])
      ensures ok ==> b == old(Rest())[0] && Rest() == old(Rest())[1..]
      ensures !ok ==> Rest() == old(Rest())
    {
      if p >= |data| {
        return false, 0;
      }
      b := data[p];
      p := p + 1;
      ok := true;
    }

    method ReadBytes(len: nat) returns (ok: bool, bytes: seq<byte>)
      requires Valid()
      modifies this
      ensures Valid()
      ensures ok == (len <= |old(Rest())|)
      ensures ok ==> bytes == old(Rest())[..len] && Rest() == old(Rest())[len..]
      ensures !ok ==> Rest() == old(Rest())
    {
      if Remaining() < len {
        return false, [];
      }
      bytes := data[p..p + len];
      p := p + len;
      ok := true;
    }

    /**
     * `readVarint`; the shift of step `i` is `7 * i`. The shifted group only has bits at or above that
     * shift, where `value` has none, so the source's `|=` is an addition.
     */
    method ReadVarint() returns (ok: bool, value: uint64)
      requires Valid()
      modifies this
      ensures Valid()
      ensures ok == Varint.Parse(old(Rest())).Ok?
      ensures ok ==> value == Varint.Parse(old(Rest())).value && Rest() == Varint.Parse(old(Rest())).rest
    {
      hide Varint.Parse, Varint.ParseGroups, Continues;
      value := 0;
      ghost var all := Rest();
      StartGroups(all);
      for i := 0 to 10
        invariant Valid()
        invariant value < ShiftGroups(1, i)
        invariant Continues(all, Rest(), i, value)
      {
        ghost var before := Rest();
        var got, b := ReadByte();
        if !got {
          NoMoreGroups(all, before, i, value);
          return false, 0;
        }
        var group := if b < 128 then b as int else b as int - 128;
        ShiftDropsHighBits(value, group, i);
        var shifted := ShiftGroups(group, i) % TWO64;
        if b < 128 {
          FinishGroups(all, before, i, value);
          return true, value + shifted;
        }
        assert Continues(all, Rest(), i + 1, value + shifted) by {
          ContinueOneGroup(all, before, i, value);
        }
        value := value + shifted;
      }
      NoMoreGroups(all, Rest(), 10, value);
      return false, 0;
    }

    method ReadLengthDelimited() returns (ok: bool, bytes: seq<byte>)
      requires Valid()
      modifies this
      ensures Valid()
      ensures ok == ParseDelimited(old(Rest())).Ok?
      ensures ok ==> bytes == ParseDelimited(old(Rest())).value && Rest() == ParseDelimited(old(Rest())).rest
    {
      var got, len := ReadVarint();
      if !got || len > Remaining() {
        return false, [];
      }
      ok, bytes := ReadBytes(len);
    }
  }

  /** `x << 7 * i`, without a word size. */
  function ShiftGroups(x: nat, i: nat): (y: nat) {
    if i == 0 then x else 128 * ShiftGroups(x, i - 1)
  }

  /** After `i` continuation groups worth `low`, what is still to be read of `all` is the varint at `rest`. */
  ghost predicate Continues(all: seq<byte>, rest: seq<byte>, i: nat, low: nat) {
    i <= 10 &&
    match Varint.ParseGroups(rest, 10 - i)
    case Fail => Varint.ParseGroups(all, 10).Fail?
    case Ok(n, after) => Varint.ParseGroups(all, 10) == Ok(low + ShiftGroups(n, i), after)
  }

  /** The bits of `group` that `group << 7 * i` leaves in a 64-bit word. */
  function Kept(group: nat, i: nat): (k: nat)
    ensures k <= group
  {
    if i == 9 then group % 2 else group
  }

  lemma {:induction false} ShiftAdds(x: nat, y: nat, i: nat)
    ensures ShiftGroups(x + 128 * y, i) == ShiftGroups(x, i) + ShiftGroups(y, i + 1)
  {
    if i > 0 {
      ShiftAdds(x, y, i - 1);
    }
  }

  lemma {:induction false} ShiftMonotone(x: nat, y: nat, i: nat)
    requires x <= y
    ensures ShiftGroups(x, i) <= ShiftGroups(y, i)
  {
    if i > 0 {
      ShiftMonotone(x, y, i - 1);
    }
  }

  lemma {:induction false} ShiftsOfOne(i: nat)
    requires i < 9
    ensures ShiftGroups(127, i) + ShiftGroups(1, i) == ShiftGroups(1, i + 1) <= 0x8000_0000_0000_0000
    decreases 9 - i
  {
    ShiftAdds(0, 1, i);
    ShiftSum(127, 1, i);
    if i == 8 {
      assert ShiftGroups(1, 4) == 128 * 128 * 128 * 128;
      assert ShiftGroups(1, 7) == 128 * 128 * 128 * ShiftGroups(1, 4);
    } else {
      ShiftsOfOne(i + 1);
    }
  }

  lemma {:induction false} ShiftSum(x: nat, y: nat, i: nat)
    ensures ShiftGroups(x + y, i) == ShiftGroups(x, i) + ShiftGroups(y, i)
    ensures ShiftGroups(128, i) == ShiftGroups(1, i + 1)
  {
    if i > 0 {
      ShiftSum(x, y, i - 1);
    }
  }

  lemma {:induction false} ShiftByNine(x: nat)
    ensures ShiftGroups(x, 9) == 0x8000_0000_0000_0000 * x
  {
    assert ShiftGroups(x, 1) == 128 * x;
    assert ShiftGroups(x, 2) == 128 * 128 * x;
    assert ShiftGroups(x, 4) == 128 * 128 * ShiftGroups(x, 2);
    assert ShiftGroups(x, 6) == 128 * 128 * ShiftGroups(x, 4);
    assert ShiftGroups(x, 8) == 128 * 128 * ShiftGroups(x, 6);
  }

  lemma ShiftDropsHighBits(low: nat, group: nat, i: nat)
    requires group < 128 && i < 10 && low < ShiftGroups(1, i)
    ensures ShiftGroups(group, i) % TWO64 == ShiftGroups(Kept(group, i), i)
    ensures low + ShiftGroups(Kept(group, i), i) < TWO64
    ensures low + ShiftGroups(Kept(group, i), i) < ShiftGroups(1, i + 1)
  {
    if i == 9 {
      ShiftByNine(group);
      ShiftByNine(group % 2);
      ShiftByNine(1);
    } else {
      ShiftMonotone(group, 127, i);
      ShiftsOfOne(i);
    }
  }

  lemma {:induction false} ContinueOneGroup(all: seq<byte>, rest: seq<byte>, i: nat, low: nat)
    requires i < 10 && rest != [] && rest[0] >= 128 && Continues(all, rest, i, low)
    ensures Continues(all, rest[1..], i + 1, low + ShiftGroups(Kept(rest[0] as int - 128, i), i))
  {
    var inner := Varint.ParseGroups(rest[1..], 10 - i - 1);
    if inner.Ok? {
      ShiftAdds(rest[0] as int - 128, inner.value, i);
    }
  }

  lemma StartGroups(all: seq<byte>)
    ensures Continues(all, all, 0, 0)
  {
  }

  lemma NoMoreGroups(all: seq<byte>, rest: seq<byte>, i: nat, low: nat)
    requires Continues(all, rest, i, low) && (rest == [] || i == 10)
    ensures Varint.Parse(all).Fail?
  {
  }

  lemma {:induction false} FinishGroups(all: seq<byte>, rest: seq<byte>, i: nat, low: nat)
    requires i < 10 && rest != [] && rest[0] < 128 && Continues(all, rest, i, low)
    requires low + ShiftGroups(Kept(rest[0] as int, i), i) < TWO64
    ensures Varint.Parse(all) == Ok(low + ShiftGroups(Kept(rest[0] as int, i), i), rest[1..])
  {
    Varint.ParseFrom(all, low + ShiftGroups(Kept(rest[0] as int, i), i), rest[1..]);
  }
}
