// The 32-byte frame header (include/Protocol.h).

module Protocol {
  import opened Bytes

  const MAGIC: uint16 := 0x4D50
  const VERSION: byte := 2
  const HEADER_SIZE: nat := 32
  const MAX_BODY_LEN: nat := 64 * 1024 * 1024

  const MSG_REQUEST: byte := 0
  const MSG_RESPONSE: byte := 1
  const MSG_ONEWAY: byte := 2
  const MSG_HEARTBEAT: byte := 3
  const MSG_HEARTBEAT_ACK: byte := 4

  datatype Status =
    | StatusOk
    | InvalidArgument
    | MethodNotFound
    | SerializationError
    | InternalError
    | DeadlineExceeded
    | RequestTooLarge
    | Unknown
    | ShuttingDown
    | ConcurrencyLimited

  datatype Header = Header(
    magic: uint16,
    version: byte,
    flags: byte,
    msgType: byte,
    status: uint16,
    requestId: uint32,
    methodId: uint32,
    timeoutMs: uint32,
    bodyLen: uint32,
    traceId: uint64,
    reserved: byte)

  /** The header as the wire carries it, field after field in network order. */
  function HeaderBytes(h: Header): (bs: seq<byte>)
    ensures |bs| == HEADER_SIZE
  {
    BigEndian(h.magic, 2) + [h.version, h.flags, h.msgType] + BigEndian(h.status, 2)
    + BigEndian(h.requestId, 4) + BigEndian(h.methodId, 4) + BigEndian(h.timeoutMs, 4)
    + BigEndian(h.bodyLen, 4) + BigEndian(h.traceId, 8) + [h.reserved]
  }

  /** The fields found at the header's fixed offsets. */
  function ParseHeader(bs: seq<byte>): (h: Header)
    requires |bs| == HEADER_SIZE
  {
    Widths();
    Header(
      FromBigEndian(bs[0..2]), bs[2], bs[3], bs[4], FromBigEndian(bs[5..7]),
      FromBigEndian(bs[7..11]), FromBigEndian(bs[11..15]), FromBigEndian(bs[15..19]),
      FromBigEndian(bs[19..23]), FromBigEndian(bs[23..31]), bs[31])
  }

  /** `decodeHeader` accepts a header iff magic and version are this protocol's. */
  predicate Accepts(h: Header) {
    h.magic == MAGIC && h.version == VERSION
  }

  lemma Widths()
    ensures Pow256(2) == 0x1_0000 && Pow256(4) == TWO32 && Pow256(8) == TWO64
  {
    assert Pow256(4) == 256 * 256 * Pow256(2);
    assert Pow256(6) == 256 * 256 * Pow256(4);
  }

  /** The offsets of `encodeHeader` and of `decodeHeader` agree. */
  lemma HeaderSlices(h: Header)
    ensures var bs := HeaderBytes(h);
            && bs[0..2] == BigEndian(h.magic, 2)
            && bs[5..7] == BigEndian(h.status, 2)
            && bs[7..11] == BigEndian(h.requestId, 4)
            && bs[11..15] == BigEndian(h.methodId, 4)
            && bs[15..19] == BigEndian(h.timeoutMs, 4)
            && bs[19..23] == BigEndian(h.bodyLen, 4)
            && bs[23..31] == BigEndian(h.traceId, 8)
            && bs[2] == h.version && bs[3] == h.flags && bs[4] == h.msgType && bs[31] == h.reserved
  {
  }

  /** No header field is lost or mixed with another on the wire. */
  lemma HeaderRoundTrip(h: Header)
    ensures ParseHeader(HeaderBytes(h)) == h
  {
    hide HeaderBytes, BigEndian, FromBigEndian;
    Widths();
    HeaderSlices(h);
    BigEndianRoundTrip(h.magic, 2);
    BigEndianRoundTrip(h.status, 2);
    BigEndianRoundTrip(h.requestId, 4);
    BigEndianRoundTrip(h.methodId, 4);
    BigEndianRoundTrip(h.timeoutMs, 4);
    BigEndianRoundTrip(h.bodyLen, 4);
    BigEndianRoundTrip(h.traceId, 8);
  }

  /** Every 32-byte block is the image of exactly one header. */
  lemma HeaderOnto(bs: seq<byte>)
    requires |bs| == HEADER_SIZE
    ensures HeaderBytes(ParseHeader(bs)) == bs
  {
    BigEndianOnto(bs[0..2]);
    BigEndianOnto(bs[5..7]);
    BigEndianOnto(bs[7..11]);
    BigEndianOnto(bs[11..15]);
    BigEndianOnto(bs[15..19]);
    BigEndianOnto(bs[19..23]);
    BigEndianOnto(bs[23..31]);
    Regroup(bs);
  }

  lemma Regroup(bs: seq<byte>)
    requires |bs| == HEADER_SIZE
    ensures bs == bs[0..2] + [bs[2], bs[3], bs[4]] + bs[5..7] + bs[7..11] + bs[11..15] + bs[15..19]
                  + bs[19..23] + bs[23..31] + [bs[31]]
  {
  }

  // ------------------------------------------------------------------ the codec in place

  /** `memcpy(out + off, bs, |bs|)`. */
  method CopyInto(out: array<byte>, off: nat, bs: seq<byte>)
    requires off + |bs| <= out.Length
    modifies out
    ensures out[..off + |bs|] == old(out[..off]) + bs
    ensures forall i :: off + |bs| <= i < out.Length ==> out[i] == old(out[i])
  {
    for i := 0 to |bs|
      invariant out[..off + i] == old(out[..off]) + bs[..i]
      invariant forall j :: off + i <= j < out.Length ==> out[j] == old(out[j])
    {
      out[off + i] := bs[i];
    }
  }

  /** `encodeHeader`: fills the first 32 bytes of `out` and touches no other. */
  method EncodeHeader(h: Header, out: array<byte>)
    requires out.Length >= HEADER_SIZE
    modifies out
    ensures out[..HEADER_SIZE] == HeaderBytes(h)
    ensures forall i :: HEADER_SIZE <= i < out.Length ==> out[i] == old(out[i])
  {
    CopyInto(out, 0, BigEndian(h.magic, 2));
    CopyInto(out, 2, [h.version, h.flags, h.msgType]);
    CopyInto(out, 5, BigEndian(h.status, 2));
    CopyInto(out, 7, BigEndian(h.requestId, 4));
    CopyInto(out, 11, BigEndian(h.methodId, 4));
    CopyInto(out, 15, BigEndian(h.timeoutMs, 4));
    CopyInto(out, 19, BigEndian(h.bodyLen, 4));
    CopyInto(out, 23, BigEndian(h.traceId, 8));
    CopyInto(out, 31, [h.reserved]);
  }
}
