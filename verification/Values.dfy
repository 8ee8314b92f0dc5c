// The dynamic value tree and its wire format (include/Serializer.h, src/Serializer.cpp).

module Values {
  import opened Bytes
  import opened Reading
  import Varint

  /** `Value`: doubles are kept as their 64-bit patterns, strings as raw bytes. */
  datatype Value =
    | Null
    | Bool(b: bool)
    | Int64(i: int64)
    | Uint64(u: uint64)
    | Double(bits: uint64)
    | String(s: seq<byte>)
    | Array(elems: seq<Value>)
    | Map(entries: seq<Entry>)
    | Struct(fields: seq<Field>)

  datatype Entry = Entry(key: seq<byte>, v: Value)
  datatype Field = Field(id: uint32, v: Value)

  // ------------------------------------------------------------------ what a tree looks like on the wire

  function TypeOf(v: Value): (t: byte)
    ensures t <= 8
  {
    match v
    case Null => 0
    case Bool(_) => 1
    case Int64(_) => 2
    case Uint64(_) => 3
    case Double(_) => 4
    case String(_) => 5
    case Array(_) => 6
    case Map(_) => 7
    case Struct(_) => 8
  }

  function PayloadBytes(v: Value): (bs: seq<byte>)
    decreases v, 0
  {
    match v
    case Null => []
    case Bool(b) => [if b then 1 else 0]
    case Int64(i) => Varint.Encode(Varint.ZigzagEncode(i))
    case Uint64(u) => Varint.Encode(u)
    case Double(bits) => LittleEndian(bits, 8)
    case String(s) => Delimited(s)
    case Array(es) => Delimited(ElemsBytes(es))
    case Map(m) => Delimited(EntriesBytes(m))
    case Struct(fs) => Delimited(FieldsBytes(fs))
  }

  /** A type byte and its payload. */
  function TypedBytes(v: Value): (bs: seq<byte>)
    ensures bs != []
    decreases v, 1
  {
    [TypeOf(v)] + PayloadBytes(v)
  }

  function ElemsBytes(es: seq<Value>): (bs: seq<byte>)
    decreases es, 0
  {
    if es == [] then [] else TypedBytes(es[0]) + ElemsBytes(es[1..])
  }

  function EntryBytes(e: Entry): (bs: seq<byte>)
    ensures bs != []
    decreases e, 2
  {
    [5] + Delimited(e.key) + TypedBytes(e.v)
  }

  function EntriesBytes(m: seq<Entry>): (bs: seq<byte>)
    decreases m, 0
  {
    if m == [] then [] else EntryBytes(m[0]) + EntriesBytes(m[1..])
  }

  /** `(field_number << 3) | 2`. */
  function Tag(id: uint32): (t: uint64) {
    8 * id + 2
  }

  function TagId(tag: uint64): (id: uint32) {
    tag / 8 % TWO32
  }

  function FieldBytes(f: Field): (bs: seq<byte>)
    ensures bs != []
    decreases f, 2
  {
    Varint.Encode(Tag(f.id)) + TypedBytes(f.v)
  }

  function FieldsBytes(fs: seq<Field>): (bs: seq<byte>)
    decreases fs, 0
  {
    if fs == [] then [] else FieldBytes(fs[0]) + FieldsBytes(fs[1..])
  }

  // ------------------------------------------------------------------ what the reader makes of any bytes

  function ParsePayload(t: byte, bs: seq<byte>): (p: Parse<Value>)
    ensures p.Ok? ==> |p.rest| <= |bs|
    decreases |bs|, 0
  {
    if t == 0 then
      Ok(Null, bs)
    else if t == 1 then
      if bs == [] then Fail else Ok(Bool(bs[0] != 0), bs[1..])
    else if t == 2 then
      match Varint.Parse(bs) { case Fail => Fail case Ok(u, rest) => Ok(Int64(Varint.ZigzagDecode(u)), rest) }
    else if t == 3 then
      match Varint.Parse(bs) { case Fail => Fail case Ok(u, rest) => Ok(Uint64(u), rest) }
    else if t == 4 then
      if |bs| < 8 then Fail else Ok(Double(Word(bs[..8])), bs[8..])
    else
      match ParseDelimited(bs)
      case Fail => Fail
      case Ok(payload, rest) =>
        match ParseContainer(t, payload)
        case None => Fail
        case Some(v) => Ok(v, rest)
  }

  /** The 64-bit pattern held by eight little-endian bytes. */
  function Word(bs: seq<byte>): (w: uint64)
    requires |bs| == 8
  {
    WordBound();
    FromLittleEndian(bs)
  }

  function ParseContainer(t: byte, payload: seq<byte>): (r: Option<Value>)
    decreases |payload|, 4
  {
    if t == 5 then
      Some(String(payload))
    else if t == 6 then
      match ParseElems(payload) { case None => None case Some(es) => Some(Array(es)) }
    else if t == 7 then
      match ParseEntries(payload) { case None => None case Some(m) => Some(Map(m)) }
    else if t == 8 then
      match ParseFields(payload) { case None => None case Some(fs) => Some(Struct(fs)) }
    else
      None
  }

  function ParseTyped(bs: seq<byte>): (p: Parse<Value>)
    ensures p.Ok? ==> |p.rest| < |bs|
    decreases |bs|, 1
  {
    if bs == [] then Fail else ParsePayload(bs[0], bs[1..])
  }

  function ParseElems(bs: seq<byte>): (r: Option<seq<Value>>)
    decreases |bs|, 2
  {
    if bs == [] then
      Some([])
    else
      match ParseTyped(bs)
      case Fail => None
      case Ok(v, rest) =>
        match ParseElems(rest)
        case None => None
        case Some(vs) => Some([v] + vs)
  }

  /** The key is read as any typed value and only then required to be a string. */
  function ParseEntry(bs: seq<byte>): (p: Parse<Entry>)
    ensures p.Ok? ==> |p.rest| < |bs|
    decreases |bs|, 2
  {
    match ParseTyped(bs)
    case Fail => Fail
    case Ok(k, afterKey) =>
      match ParseTyped(afterKey)
      case Fail => Fail
      case Ok(v, rest) => if k.String? then Ok(Entry(k.s, v), rest) else Fail
  }

  function ParseEntries(bs: seq<byte>): (r: Option<seq<Entry>>)
    decreases |bs|, 3
  {
    if bs == [] then
      Some([])
    else
      match ParseEntry(bs)
      case Fail => None
      case Ok(e, rest) =>
        match ParseEntries(rest)
        case None => None
        case Some(es) => Some([e] + es)
  }

  function ParseField(bs: seq<byte>): (p: Parse<Field>)
    ensures p.Ok? ==> |p.rest| < |bs|
    decreases |bs|, 2
  {
    match Varint.Parse(bs)
    case Fail => Fail
    case Ok(tag, afterTag) =>
      match ParseTyped(afterTag)
      case Fail => Fail
      case Ok(v, rest) => Ok(Field(TagId(tag), v), rest)
  }

  function ParseFields(bs: seq<byte>): (r: Option<seq<Field>>)
    decreases |bs|, 3
  {
    if bs == [] then
      Some([])
    else
      match ParseField(bs)
      case Fail => None
      case Ok(f, rest) =>
        match ParseFields(rest)
        case None => None
        case Some(fs) => Some([f] + fs)
  }

  // ------------------------------------------------------------------ words and tags

  lemma WordBound()
    ensures Pow256(8) == TWO64
  {
    assert Pow256(2) == 256 * 256;
    assert Pow256(4) == 256 * 256 * Pow256(2);
    assert Pow256(6) == 256 * 256 * Pow256(4);
  }

  lemma {:induction false} WordRoundTrip(bits: uint64)
    ensures Word(LittleEndian(bits, 8)) == bits
  {
    WordBound();
    LittleEndianRoundTrip(bits, 8);
  }

  lemma TagRoundTrip(id: uint32)
    ensures TagId(Tag(id)) == id
  {
  }

  /** A tag whose low bits are odd, or whose number exceeds 32 bits, re-encodes no longer. */
  lemma {:induction false} TagAtLeastCanonical(tag: uint64)
    ensures |Varint.Encode(Tag(TagId(tag)))| <= |Varint.Encode(tag)|
  {
    var q := tag / 8;
    var id := TagId(tag);
    assert id <= q;
    if id < 16 {
      Varint.EncodeMonotone(0, tag);
    } else {
      assert (8 * id + 2) / 128 == id / 16;
      assert tag / 128 == q / 16;
      Varint.EncodeMonotone(id / 16, q / 16);
    }
  }
}
