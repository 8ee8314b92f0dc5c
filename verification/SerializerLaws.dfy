// The laws of the wire format: round trip, self-delimitation, canonicalisation and truncation.

module SerializerLaws {
  import opened Bytes
  import opened Reading
  import opened Values
  import Varint

  // ------------------------------------------------------------------ round trip

  lemma {:induction false} PayloadThenRest(v: Value, rest: seq<byte>)
    ensures ParseTyped(TypedBytes(v) + rest) == ParsePayload(TypeOf(v), PayloadBytes(v) + rest)
  {
    assert (TypedBytes(v) + rest)[1..] == PayloadBytes(v) + rest;
  }

  lemma {:induction false} ContainerThenRest(t: byte, payload: seq<byte>, rest: seq<byte>)
    requires t > 4 && |payload| < TWO64
    ensures ParsePayload(t, Delimited(payload) + rest) ==
            match ParseContainer(t, payload) { case None => Fail case Some(v) => Ok(v, rest) }
  {
    DelimitedRoundTrip(payload, rest);
  }

  lemma {:induction false} ScalarRoundTrip(v: Value, rest: seq<byte>)
    requires v.Null? || v.Bool? || v.Int64? || v.Uint64? || v.Double?
    ensures ParsePayload(TypeOf(v), PayloadBytes(v) + rest) == Ok(v, rest)
  {
    var bs := PayloadBytes(v) + rest;
    match v
    case Null => assert bs == rest;
    case Bool(b) => assert bs[1..] == rest;
    case Int64(i) =>
      Varint.RoundTrip(Varint.ZigzagEncode(i), rest);
      Varint.ZigzagBijection(i, 0);
    case Uint64(u) =>
      Varint.RoundTrip(u, rest);
    case Double(bits) =>
      WordRoundTrip(bits);
      assert bs[..8] == LittleEndian(bits, 8) && bs[8..] == rest;
  }

  /** Self-delimiting: whatever follows a typed value, reading it back stops exactly where it ends. */
  lemma {:induction false} TypedRoundTrip(v: Value, rest: seq<byte>)
    requires |TypedBytes(v)| < TWO64
    ensures ParseTyped(TypedBytes(v) + rest) == Ok(v, rest)
    decreases v, 1
  {
    PayloadThenRest(v, rest);
    match v
    case String(s) =>
      ContainerThenRest(5, s, rest);
    case Array(es) =>
      ElemsRoundTrip(es);
      ContainerThenRest(6, ElemsBytes(es), rest);
    case Map(m) =>
      EntriesRoundTrip(m);
      ContainerThenRest(7, EntriesBytes(m), rest);
    case Struct(fs) =>
      FieldsRoundTrip(fs);
      ContainerThenRest(8, FieldsBytes(fs), rest);
    case _ =>
      ScalarRoundTrip(v, rest);
  }

  lemma {:induction false} ElemsRoundTrip(es: seq<Value>)
    requires |ElemsBytes(es)| < TWO64
    ensures ParseElems(ElemsBytes(es)) == Some(es)
    decreases es, 0
  {
    if es != [] {
      TypedRoundTrip(es[0], ElemsBytes(es[1..]));
      ElemsRoundTrip(es[1..]);
      ElemsCons(ElemsBytes(es), es[0], ElemsBytes(es[1..]), es[1..]);
      assert [es[0]] + es[1..] == es;
    }
  }

  lemma {:induction false} ElemsCons(bs: seq<byte>, v: Value, rest: seq<byte>, vs: seq<Value>)
    requires ParseTyped(bs) == Ok(v, rest) && ParseElems(rest) == Some(vs)
    ensures ParseElems(bs) == Some([v] + vs)
  {
  }

  lemma {:induction false} KeyRoundTrip(key: seq<byte>, rest: seq<byte>)
    requires |key| < TWO64
    ensures ParseTyped([5] + Delimited(key) + rest) == Ok(String(key), rest)
  {
    PayloadThenRest(String(key), rest);
    ContainerThenRest(5, key, rest);
  }

  lemma {:induction false} EntryRoundTrip(e: Entry, rest: seq<byte>)
    requires |EntryBytes(e)| < TWO64
    ensures ParseEntry(EntryBytes(e) + rest) == Ok(e, rest)
    decreases e, 2
  {
    KeyRoundTrip(e.key, TypedBytes(e.v) + rest);
    TypedRoundTrip(e.v, rest);
    EntryFrom([5] + Delimited(e.key), TypedBytes(e.v), rest, e.key, e.v);
  }

  lemma {:induction false} EntryFrom(kb: seq<byte>, vb: seq<byte>, rest: seq<byte>, key: seq<byte>, v: Value)
    requires ParseTyped(kb + (vb + rest)) == Ok(String(key), vb + rest)
    requires ParseTyped(vb + rest) == Ok(v, rest)
    ensures ParseEntry(kb + vb + rest) == Ok(Entry(key, v), rest)
  {
    hide ParseTyped;
    assert kb + vb + rest == kb + (vb + rest);
  }

  lemma {:induction false} EntriesRoundTrip(m: seq<Entry>)
    requires |EntriesBytes(m)| < TWO64
    ensures ParseEntries(EntriesBytes(m)) == Some(m)
    decreases m, 0
  {
    if m != [] {
      EntryRoundTrip(m[0], EntriesBytes(m[1..]));
      EntriesRoundTrip(m[1..]);
      EntriesCons(EntriesBytes(m), m[0], EntriesBytes(m[1..]), m[1..]);
      assert [m[0]] + m[1..] == m;
    }
  }

  lemma {:induction false} EntriesCons(bs: seq<byte>, e: Entry, rest: seq<byte>, es: seq<Entry>)
    requires ParseEntry(bs) == Ok(e, rest) && ParseEntries(rest) == Some(es)
    ensures ParseEntries(bs) == Some([e] + es)
  {
  }

  lemma {:induction false} FieldRoundTrip(f: Field, rest: seq<byte>)
    requires |FieldBytes(f)| < TWO64
    ensures ParseField(FieldBytes(f) + rest) == Ok(f, rest)
    decreases f, 2
  {
    Varint.RoundTrip(Tag(f.id), TypedBytes(f.v) + rest);
    TypedRoundTrip(f.v, rest);
    TagRoundTrip(f.id);
    FieldFrom(Varint.Encode(Tag(f.id)), TypedBytes(f.v), rest, Tag(f.id), f.id, f.v);
  }

  lemma {:induction false} FieldFrom(tb: seq<byte>, vb: seq<byte>, rest: seq<byte>, tag: uint64, id: uint32, v: Value)
    requires Varint.Parse(tb + (vb + rest)) == Ok(tag, vb + rest) && TagId(tag) == id
    requires ParseTyped(vb + rest) == Ok(v, rest)
    ensures ParseField(tb + vb + rest) == Ok(Field(id, v), rest)
  {
    assert tb + vb + rest == tb + (vb + rest);
  }

  lemma {:induction false} FieldsRoundTrip(fs: seq<Field>)
    requires |FieldsBytes(fs)| < TWO64
    ensures ParseFields(FieldsBytes(fs)) == Some(fs)
    decreases fs, 0
  {
    if fs != [] {
      FieldRoundTrip(fs[0], FieldsBytes(fs[1..]));
      FieldsRoundTrip(fs[1..]);
      FieldsCons(FieldsBytes(fs), fs[0], FieldsBytes(fs[1..]), fs[1..]);
      assert [fs[0]] + fs[1..] == fs;
    }
  }

  lemma {:induction false} FieldsCons(bs: seq<byte>, f: Field, rest: seq<byte>, fs: seq<Field>)
    requires ParseField(bs) == Ok(f, rest) && ParseFields(rest) == Some(fs)
    ensures ParseFields(bs) == Some([f] + fs)
  {
  }

  // ------------------------------------------------------------------ locality and prefixes

  lemma {:induction false} ParsePayloadExtend(t: byte, bs: seq<byte>, more: seq<byte>)
    requires ParsePayload(t, bs).Ok?
    ensures ParsePayload(t, bs + more) == Ok(ParsePayload(t, bs).value, ParsePayload(t, bs).rest + more)
  {
    if t == 1 {
      assert (bs + more)[1..] == bs[1..] + more;
    } else if t == 2 || t == 3 {
      Varint.Extend(bs, more);
    } else if t == 4 {
      assert (bs + more)[..8] == bs[..8] && (bs + more)[8..] == bs[8..] + more;
    } else if t > 4 {
      DelimitedExtend(bs, more);
    }
  }

  /** Reading a typed value never depends on the bytes after it. */
  lemma {:induction false} TypedExtend(bs: seq<byte>, more: seq<byte>)
    requires ParseTyped(bs).Ok?
    ensures ParseTyped(bs + more) == Ok(ParseTyped(bs).value, ParseTyped(bs).rest + more)
  {
    ParsePayloadExtend(bs[0], bs[1..], more);
    assert (bs + more)[1..] == bs[1..] + more;
  }

  /** Every strict prefix of an encoded value is rejected. */
  lemma {:induction false} TypedPrefixRejected(v: Value, p: seq<byte>)
    requires |TypedBytes(v)| < TWO64 && p < TypedBytes(v)
    ensures ParseTyped(p).Fail?
  {
    if ParseTyped(p).Ok? {
      var more := TypedBytes(v)[|p|..];
      assert p + more == TypedBytes(v) + [];
      TypedRoundTrip(v, []);
      TypedExtend(p, more);
    }
  }

  lemma {:induction false} FieldExtend(bs: seq<byte>, more: seq<byte>)
    requires ParseField(bs).Ok?
    ensures ParseField(bs + more) == Ok(ParseField(bs).value, ParseField(bs).rest + more)
  {
    Varint.Extend(bs, more);
    TypedExtend(Varint.Parse(bs).rest, more);
  }

  lemma {:induction false} FieldPrefixRejected(f: Field, p: seq<byte>)
    requires |FieldBytes(f)| < TWO64 && p < FieldBytes(f)
    ensures ParseField(p).Fail?
  {
    if ParseField(p).Ok? {
      var more := FieldBytes(f)[|p|..];
      assert p + more == FieldBytes(f) + [];
      FieldRoundTrip(f, []);
      FieldExtend(p, more);
    }
  }

  /** How many whole fields fit in a prefix of `n` bytes. */
  function WholeFields(fs: seq<Field>, n: nat): (k: nat)
    ensures k <= |fs|
  {
    if fs == [] || n < |FieldBytes(fs[0])| then 0 else 1 + WholeFields(fs[1..], n - |FieldBytes(fs[0])|)
  }

  /**
   * Truncation, exactly: cutting an encoded struct is noticed unless the cut falls on a field boundary, and
   * then what decodes is the struct of the fields before it.
   */
  lemma {:induction false} TruncatedFields(fs: seq<Field>, p: seq<byte>)
    requires |FieldsBytes(fs)| < TWO64 && p <= FieldsBytes(fs)
    ensures var k := WholeFields(fs, |p|);
            ParseFields(p) == if p == FieldsBytes(fs[..k]) then Some(fs[..k]) else None
  {
    hide FieldBytes, ParseField;
    if p == [] {
    } else if |p| < |FieldBytes(fs[0])| {
      assert p < FieldBytes(fs[0]);
      FieldPrefixRejected(fs[0], p);
    } else {
      var head := FieldBytes(fs[0]);
      var q := p[|head|..];
      assert p == head + q;
      TruncatedFields(fs[1..], q);
      var j := WholeFields(fs[1..], |q|);
      var kept := fs[1..][..j];
      assert fs[..j + 1] == [fs[0]] + kept;
      FieldsBytesCons(fs[0], kept);
      FieldRoundTrip(fs[0], q);
      SameTail(head, q, FieldsBytes(kept));
      FieldsHead(head + q, fs[0], q);
    }
  }

  lemma SameTail(head: seq<byte>, a: seq<byte>, b: seq<byte>)
    ensures head + a == head + b <==> a == b
  {
    assert (head + a)[|head|..] == a && (head + b)[|head|..] == b;
  }

  lemma {:induction false} FieldsHead(bs: seq<byte>, f: Field, rest: seq<byte>)
    requires ParseField(bs) == Ok(f, rest)
    ensures ParseFields(bs) == match ParseFields(rest) { case None => None case Some(fs) => Some([f] + fs) }
  {
  }

  lemma {:induction false} FieldsBytesCons(f: Field, fs: seq<Field>)
    ensures FieldsBytes([f] + fs) == FieldBytes(f) + FieldsBytes(fs)
  {
    assert ([f] + fs)[1..] == fs;
  }

  // ------------------------------------------------------------------ canonicalisation

  lemma {:induction false} ScalarAtLeastCanonical(t: byte, bs: seq<byte>)
    requires t <= 4 && ParsePayload(t, bs).Ok?
    ensures var p := ParsePayload(t, bs);
            TypeOf(p.value) == t && |PayloadBytes(p.value)| <= |bs| - |p.rest|
  {
    if t == 2 {
      Varint.AtLeastCanonical(bs);
      Varint.ZigzagBijection(0, Varint.Parse(bs).value);
    } else if t == 3 {
      Varint.AtLeastCanonical(bs);
    }
  }

  /** However a value was spelled, re-encoding it takes no more bytes than were read. */
  lemma {:induction false} TypedAtLeastCanonical(bs: seq<byte>)
    requires ParseTyped(bs).Ok?
    ensures |TypedBytes(ParseTyped(bs).value)| <= |bs| - |ParseTyped(bs).rest|
    decreases |bs|, 1
  {
    var t, tail := bs[0], bs[1..];
    if t <= 4 {
      ScalarAtLeastCanonical(t, tail);
    } else {
      var payload := ParseDelimited(tail).value;
      ContainerAtLeastCanonical(t, payload);
      var v := ParseContainer(t, payload).value;
      DelimitedAtLeastCanonical(tail, Inner(v));
    }
  }

  /** The payload inside a container's length prefix. */
  function Inner(v: Value): (bs: seq<byte>) {
    match v
    case String(s) => s
    case Array(es) => ElemsBytes(es)
    case Map(m) => EntriesBytes(m)
    case Struct(fs) => FieldsBytes(fs)
    case _ => []
  }

  lemma {:induction false} ContainerAtLeastCanonical(t: byte, payload: seq<byte>)
    requires t > 4 && ParseContainer(t, payload).Some?
    ensures var v := ParseContainer(t, payload).value;
            |Inner(v)| <= |payload| && TypeOf(v) > 4 && PayloadBytes(v) == Delimited(Inner(v))
    decreases |payload|, 4
  {
    if t == 6 {
      ElemsAtLeastCanonical(payload);
    } else if t == 7 {
      EntriesAtLeastCanonical(payload);
    } else if t == 8 {
      FieldsAtLeastCanonical(payload);
    }
  }

  lemma {:induction false} ElemsAtLeastCanonical(bs: seq<byte>)
    requires ParseElems(bs).Some?
    ensures |ElemsBytes(ParseElems(bs).value)| <= |bs|
    decreases |bs|, 3
  {
    if bs != [] {
      TypedAtLeastCanonical(bs);
      var rest := ParseTyped(bs).rest;
      ElemsAtLeastCanonical(rest);
      assert ParseElems(bs).value[1..] == ParseElems(rest).value;
    }
  }

  lemma {:induction false} EntriesAtLeastCanonical(bs: seq<byte>)
    requires ParseEntries(bs).Some?
    ensures |EntriesBytes(ParseEntries(bs).value)| <= |bs|
    decreases |bs|, 3
  {
    if bs != [] {
      TypedAtLeastCanonical(bs);
      TypedAtLeastCanonical(ParseTyped(bs).rest);
      var rest := ParseEntry(bs).rest;
      EntriesAtLeastCanonical(rest);
      assert ParseEntries(bs).value[1..] == ParseEntries(rest).value;
    }
  }

  lemma {:induction false} FieldsAtLeastCanonical(bs: seq<byte>)
    requires ParseFields(bs).Some?
    ensures |FieldsBytes(ParseFields(bs).value)| <= |bs|
    decreases |bs|, 3
  {
    if bs != [] {
      Varint.AtLeastCanonical(bs);
      TagAtLeastCanonical(Varint.Parse(bs).value);
      TypedAtLeastCanonical(Varint.Parse(bs).rest);
      var rest := ParseField(bs).rest;
      FieldsAtLeastCanonical(rest);
      assert ParseFields(bs).value[1..] == ParseFields(rest).value;
    }
  }
}
