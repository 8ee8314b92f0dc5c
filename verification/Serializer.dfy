// `Serializer`: the recursive writers and readers of src/Serializer.cpp, and what encode/decode promise.

module Serializer {
  import opened Bytes
  import opened Reading
  import opened Values
  import opened SerializerLaws
  import Varint

  // ------------------------------------------------------------------ writers

  method WriteTyped(out: seq<byte>, v: Value) returns (res: seq<byte>)
    requires |TypedBytes(v)| < TWO64
    ensures res == out + TypedBytes(v)
    decreases v, 1
  {
    res := WritePayload(out + [TypeOf(v)], v);
    assert out + [TypeOf(v)] + PayloadBytes(v) == out + TypedBytes(v);
  }

  method WritePayload(out: seq<byte>, v: Value) returns (res: seq<byte>)
    requires |PayloadBytes(v)| < TWO64
    ensures res == out + PayloadBytes(v)
    decreases v, 0
  {
    res := out;
    match v {
      case Null =>
      case Bool(b) =>
        res := res + [if b then 1 else 0];
      case Int64(i) =>
        res := Varint.Write(res, Varint.ZigzagEncode(i));
      case Uint64(u) =>
        res := Varint.Write(res, u);
      case Double(bits) =>
        res := WriteWord(res, bits);
      case String(s) =>
        res := WriteDelimited(res, s);
      case Array(es) =>
        var payload := WriteElems(es);
        res := WriteDelimited(res, payload);
      case Map(m) =>
        var payload := WriteEntries(m);
        res := WriteDelimited(res, payload);
      case Struct(fs) =>
        var payload := WriteStructFields([], fs);
        res := WriteDelimited(res, payload);
    }
  }

  /** The eight bytes of a double, lowest first: `(bits >> 8 * i) & 0xFF`. */
  method WriteWord(out: seq<byte>, bits: uint64) returns (res: seq<byte>)
    ensures res == out + LittleEndian(bits, 8)
  {
    res := out;
    var w: nat := bits;
    for i := 0 to 8
      invariant res + LittleEndian(w, 8 - i) == out + LittleEndian(bits, 8)
    {
      res := res + [(w % 256) as byte];
      w := w / 256;
    }
  }

  method WriteDelimited(out: seq<byte>, payload: seq<byte>) returns (res: seq<byte>)
    requires |payload| < TWO64
    ensures res == out + Delimited(payload)
  {
    res := Varint.Write(out, |payload|);
    res := res + payload;
  }

  method WriteElems(es: seq<Value>) returns (payload: seq<byte>)
    requires |ElemsBytes(es)| < TWO64
    ensures payload == ElemsBytes(es)
    decreases es, 1
  {
    payload := [];
    for i := 0 to |es|
      invariant payload + ElemsBytes(es[i..]) == ElemsBytes(es)
    {
      assert es[i..][1..] == es[i + 1..];
      payload := WriteTyped(payload, es[i]);
    }
  }

  method WriteEntries(m: seq<Entry>) returns (payload: seq<byte>)
    requires |EntriesBytes(m)| < TWO64
    ensures payload == EntriesBytes(m)
    decreases m, 1
  {
    payload := [];
    for i := 0 to |m|
      invariant payload + EntriesBytes(m[i..]) == EntriesBytes(m)
    {
      assert m[i..][1..] == m[i + 1..];
      payload := WriteEntry(payload, m[i]);
    }
  }

  method WriteEntry(out: seq<byte>, e: Entry) returns (res: seq<byte>)
    requires |EntryBytes(e)| < TWO64
    ensures res == out + EntryBytes(e)
    decreases e, 2
  {
    res := WriteDelimited(out + [5], e.key);
    res := WriteTyped(res, e.v);
  }

  method WriteStructFields(out: seq<byte>, fs: seq<Field>) returns (res: seq<byte>)
    requires |FieldsBytes(fs)| < TWO64
    ensures res == out + FieldsBytes(fs)
    decreases fs, 1
  {
    res := out;
    for i := 0 to |fs|
      invariant res + FieldsBytes(fs[i..]) == out + FieldsBytes(fs)
      invariant |FieldsBytes(fs[i..])| < TWO64
    {
      assert fs[i..][1..] == fs[i + 1..];
      res := WriteField(res, fs[i]);
    }
  }

  method WriteField(out: seq<byte>, f: Field) returns (res: seq<byte>)
    requires |FieldBytes(f)| < TWO64
    ensures res == out + FieldBytes(f)
    decreases f, 2
  {
    res := Varint.Write(out, Tag(f.id));
    res := WriteTyped(res, f.v);
  }

  // ------------------------------------------------------------------ readers

  method ReadTyped(r: Reader) returns (ok: bool, v: Value)
    requires r.Valid()
    modifies r
    ensures r.Valid()
    ensures ok == ParseTyped(old(r.Rest())).Ok?
    ensures ok ==> Ok(v, r.Rest()) == ParseTyped(old(r.Rest()))
    decreases r.Remaining(), 0
  {
    v := Null;
    var t;
    ok, t := r.ReadByte();
    if !ok {
      return;
    }
    if t == 0 {
      v := Null;
    } else if t == 1 {
      var b;
      ok, b := r.ReadByte();
      v := Bool(b != 0);
    } else if t == 2 {
      var u;
      ok, u := r.ReadVarint();
      v := Int64(Varint.ZigzagDecode(u));
    } else if t == 3 {
      var u;
      ok, u := r.ReadVarint();
      v := Uint64(u);
    } else if t == 4 {
      var w;
      ok, w := r.ReadBytes(8);
      v := if ok then Double(Word(w)) else Null;
    } else {
      var payload;
      ok, payload := r.ReadLengthDelimited();
      if ok {
        ok, v := ReadContainer(t, payload);
      }
    }
  }

  /** Reads the payload of a length-delimited value with a cursor of its own. */
  method ReadContainer(t: byte, payload: seq<byte>) returns (ok: bool, v: Value)
    requires t > 4
    ensures ok == ParseContainer(t, payload).Some?
    ensures ok ==> v == ParseContainer(t, payload).value
    decreases |payload|, 4
  {
    v := Null;
    if t == 5 {
      return true, String(payload);
    } else if t == 6 {
      var es;
      ok, es := ReadElems(payload);
      v := Array(es);
    } else if t == 7 {
      var m;
      ok, m := ReadEntries(payload);
      v := Map(m);
    } else if t == 8 {
      var sub := new Reader(payload);
      var fs;
      ok, fs := ReadStructFields(sub);
      v := Struct(fs);
    } else {
      ok := false;
    }
  }

  method ReadElems(payload: seq<byte>) returns (ok: bool, es: seq<Value>)
    ensures ok == ParseElems(payload).Some?
    ensures ok ==> es == ParseElems(payload).value
    decreases |payload|, 3
  {
    var sub := new Reader(payload);
    es := [];
    while sub.Remaining() > 0
      invariant sub.Valid() && sub.Remaining() <= |payload|
      invariant ParseElems(payload) == Prepend(es, ParseElems(sub.Rest()))
      decreases sub.Remaining()
    {
      var e;
      ok, e := ReadTyped(sub);
      if !ok {
        return false, [];
      }
      PrependOne(es, e, ParseElems(sub.Rest()));
      es := es + [e];
    }
    ok := true;
  }

  method ReadEntries(payload: seq<byte>) returns (ok: bool, m: seq<Entry>)
    ensures ok == ParseEntries(payload).Some?
    ensures ok ==> m == ParseEntries(payload).value
    decreases |payload|, 3
  {
    var sub := new Reader(payload);
    m := [];
    while sub.Remaining() > 0
      invariant sub.Valid() && sub.Remaining() <= |payload|
      invariant ParseEntries(payload) == Prepend(m, ParseEntries(sub.Rest()))
      decreases sub.Remaining()
    {
      ghost var before := sub.Rest();
      var key, val;
      ok, key := ReadTyped(sub);
      if !ok {
        return false, [];
      }
      ok, val := ReadTyped(sub);
      if !ok || !key.String? {
        return false, [];
      }
      assert ParseEntry(before) == Ok(Entry(key.s, val), sub.Rest());
      PrependOne(m, Entry(key.s, val), ParseEntries(sub.Rest()));
      m := m + [Entry(key.s, val)];
    }
    ok := true;
  }

  method ReadStructFields(r: Reader) returns (ok: bool, fs: seq<Field>)
    requires r.Valid()
    modifies r
    ensures r.Valid()
    ensures ok == ParseFields(old(r.Rest())).Some?
    ensures ok ==> fs == ParseFields(old(r.Rest())).value
    decreases r.Remaining(), 3
  {
    fs := [];
    while r.Remaining() > 0
      invariant r.Valid() && r.Remaining() <= old(r.Remaining())
      invariant ParseFields(old(r.Rest())) == Prepend(fs, ParseFields(r.Rest()))
      decreases r.Remaining()
    {
      ghost var before := r.Rest();
      var tag, v;
      ok, tag := r.ReadVarint();
      if !ok {
        return false, [];
      }
      ok, v := ReadTyped(r);
      if !ok {
        return false, [];
      }
      assert ParseField(before) == Ok(Field(TagId(tag), v), r.Rest());
      PrependOne(fs, Field(TagId(tag), v), ParseFields(r.Rest()));
      fs := fs + [Field(TagId(tag), v)];
    }
    ok := true;
  }

  /** What a loop that has collected `done` will return, given what the rest of the input yields. */
  function Prepend<T>(done: seq<T>, rest: Option<seq<T>>): (r: Option<seq<T>>)
    ensures done == [] ==> r == rest
  {
    match rest
    case None => None
    case Some(s) => assert done == [] ==> done + s == s; Some(done + s)
  }

  lemma PrependOne<T>(done: seq<T>, x: T, rest: Option<seq<T>>)
    ensures Prepend(done + [x], rest) == Prepend(done, Prepend([x], rest))
  {
    if rest.Some? {
      assert done + [x] + rest.value == done + ([x] + rest.value);
    }
  }

  // ------------------------------------------------------------------ encode and decode

  /** Non-struct top-level values travel as the single field 1. */
  function Wrapped(v: Value): (fs: seq<Field>) {
    if v.Struct? then v.fields else [Field(1, v)]
  }

  function EncodedBytes(v: Value): (bs: seq<byte>) {
    FieldsBytes(Wrapped(v))
  }

  function Decoded(bs: seq<byte>): (r: Option<Value>)
    ensures r.Some? ==> r.value.Struct?
  {
    match ParseFields(bs) { case None => None case Some(fs) => Some(Struct(fs)) }
  }

  method Encode(v: Value) returns (out: seq<byte>)
    requires |EncodedBytes(v)| < TWO64
    ensures out == EncodedBytes(v)
  {
    if v.Struct? {
      out := WriteStructFields([], v.fields);
    } else {
      out := WriteStructFields([], [Field(1, v)]);
    }
  }

  method Decode(data: seq<byte>) returns (ok: bool, v: Value)
    ensures ok == Decoded(data).Some?
    ensures ok ==> v == Decoded(data).value
  {
    var r := new Reader(data);
    var fs;
    ok, fs := ReadStructFields(r);
    v := Struct(fs);
  }

  /** Every tree of any depth that fits in memory survives encode and decode. */
  lemma RoundTrip(v: Value)
    requires |EncodedBytes(v)| < TWO64
    ensures Decoded(EncodedBytes(v)) == Some(if v.Struct? then v else Struct([Field(1, v)]))
  {
    FieldsRoundTrip(Wrapped(v));
  }

  /** Encoding forgets nothing but the top-level wrapping. */
  lemma EncodeInjectiveUpToWrapping(v: Value, w: Value)
    requires |EncodedBytes(v)| < TWO64 && |EncodedBytes(w)| < TWO64
    ensures EncodedBytes(v) == EncodedBytes(w) <==> Wrapped(v) == Wrapped(w)
  {
    RoundTrip(v);
    RoundTrip(w);
  }

  /**
   * Any accepted bytes, whatever their overlong varints, odd tags and odd booleans, decode to a value whose
   * own encoding is no longer and decodes to the same value.
   */
  lemma Canonicalisation(x: seq<byte>)
    requires |x| < TWO64 && Decoded(x).Some?
    ensures |EncodedBytes(Decoded(x).value)| <= |x|
    ensures Decoded(EncodedBytes(Decoded(x).value)) == Decoded(x)
  {
    FieldsAtLeastCanonical(x);
    RoundTrip(Decoded(x).value);
  }

  /** A cut encoding decodes exactly when the cut is a field boundary. */
  lemma {:induction false} Truncation(v: Value, p: seq<byte>)
    requires |EncodedBytes(v)| < TWO64 && p <= EncodedBytes(v)
    ensures var k := WholeFields(Wrapped(v), |p|);
            Decoded(p) == if p == FieldsBytes(Wrapped(v)[..k]) then Some(Struct(Wrapped(v)[..k])) else None
  {
    TruncatedFields(Wrapped(v), p);
  }
}
