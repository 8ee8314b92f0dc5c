// Reading structs written by newer versions (include/Serializer.h).

module Compatibility {
  import opened Bytes
  import opened Values
  import opened SerializerLaws
  import opened Serializer

  /** The value of the first field numbered `id`. */
  function FindIn(fs: seq<Field>, id: uint32): (r: Option<Value>)
    ensures r.None? <==> forall i :: 0 <= i < |fs| ==> fs[i].id != id
  {
    if fs == [] then None else if fs[0].id == id then Some(fs[0].v) else FindIn(fs[1..], id)
  }

  function FindOf(v: Value, id: uint32): (r: Option<Value>) {
    if v.Struct? then FindIn(v.fields, id) else None
  }

  /** `Value::find`. */
  method Find(v: Value, id: uint32) returns (r: Option<Value>)
    ensures r == FindOf(v, id)
  {
    if !v.Struct? {
      return None;
    }
    for i := 0 to |v.fields|
      invariant FindIn(v.fields, id) == FindIn(v.fields[i..], id)
    {
      if v.fields[i].id == id {
        return Some(v.fields[i].v);
      }
      assert v.fields[i..][1..] == v.fields[i + 1..];
    }
    return None;
  }

  /** The fields whose numbers an older reader knows. */
  function Known(fs: seq<Field>, ids: set<uint32>): (r: seq<Field>) {
    if fs == [] then [] else (if fs[0].id in ids then [fs[0]] else []) + Known(fs[1..], ids)
  }

  lemma {:induction false} FindKnown(fs: seq<Field>, ids: set<uint32>, id: uint32)
    requires id in ids
    ensures FindIn(Known(fs, ids), id) == FindIn(fs, id)
  {
    if fs != [] {
      FindKnown(fs[1..], ids, id);
      if fs[0].id in ids {
        assert Known(fs, ids)[1..] == Known(fs[1..], ids);
      } else {
        assert Known(fs, ids) == Known(fs[1..], ids);
      }
    }
  }

  lemma {:induction false} KnownIsShorter(fs: seq<Field>, ids: set<uint32>)
    ensures |FieldsBytes(Known(fs, ids))| <= |FieldsBytes(fs)|
  {
    hide FieldBytes;
    if fs != [] {
      KnownIsShorter(fs[1..], ids);
      if fs[0].id in ids {
        FieldsBytesCons(fs[0], Known(fs[1..], ids));
      } else {
        assert Known(fs, ids) == Known(fs[1..], ids);
      }
    }
  }

  /**
   * Forward compatibility: a reader that knows only the numbers `ids` finds, in the decoded bytes of a newer
   * struct, exactly what it would have found had the unknown fields never been written, wherever they stand.
   */
  lemma {:induction false} ForwardCompatible(fs: seq<Field>, ids: set<uint32>, id: uint32)
    requires |EncodedBytes(Struct(fs))| < TWO64 && id in ids
    ensures var newer, older := Decoded(EncodedBytes(Struct(fs))), Decoded(EncodedBytes(Struct(Known(fs, ids))));
            newer.Some? && older.Some? && FindOf(newer.value, id) == FindOf(older.value, id)
  {
    RoundTrip(Struct(fs));
    KnownIsShorter(fs, ids);
    RoundTrip(Struct(Known(fs, ids)));
    FindKnown(fs, ids, id);
  }

  /** Any two accepted byte strings, however spelled, concatenate to the struct of their fields in order. */
  lemma {:induction false} ConcatenationMerges(x: seq<byte>, y: seq<byte>)
    requires ParseFields(x).Some? && ParseFields(y).Some?
    ensures ParseFields(x + y) == Some(ParseFields(x).value + ParseFields(y).value)
    decreases |x|
  {
    hide ParseField;
    if x == [] {
      assert x + y == y;
      assert [] + ParseFields(y).value == ParseFields(y).value;
    } else {
      var f, rest := ParseField(x).value, ParseField(x).rest;
      FieldsHead(x, f, rest);
      ConcatenationMerges(rest, y);
      FieldExtend(x, y);
      FieldsHead(x + y, f, rest + y);
      assert [f] + (ParseFields(rest).value + ParseFields(y).value) == ParseFields(x).value + ParseFields(y).value;
    }
  }
}
