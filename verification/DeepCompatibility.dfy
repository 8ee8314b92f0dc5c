// Forward compatibility at every depth (include/Serializer.h).

module DeepCompatibility {
  import opened Bytes
  import opened Reading
  import opened Values
  import opened SerializerLaws
  import opened Serializer
  import opened Compatibility
  import Varint

  /** The field numbers an older reader knows in a struct and, under each, those it knows further down. */
  datatype Schema = Schema(fields: map<uint32, Schema>)

  // ------------------------------------------------------------------ leaving out what is not known

  /** The tree without the fields that the schema does not know, at every depth. */
  function Prune(v: Value, sch: Schema): (r: Value)
    decreases v, 1
  {
    match v
    case Array(es) => Array(PruneElems(es, sch))
    case Map(m) => Map(PruneEntries(m, sch))
    case Struct(fs) => Struct(PruneFields(fs, sch))
    case _ => v
  }

  function PruneElems(es: seq<Value>, sch: Schema): (r: seq<Value>)
    ensures |r| == |es|
    decreases es, 0
  {
    if es == [] then [] else [Prune(es[0], sch)] + PruneElems(es[1..], sch)
  }

  function PruneEntry(e: Entry, sch: Schema): (r: Entry)
    decreases e, 2
  {
    Entry(e.key, Prune(e.v, sch))
  }

  function PruneEntries(m: seq<Entry>, sch: Schema): (r: seq<Entry>)
    ensures |r| == |m|
    decreases m, 0
  {
    if m == [] then [] else [PruneEntry(m[0], sch)] + PruneEntries(m[1..], sch)
  }

  function PruneField(f: Field, sch: Schema): (r: Field)
    requires f.id in sch.fields
    decreases f, 2
  {
    Field(f.id, Prune(f.v, sch.fields[f.id]))
  }

  function PruneFields(fs: seq<Field>, sch: Schema): (r: seq<Field>)
    decreases fs, 0
  {
    if fs == [] then []
    else (if fs[0].id in sch.fields then [PruneField(fs[0], sch)] else []) + PruneFields(fs[1..], sch)
  }

  // ------------------------------------------------------------------ looking things up along a path

  datatype Hop = ByNumber(id: uint32) | ByIndex(i: nat) | ByEntry(i: nat)

  function HopTo(v: Value, h: Hop): (r: Option<Value>) {
    match h
    case ByNumber(id) => FindOf(v, id)
    case ByIndex(i) => if v.Array? && i < |v.elems| then Some(v.elems[i]) else None
    case ByEntry(i) => if v.Map? && i < |v.entries| then Some(v.entries[i].v) else None
  }

  function At(v: Value, path: seq<Hop>): (r: Option<Value>)
    decreases |path|
  {
    if path == [] then Some(v)
    else
      match HopTo(v, path[0])
      case None => None
      case Some(u) => At(u, path[1..])
  }

  predicate KnowsHop(sch: Schema, h: Hop) {
    h.ByNumber? ==> h.id in sch.fields
  }

  function Under(sch: Schema, h: Hop): (r: Schema)
    requires KnowsHop(sch, h)
  {
    if h.ByNumber? then sch.fields[h.id] else sch
  }

  /** Every number along the path is known where it is used. */
  predicate KnowsPath(sch: Schema, path: seq<Hop>)
    decreases |path|
  {
    path == [] || (KnowsHop(sch, path[0]) && KnowsPath(Under(sch, path[0]), path[1..]))
  }

  function UnderPath(sch: Schema, path: seq<Hop>): (r: Schema)
    requires KnowsPath(sch, path)
    decreases |path|
  {
    if path == [] then sch else UnderPath(Under(sch, path[0]), path[1..])
  }

  function Pruned(r: Option<Value>, sch: Schema): (p: Option<Value>) {
    match r
    case None => None
    case Some(v) => Some(Prune(v, sch))
  }

  // ------------------------------------------------------------------ pruning and looking up commute

  lemma {:induction false} PruneElemAt(es: seq<Value>, sch: Schema, i: nat)
    requires i < |es|
    ensures PruneElems(es, sch)[i] == Prune(es[i], sch)
  {
    hide Prune;
    if i > 0 {
      PruneElemAt(es[1..], sch, i - 1);
    }
  }

  lemma {:induction false} PruneEntryAt(m: seq<Entry>, sch: Schema, i: nat)
    requires i < |m|
    ensures PruneEntries(m, sch)[i] == PruneEntry(m[i], sch)
  {
    hide PruneEntry;
    if i > 0 {
      PruneEntryAt(m[1..], sch, i - 1);
    }
  }

  lemma {:induction false} PruneFind(fs: seq<Field>, sch: Schema, id: uint32)
    requires id in sch.fields
    ensures FindIn(PruneFields(fs, sch), id) == Pruned(FindIn(fs, id), sch.fields[id])
  {
    hide Prune;
    if fs != [] {
      PruneFind(fs[1..], sch, id);
      var rest := PruneFields(fs[1..], sch);
      if fs[0].id in sch.fields {
        assert PruneFields(fs, sch) == [PruneField(fs[0], sch)] + rest;
        assert PruneFields(fs, sch)[1..] == rest;
      } else {
        assert PruneFields(fs, sch) == rest;
      }
    }
  }

  lemma {:induction false} PruneHop(v: Value, sch: Schema, h: Hop)
    requires KnowsHop(sch, h)
    ensures HopTo(Prune(v, sch), h) == Pruned(HopTo(v, h), Under(sch, h))
  {
    match h
    case ByNumber(id) =>
      if v.Struct? {
        PruneFind(v.fields, sch, id);
      }
    case ByIndex(i) =>
      if v.Array? && i < |v.elems| {
        PruneElemAt(v.elems, sch, i);
      }
    case ByEntry(i) =>
      if v.Map? && i < |v.entries| {
        PruneEntryAt(v.entries, sch, i);
      }
  }

  /** Along a path of known numbers, looking up in the pruned tree is pruning what the lookup finds. */
  lemma {:induction false} PruneAt(v: Value, sch: Schema, path: seq<Hop>)
    requires KnowsPath(sch, path)
    ensures At(Prune(v, sch), path) == Pruned(At(v, path), UnderPath(sch, path))
    decreases |path|
  {
    if path != [] {
      PruneHop(v, sch, path[0]);
      var r := HopTo(v, path[0]);
      if r.Some? {
        PruneAt(r.value, Under(sch, path[0]), path[1..]);
      }
    }
  }

  // ------------------------------------------------------------------ pruning never lengthens

  lemma DelimitedShorter(a: seq<byte>, b: seq<byte>)
    requires |a| <= |b|
    ensures |Delimited(a)| <= |Delimited(b)|
  {
    Varint.EncodeMonotone(|a|, |b|);
  }

  lemma {:induction false} PruneShorter(v: Value, sch: Schema)
    ensures |TypedBytes(Prune(v, sch))| <= |TypedBytes(v)|
    decreases v, 1
  {
    match v
    case Array(es) =>
      ElemsShorter(es, sch);
      DelimitedShorter(ElemsBytes(PruneElems(es, sch)), ElemsBytes(es));
    case Map(m) =>
      EntriesShorter(m, sch);
      DelimitedShorter(EntriesBytes(PruneEntries(m, sch)), EntriesBytes(m));
    case Struct(fs) =>
      FieldsShorter(fs, sch);
      DelimitedShorter(FieldsBytes(PruneFields(fs, sch)), FieldsBytes(fs));
    case _ =>
  }

  lemma {:induction false} ElemsShorter(es: seq<Value>, sch: Schema)
    ensures |ElemsBytes(PruneElems(es, sch))| <= |ElemsBytes(es)|
    decreases es, 0
  {
    hide TypedBytes, Prune;
    if es != [] {
      PruneShorter(es[0], sch);
      ElemsShorter(es[1..], sch);
      assert PruneElems(es, sch)[1..] == PruneElems(es[1..], sch);
    }
  }

  lemma {:induction false} EntryShorter(e: Entry, sch: Schema)
    ensures |EntryBytes(PruneEntry(e, sch))| <= |EntryBytes(e)|
    decreases e, 2
  {
    hide TypedBytes, Prune, Delimited;
    PruneShorter(e.v, sch);
  }

  lemma {:induction false} EntriesShorter(m: seq<Entry>, sch: Schema)
    ensures |EntriesBytes(PruneEntries(m, sch))| <= |EntriesBytes(m)|
    decreases m, 0
  {
    hide EntryBytes, PruneEntry;
    if m != [] {
      EntryShorter(m[0], sch);
      EntriesShorter(m[1..], sch);
      assert PruneEntries(m, sch)[1..] == PruneEntries(m[1..], sch);
    }
  }

  lemma {:induction false} FieldShorter(f: Field, sch: Schema)
    requires f.id in sch.fields
    ensures |FieldBytes(PruneField(f, sch))| <= |FieldBytes(f)|
    decreases f, 2
  {
    hide TypedBytes, Prune;
    PruneShorter(f.v, sch.fields[f.id]);
  }

  lemma {:induction false} FieldsShorter(fs: seq<Field>, sch: Schema)
    ensures |FieldsBytes(PruneFields(fs, sch))| <= |FieldsBytes(fs)|
    decreases fs, 0
  {
    hide FieldBytes, PruneField;
    if fs != [] {
      FieldsShorter(fs[1..], sch);
      if fs[0].id in sch.fields {
        FieldShorter(fs[0], sch);
        FieldsBytesCons(PruneField(fs[0], sch), PruneFields(fs[1..], sch));
      } else {
        assert PruneFields(fs, sch) == PruneFields(fs[1..], sch);
      }
    }
  }

  // ------------------------------------------------------------------ across the wire

  /**
   * Forward compatibility at every depth: what an older reader finds along a path of numbers it knows, in the
   * decoded bytes of a newer struct, is what it would have found had the fields unknown to it never been written
   * anywhere in the tree; it finds nothing in the one if and only if it finds nothing in the other, and a value
   * without fields of its own is the same in both.
   */
  lemma {:induction false} DeeplyForwardCompatible(v: Value, sch: Schema, path: seq<Hop>)
    requires v.Struct? && |EncodedBytes(v)| < TWO64 && KnowsPath(sch, path)
    ensures var newer, older := Decoded(EncodedBytes(v)), Decoded(EncodedBytes(Prune(v, sch)));
            && newer.Some? && older.Some?
            && At(older.value, path) == Pruned(At(newer.value, path), UnderPath(sch, path))
            && (At(newer.value, path).None? <==> At(older.value, path).None?)
            && (var r := At(newer.value, path);
                r.Some? && !r.value.Array? && !r.value.Map? && !r.value.Struct? ==> At(older.value, path) == r)
  {
    RoundTrip(v);
    FieldsShorter(v.fields, sch);
    RoundTrip(Prune(v, sch));
    PruneAt(v, sch, path);
    hide At, EncodedBytes, Decoded;
  }
}
