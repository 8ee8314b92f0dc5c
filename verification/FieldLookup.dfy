// Which value a lookup finds (include/Serializer.h).

module FieldLookup {
  import opened Bytes
  import opened Values
  import opened Serializer
  import opened Compatibility
  import opened DeepCompatibility

  predicate HasNone(fs: seq<Field>, id: uint32) {
    forall i :: 0 <= i < |fs| ==> fs[i].id != id
  }

  /** A field with no field of its number before it is the one found. */
  lemma {:induction false} FirstIsFound(a: seq<Field>, id: uint32, x: Value, b: seq<Field>)
    requires HasNone(a, id)
    ensures FindIn(a + [Field(id, x)] + b, id) == Some(x)
    decreases |a|
  {
    var fs := a + [Field(id, x)] + b;
    if a == [] {
      assert fs[0] == Field(id, x);
    } else {
      assert fs[0] == a[0];
      assert fs[1..] == a[1..] + [Field(id, x)] + b;
      FirstIsFound(a[1..], id, x, b);
    }
  }

  /** Whatever is found splits the fields into those before it, none of its number, itself, and those behind it. */
  lemma {:induction false} FoundIsFirst(fs: seq<Field>, id: uint32) returns (a: seq<Field>, b: seq<Field>)
    requires FindIn(fs, id).Some?
    ensures HasNone(a, id) && fs == a + [Field(id, FindIn(fs, id).value)] + b
    decreases |fs|
  {
    if fs[0].id == id {
      a, b := [], fs[1..];
    } else {
      a, b := FoundIsFirst(fs[1..], id);
      a := [fs[0]] + a;
    }
  }

  // ------------------------------------------------------------------ along a path

  /** One level of a tree around a hole: what stands before the hole and behind it. */
  datatype Layer =
    | InStruct(fields: seq<Field>, id: uint32, moreFields: seq<Field>)
    | InArray(elems: seq<Value>, moreElems: seq<Value>)
    | InMap(entries: seq<Entry>, key: seq<byte>, moreEntries: seq<Entry>)

  function Fill(l: Layer, x: Value): (v: Value) {
    match l
    case InStruct(a, id, b) => Struct(a + [Field(id, x)] + b)
    case InArray(a, b) => Array(a + [x] + b)
    case InMap(a, key, b) => Map(a + [Entry(key, x)] + b)
  }

  /** The tree with `x` in the hole, outermost layer first. */
  function Plant(ls: seq<Layer>, x: Value): (v: Value)
    decreases |ls|
  {
    if ls == [] then x else Fill(ls[0], Plant(ls[1..], x))
  }

  function HopOf(l: Layer): (h: Hop) {
    match l
    case InStruct(_, id, _) => ByNumber(id)
    case InArray(a, _) => ByIndex(|a|)
    case InMap(a, _, _) => ByEntry(|a|)
  }

  /** How to get to the hole. */
  function Way(ls: seq<Layer>): (path: seq<Hop>)
    decreases |ls|
  {
    if ls == [] then [] else [HopOf(ls[0])] + Way(ls[1..])
  }

  /** No field before the hole has the number of the one that leads to it. */
  predicate InView(l: Layer) {
    l.InStruct? ==> HasNone(l.fields, l.id)
  }

  predicate AllInView(ls: seq<Layer>) {
    forall i :: 0 <= i < |ls| ==> InView(ls[i])
  }

  lemma HopFinds(l: Layer, x: Value)
    requires InView(l)
    ensures HopTo(Fill(l, x), HopOf(l)) == Some(x)
  {
    if l.InStruct? {
      FirstIsFound(l.fields, l.id, x, l.moreFields);
    }
  }

  lemma {:induction false} PlantedIsFound(ls: seq<Layer>, x: Value)
    requires AllInView(ls)
    ensures At(Plant(ls, x), Way(ls)) == Some(x)
    decreases |ls|
  {
    hide HopTo, Fill;
    if ls != [] {
      assert InView(ls[0]);
      HopFinds(ls[0], Plant(ls[1..], x));
      PlantedIsFound(ls[1..], x);
      assert Way(ls)[1..] == Way(ls[1..]);
    }
  }

  lemma {:induction false} HopLayer(v: Value, h: Hop) returns (l: Layer)
    requires HopTo(v, h).Some?
    ensures InView(l) && HopOf(l) == h && Fill(l, HopTo(v, h).value) == v
  {
    match h
    case ByNumber(id) =>
      var a, b := FoundIsFirst(v.fields, id);
      l := InStruct(a, id, b);
    case ByIndex(i) =>
      l := InArray(v.elems[..i], v.elems[i + 1..]);
      assert v.elems == v.elems[..i] + [v.elems[i]] + v.elems[i + 1..];
    case ByEntry(i) =>
      l := InMap(v.entries[..i], v.entries[i].key, v.entries[i + 1..]);
      assert v.entries == v.entries[..i] + [v.entries[i]] + v.entries[i + 1..];
  }

  lemma {:induction false} FoundWasPlanted(v: Value, path: seq<Hop>) returns (ls: seq<Layer>)
    requires At(v, path).Some?
    ensures AllInView(ls) && Way(ls) == path && Plant(ls, At(v, path).value) == v
    decreases |path|
  {
    hide HopTo, Fill, InView;
    if path == [] {
      ls := [];
    } else {
      var l := HopLayer(v, path[0]);
      var more := FoundWasPlanted(HopTo(v, path[0]).value, path[1..]);
      ls := [l] + more;
      assert ls[1..] == more;
    }
  }

  /** `x` stands in the tree at the end of the path, behind no field that hides it. */
  ghost predicate StandsAt(v: Value, path: seq<Hop>, x: Value) {
    exists ls :: AllInView(ls) && Way(ls) == path && Plant(ls, x) == v
  }

  /**
   * In the decoded bytes of a struct, a lookup along a path finds a value if and only if that value was encoded there:
   * with nothing but fields of other numbers before it at every hop by number.
   */
  lemma {:induction false} FoundExactly(v: Value, path: seq<Hop>, x: Value)
    requires v.Struct? && |EncodedBytes(v)| < TWO64
    ensures Decoded(EncodedBytes(v)).Some?
    ensures At(Decoded(EncodedBytes(v)).value, path) == Some(x) <==> StandsAt(v, path, x)
  {
    RoundTrip(v);
    hide At, Way, Plant, EncodedBytes, Decoded;
    if At(v, path) == Some(x) {
      var ls := FoundWasPlanted(v, path);
    }
    if StandsAt(v, path, x) {
      var ls :| AllInView(ls) && Way(ls) == path && Plant(ls, x) == v;
      PlantedIsFound(ls, x);
    }
  }

  /** And what the schema does not know has left no trace in the pruned tree. */
  lemma {:induction false} UnknownIsGone(v: Value, sch: Schema, path: seq<Hop>, id: uint32)
    requires KnowsPath(sch, path) && id !in UnderPath(sch, path).fields
    requires At(Prune(v, sch), path).Some?
    ensures FindOf(At(Prune(v, sch), path).value, id).None?
  {
    PruneAt(v, sch, path);
    var u, s := At(v, path).value, UnderPath(sch, path);
    hide At, UnderPath, KnowsPath;
    if u.Struct? {
      NoneUnknown(u.fields, s, id);
    }
  }

  lemma {:induction false} NoneUnknown(fs: seq<Field>, sch: Schema, id: uint32)
    requires id !in sch.fields
    ensures HasNone(PruneFields(fs, sch), id)
    decreases |fs|
  {
    hide Prune;
    if fs != [] {
      NoneUnknown(fs[1..], sch, id);
    }
  }
}
