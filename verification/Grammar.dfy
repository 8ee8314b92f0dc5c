// The language that the reader accepts (src/Serializer.cpp).

module Grammar {
  import opened Bytes
  import opened Reading
  import opened Values
  import opened SerializerLaws
  import opened Serializer
  import Varint

  // ------------------------------------------------------------------ numbers

  /** The low seven bits of every byte, lowest group first. */
  function Groups(bs: seq<byte>): (n: nat) {
    if bs == [] then 0 else bs[0] as int % 128 + 128 * Groups(bs[1..])
  }

  /** At most `max` bytes, of which the last and only the last has its top bit clear. */
  predicate IsVarint(bs: seq<byte>, max: nat) {
    0 < |bs| <= max && bs[|bs| - 1] < 128 && forall i :: 0 <= i < |bs| - 1 ==> bs[i] >= 128
  }

  /** Any spelling of a 64-bit number, with idle groups or with bits beyond the word. */
  predicate SpellsNumber(bs: seq<byte>, n: uint64) {
    IsVarint(bs, 10) && n == Groups(bs) % TWO64
  }

  /** What `budget` groups of a word can hold. */
  function Room(budget: nat): (m: nat)
    requires budget > 0
    ensures m > 0
  {
    2 * Varint.Pow128(budget - 1)
  }

  lemma ModUnique(x: nat, m: nat, q: nat, r: nat)
    requires x == q * m + r && r < m
    ensures x % m == r
  {
    QuotientUnique(x, m, q, r);
    assert x == q * m + x % m;
  }

  lemma MoreGroups(low: nat, high: nat, m: nat)
    requires low < 128 && m > 0
    ensures (low + 128 * high) % (128 * m) == low + 128 * (high % m)
  {
    var q, r := high / m, high % m;
    assert high == q * m + r;
    assert q * (128 * m) == 128 * (q * m);
    ModUnique(low + 128 * high, 128 * m, q, low + 128 * r);
  }

  lemma RoomGrows(budget: nat)
    requires budget > 1
    ensures Room(budget) == 128 * Room(budget - 1)
  {
  }

  lemma {:induction false} GroupsMore(bs: seq<byte>)
    requires bs != []
    ensures Groups(bs) == bs[0] as int % 128 + 128 * Groups(bs[1..])
  {
  }

  lemma {:induction false} NoGroups()
    ensures Groups([]) == 0
  {
  }

  lemma LastFits(b: byte, budget: nat)
    requires budget > 0 && b < 128
    ensures b as int % Room(budget) == if budget == 1 then b as int % 2 else b as int
  {
    if budget > 1 {
      RoomGrows(budget);
      hide Room;
      ModUnique(b as int, Room(budget), 0, b as int);
    }
  }

  lemma {:induction false} LastRead(b: byte, rest: seq<byte>, budget: nat)
    requires budget > 0 && b < 128
    ensures Varint.ParseGroups([b] + rest, budget) == Ok(if budget == 1 then b as int % 2 else b as int, rest)
  {
    hide Varint.Pow128;
    assert ([b] + rest)[1..] == rest;
  }

  lemma {:induction false} GroupsRead(bs: seq<byte>, rest: seq<byte>, budget: nat)
    requires budget > 0 && IsVarint(bs, budget)
    ensures Varint.ParseGroups(bs + rest, budget) == Ok(Groups(bs) % Room(budget), rest)
    decreases |bs|
  {
    hide Varint.ParseGroups, Varint.Pow128, Groups, Room;
    GroupsMore(bs);
    if |bs| == 1 {
      assert bs == [bs[0]] && bs[1..] == [];
      NoGroups();
      LastRead(bs[0], rest, budget);
      LastFits(bs[0], budget);
    } else {
      GroupsRead(bs[1..], rest, budget - 1);
      RoomGrows(budget);
      var low, high, m := bs[0] as int - 128, Groups(bs[1..]), Room(budget - 1);
      MoreGroups(low, high, m);
      Varint.OneMoreGroup(low, high % m, bs[1..], rest, budget);
      assert [(low + 128) as byte] + bs[1..] == bs;
    }
  }

  lemma {:induction false} ReadIsVarint(bs: seq<byte>, budget: nat) returns (k: nat)
    requires Varint.ParseGroups(bs, budget).Ok?
    ensures k <= |bs| && IsVarint(bs[..k], budget)
    decreases |bs|
  {
    if bs[0] < 128 {
      k := 1;
    } else {
      var j := ReadIsVarint(bs[1..], budget - 1);
      k := j + 1;
      assert bs[..k][1..] == bs[1..][..j];
      forall i | 0 <= i < k - 1
        ensures bs[..k][i] >= 128
      {
        assert i > 0 ==> bs[..k][i] == bs[1..][..j][i - 1];
      }
      assert bs[..k][k - 1] == bs[1..][..j][j - 1];
    }
  }

  lemma NumberComplete(bs: seq<byte>, n: uint64, rest: seq<byte>)
    requires SpellsNumber(bs, n)
    ensures Varint.Parse(bs + rest) == Ok(n, rest)
  {
    Varint.WordSize();
    GroupsRead(bs, rest, 10);
  }

  lemma {:induction false} NumberSound(bs: seq<byte>) returns (k: nat)
    requires Varint.Parse(bs).Ok?
    ensures k <= |bs| && SpellsNumber(bs[..k], Varint.Parse(bs).value) && bs[k..] == Varint.Parse(bs).rest
  {
    k := ReadIsVarint(bs, 10);
    assert bs[..k] + bs[k..] == bs;
    Varint.WordSize();
    GroupsRead(bs[..k], bs[k..], 10);
  }

  // ------------------------------------------------------------------ the grammar

  /** A number, and then as many bytes. */
  ghost predicate SpellsRun(bs: seq<byte>, payload: seq<byte>) {
    |payload| < TWO64 && exists k :: 0 <= k <= |bs| && SpellsNumber(bs[..k], |payload|) && bs[k..] == payload
  }

  ghost predicate SpellsTyped(bs: seq<byte>, v: Value)
    decreases v, 1
  {
    bs != [] &&
    match v
    case Null => bs == [0]
    case Bool(b) => |bs| == 2 && bs[0] == 1 && b == (bs[1] != 0)
    case Int64(i) => bs[0] == 2 && SpellsNumber(bs[1..], Varint.ZigzagEncode(i))
    case Uint64(u) => bs[0] == 3 && SpellsNumber(bs[1..], u)
    case Double(bits) => bs[0] == 4 && bs[1..] == LittleEndian(bits, 8)
    case String(s) => bs[0] == 5 && SpellsRun(bs[1..], s)
    case Array(es) => bs[0] == 6 && exists p :: SpellsRun(bs[1..], p) && SpellsElems(p, es)
    case Map(m) => bs[0] == 7 && exists p :: SpellsRun(bs[1..], p) && SpellsEntries(p, m)
    case Struct(fs) => bs[0] == 8 && exists p :: SpellsRun(bs[1..], p) && SpellsFields(p, fs)
  }

  ghost predicate SpellsElems(bs: seq<byte>, es: seq<Value>)
    decreases es, 0
  {
    if es == [] then bs == []
    else exists k :: 0 <= k <= |bs| && SpellsTyped(bs[..k], es[0]) && SpellsElems(bs[k..], es[1..])
  }

  ghost predicate SpellsKey(bs: seq<byte>, key: seq<byte>) {
    bs != [] && bs[0] == 5 && SpellsRun(bs[1..], key)
  }

  ghost predicate SpellsEntry(bs: seq<byte>, e: Entry)
    decreases e, 2
  {
    exists k :: 0 <= k <= |bs| && SpellsKey(bs[..k], e.key) && SpellsTyped(bs[k..], e.v)
  }

  ghost predicate SpellsEntries(bs: seq<byte>, m: seq<Entry>)
    decreases m, 0
  {
    if m == [] then bs == []
    else exists k :: 0 <= k <= |bs| && SpellsEntry(bs[..k], m[0]) && SpellsEntries(bs[k..], m[1..])
  }

  /** Any number whose bits from the fourth up are, in 32 bits, the field's. */
  ghost predicate SpellsTag(bs: seq<byte>, id: uint32) {
    exists tag: uint64 :: SpellsNumber(bs, tag) && tag / 8 % TWO32 == id
  }

  ghost predicate SpellsField(bs: seq<byte>, f: Field)
    decreases f, 2
  {
    exists k :: 0 <= k <= |bs| && SpellsTag(bs[..k], f.id) && SpellsTyped(bs[k..], f.v)
  }

  ghost predicate SpellsFields(bs: seq<byte>, fs: seq<Field>)
    decreases fs, 0
  {
    if fs == [] then bs == []
    else exists k :: 0 <= k <= |bs| && SpellsField(bs[..k], fs[0]) && SpellsFields(bs[k..], fs[1..])
  }

  // ------------------------------------------------------------------ everything it spells is accepted

  lemma RunComplete(bs: seq<byte>, payload: seq<byte>, rest: seq<byte>)
    requires SpellsRun(bs, payload)
    ensures ParseDelimited(bs + rest) == Ok(payload, rest)
  {
    var k :| 0 <= k <= |bs| && SpellsNumber(bs[..k], |payload|) && bs[k..] == payload;
    NumberComplete(bs[..k], |payload|, payload + rest);
    assert bs[..k] + (payload + rest) == bs + rest;
  }

  lemma {:induction false} ContainerComplete(bs: seq<byte>, payload: seq<byte>, v: Value, rest: seq<byte>)
    requires bs != [] && bs[0] > 4 && SpellsRun(bs[1..], payload) && ParseContainer(bs[0], payload) == Some(v)
    ensures ParseTyped(bs + rest) == Ok(v, rest)
  {
    hide SpellsRun, ParseDelimited, ParseContainer;
    assert (bs + rest)[1..] == bs[1..] + rest;
    RunComplete(bs[1..], payload, rest);
  }

  lemma {:induction false} ScalarComplete(bs: seq<byte>, v: Value, rest: seq<byte>)
    requires SpellsTyped(bs, v) && bs[0] <= 4
    ensures ParseTyped(bs + rest) == Ok(v, rest)
  {
    hide SpellsNumber, Varint.Parse, Varint.ZigzagEncode, Varint.ZigzagDecode;
    assert (bs + rest)[1..] == bs[1..] + rest;
    match v
    case Null =>
    case Bool(_) =>
    case Int64(i) =>
      NumberComplete(bs[1..], Varint.ZigzagEncode(i), rest);
      Varint.ZigzagBijection(i, 0);
    case Uint64(u) =>
      NumberComplete(bs[1..], u, rest);
    case Double(bits) =>
      WordRoundTrip(bits);
      hide LittleEndian, Word;
      assert (bs[1..] + rest)[..8] == bs[1..];
      assert (bs[1..] + rest)[8..] == rest;
  }

  lemma {:induction false} TypedComplete(bs: seq<byte>, v: Value, rest: seq<byte>)
    requires SpellsTyped(bs, v)
    ensures ParseTyped(bs + rest) == Ok(v, rest)
    decreases v, 1
  {
    hide SpellsRun, ParseTyped, LittleEndian, SpellsNumber;
    match v
    case String(s) =>
      ContainerComplete(bs, s, v, rest);
    case Array(es) =>
      var p :| SpellsRun(bs[1..], p) && SpellsElems(p, es);
      ElemsComplete(p, es);
      ContainerComplete(bs, p, v, rest);
    case Map(m) =>
      var p :| SpellsRun(bs[1..], p) && SpellsEntries(p, m);
      EntriesComplete(p, m);
      ContainerComplete(bs, p, v, rest);
    case Struct(fs) =>
      var p :| SpellsRun(bs[1..], p) && SpellsFields(p, fs);
      FieldsComplete(p, fs);
      ContainerComplete(bs, p, v, rest);
    case _ =>
      ScalarComplete(bs, v, rest);
  }

  lemma {:induction false} ElemsComplete(bs: seq<byte>, es: seq<Value>)
    requires SpellsElems(bs, es)
    ensures ParseElems(bs) == Some(es)
    decreases es, 0
  {
    hide SpellsTyped, ParseTyped;
    if es != [] {
      var k :| 0 <= k <= |bs| && SpellsTyped(bs[..k], es[0]) && SpellsElems(bs[k..], es[1..]);
      TypedComplete(bs[..k], es[0], bs[k..]);
      ElemsComplete(bs[k..], es[1..]);
      assert bs[..k] + bs[k..] == bs;
      ElemsCons(bs, es[0], bs[k..], es[1..]);
      assert [es[0]] + es[1..] == es;
    }
  }

  lemma {:induction false} KeyComplete(bs: seq<byte>, key: seq<byte>, rest: seq<byte>)
    requires SpellsKey(bs, key)
    ensures ParseTyped(bs + rest) == Ok(String(key), rest)
  {
    ContainerComplete(bs, key, String(key), rest);
  }

  lemma {:induction false} EntryComplete(bs: seq<byte>, e: Entry, rest: seq<byte>)
    requires SpellsEntry(bs, e)
    ensures ParseEntry(bs + rest) == Ok(e, rest)
    decreases e, 2
  {
    hide SpellsTyped, SpellsKey, ParseTyped;
    var k :| 0 <= k <= |bs| && SpellsKey(bs[..k], e.key) && SpellsTyped(bs[k..], e.v);
    KeyComplete(bs[..k], e.key, bs[k..] + rest);
    TypedComplete(bs[k..], e.v, rest);
    EntryFrom(bs[..k], bs[k..], rest, e.key, e.v);
    assert bs[..k] + bs[k..] == bs;
  }

  lemma {:induction false} EntriesComplete(bs: seq<byte>, m: seq<Entry>)
    requires SpellsEntries(bs, m)
    ensures ParseEntries(bs) == Some(m)
    decreases m, 0
  {
    hide SpellsEntry, ParseEntry;
    if m != [] {
      var k :| 0 <= k <= |bs| && SpellsEntry(bs[..k], m[0]) && SpellsEntries(bs[k..], m[1..]);
      EntryComplete(bs[..k], m[0], bs[k..]);
      EntriesComplete(bs[k..], m[1..]);
      assert bs[..k] + bs[k..] == bs;
      EntriesCons(bs, m[0], bs[k..], m[1..]);
      assert [m[0]] + m[1..] == m;
    }
  }

  lemma {:induction false} FieldComplete(bs: seq<byte>, f: Field, rest: seq<byte>)
    requires SpellsField(bs, f)
    ensures ParseField(bs + rest) == Ok(f, rest)
    decreases f, 2
  {
    hide SpellsTyped, SpellsNumber, ParseTyped;
    var k :| 0 <= k <= |bs| && SpellsTag(bs[..k], f.id) && SpellsTyped(bs[k..], f.v);
    var tag: uint64 :| SpellsNumber(bs[..k], tag) && tag / 8 % TWO32 == f.id;
    NumberComplete(bs[..k], tag, bs[k..] + rest);
    TypedComplete(bs[k..], f.v, rest);
    FieldFrom(bs[..k], bs[k..], rest, tag, f.id, f.v);
    assert bs[..k] + bs[k..] == bs;
  }

  lemma {:induction false} FieldsComplete(bs: seq<byte>, fs: seq<Field>)
    requires SpellsFields(bs, fs)
    ensures ParseFields(bs) == Some(fs)
    decreases fs, 0
  {
    hide SpellsField, ParseField;
    if fs != [] {
      var k :| 0 <= k <= |bs| && SpellsField(bs[..k], fs[0]) && SpellsFields(bs[k..], fs[1..]);
      FieldComplete(bs[..k], fs[0], bs[k..]);
      FieldsComplete(bs[k..], fs[1..]);
      assert bs[..k] + bs[k..] == bs;
      FieldsCons(bs, fs[0], bs[k..], fs[1..]);
      assert [fs[0]] + fs[1..] == fs;
    }
  }

  // ------------------------------------------------------------------ nothing else is accepted

  lemma {:induction false} LittleEndianOnto(bs: seq<byte>)
    ensures LittleEndian(FromLittleEndian(bs), |bs|) == bs
  {
    hide LittleEndian, FromLittleEndian;
    if bs != [] {
      var b, n := bs[0] as int, FromLittleEndian(bs[1..]);
      LittleEndianOnto(bs[1..]);
      LowByte(b, n);
      FromLowByte(bs);
      LittleEndianMore(b + 256 * n, |bs|);
    }
  }

  lemma LowByte(b: nat, n: nat)
    requires b < 256
    ensures (b + 256 * n) / 256 == n && (b + 256 * n) % 256 == b
  {
    QuotientUnique(b + 256 * n, 256, n, b);
  }

  lemma {:induction false} FromLowByte(bs: seq<byte>)
    requires bs != []
    ensures FromLittleEndian(bs) == bs[0] as int + 256 * FromLittleEndian(bs[1..])
  {
  }

  lemma {:induction false} LittleEndianMore(n: nat, k: nat)
    requires k > 0
    ensures LittleEndian(n, k) == [(n % 256) as byte] + LittleEndian(n / 256, k - 1)
  {
  }

  lemma {:induction false} RunSound(bs: seq<byte>) returns (k: nat)
    requires ParseDelimited(bs).Ok?
    ensures k <= |bs| && SpellsRun(bs[..k], ParseDelimited(bs).value) && bs[k..] == ParseDelimited(bs).rest
  {
    hide SpellsNumber, Varint.Parse;
    var j := NumberSound(bs);
    var len := Varint.Parse(bs).value;
    k := j + len;
    assert bs[..k][..j] == bs[..j];
    assert bs[..k][j..] == bs[j..][..len];
    assert bs[k..] == bs[j..][len..];
  }

  lemma {:induction false} ScalarSound(bs: seq<byte>) returns (k: nat)
    requires ParseTyped(bs).Ok? && bs[0] <= 4
    ensures k <= |bs| && SpellsTyped(bs[..k], ParseTyped(bs).value) && bs[k..] == ParseTyped(bs).rest
  {
    hide SpellsNumber, Varint.Parse, Varint.ZigzagEncode, Varint.ZigzagDecode;
    if bs[0] == 0 {
      k := 1;
    } else if bs[0] == 1 {
      k := 2;
    } else if bs[0] == 4 {
      k := 9;
      WordSpelled(bs[1..][..8]);
      hide LittleEndian, Word;
      assert bs[..9][1..] == bs[1..][..8];
      assert bs[9..] == bs[1..][8..];
    } else {
      var j := NumberSound(bs[1..]);
      Varint.ZigzagBijection(0, Varint.Parse(bs[1..]).value);
      k := j + 1;
      assert bs[..k][1..] == bs[1..][..j];
      assert bs[k..] == bs[1..][j..];
    }
  }

  lemma {:induction false} WordSpelled(bs: seq<byte>)
    requires |bs| == 8
    ensures LittleEndian(Word(bs), 8) == bs
  {
    WordBound();
    LittleEndianOnto(bs);
  }

  lemma {:induction false} TypedSound(bs: seq<byte>) returns (k: nat)
    requires ParseTyped(bs).Ok?
    ensures k <= |bs| && SpellsTyped(bs[..k], ParseTyped(bs).value) && bs[k..] == ParseTyped(bs).rest
    decreases |bs|, 1
  {
    if bs[0] <= 4 {
      k := ScalarSound(bs);
    } else {
      var j := RunSound(bs[1..]);
      var p := ParseDelimited(bs[1..]).value;
      hide SpellsRun, ParseDelimited;
      ContainerSound(bs[0], p);
      k := j + 1;
      assert bs[..k][1..] == bs[1..][..j];
      assert bs[k..] == bs[1..][j..];
    }
  }

  /** What a container of type `t` with this payload can only be. */
  ghost predicate SpellsContainer(t: byte, payload: seq<byte>, v: Value) {
    match v
    case String(s) => t == 5 && s == payload
    case Array(es) => t == 6 && SpellsElems(payload, es)
    case Map(m) => t == 7 && SpellsEntries(payload, m)
    case Struct(fs) => t == 8 && SpellsFields(payload, fs)
    case _ => false
  }

  lemma {:induction false} ContainerSound(t: byte, payload: seq<byte>)
    requires ParseContainer(t, payload).Some?
    ensures SpellsContainer(t, payload, ParseContainer(t, payload).value)
    decreases |payload|, 4
  {
    hide SpellsElems, SpellsEntries, SpellsFields, ParseElems, ParseEntries, ParseFields;
    if t == 6 {
      ElemsSound(payload);
    } else if t == 7 {
      EntriesSound(payload);
    } else if t == 8 {
      FieldsSound(payload);
    }
  }

  lemma {:induction false} ElemsSound(bs: seq<byte>)
    requires ParseElems(bs).Some?
    ensures SpellsElems(bs, ParseElems(bs).value)
    decreases |bs|, 3
  {
    hide SpellsTyped, ParseTyped;
    if bs != [] {
      var k := TypedSound(bs);
      ElemsSound(bs[k..]);
      assert ParseElems(bs).value[1..] == ParseElems(bs[k..]).value;
    }
  }

  lemma {:induction false} KeySpelled(bs: seq<byte>, key: seq<byte>)
    requires SpellsTyped(bs, String(key))
    ensures SpellsKey(bs, key)
  {
  }

  lemma {:induction false} EntrySound(bs: seq<byte>) returns (k: nat)
    requires ParseEntry(bs).Ok?
    ensures k <= |bs| && SpellsEntry(bs[..k], ParseEntry(bs).value) && bs[k..] == ParseEntry(bs).rest
    decreases |bs|, 2
  {
    hide SpellsTyped, ParseTyped, SpellsKey;
    var i := TypedSound(bs);
    KeySpelled(bs[..i], ParseEntry(bs).value.key);
    var j := TypedSound(bs[i..]);
    k := i + j;
    assert bs[..k][..i] == bs[..i] && bs[..k][i..] == bs[i..][..j];
    assert bs[k..] == bs[i..][j..];
  }

  lemma {:induction false} EntriesSound(bs: seq<byte>)
    requires ParseEntries(bs).Some?
    ensures SpellsEntries(bs, ParseEntries(bs).value)
    decreases |bs|, 3
  {
    hide SpellsEntry, ParseEntry;
    if bs != [] {
      var k := EntrySound(bs);
      EntriesSound(bs[k..]);
      assert ParseEntries(bs).value[1..] == ParseEntries(bs[k..]).value;
    }
  }

  lemma {:induction false} FieldSound(bs: seq<byte>) returns (k: nat)
    requires ParseField(bs).Ok?
    ensures k <= |bs| && SpellsField(bs[..k], ParseField(bs).value) && bs[k..] == ParseField(bs).rest
    decreases |bs|, 2
  {
    hide SpellsTyped, ParseTyped, SpellsNumber, Varint.Parse;
    var i := NumberSound(bs);
    var j := TypedSound(bs[i..]);
    k := i + j;
    assert bs[..k][..i] == bs[..i] && bs[..k][i..] == bs[i..][..j];
    assert bs[k..] == bs[i..][j..];
    assert SpellsTag(bs[..i], ParseField(bs).value.id);
  }

  lemma {:induction false} FieldsSound(bs: seq<byte>)
    requires ParseFields(bs).Some?
    ensures SpellsFields(bs, ParseFields(bs).value)
    decreases |bs|, 3
  {
    hide SpellsField, ParseField;
    if bs != [] {
      var k := FieldSound(bs);
      FieldsSound(bs[k..]);
      assert ParseFields(bs).value[1..] == ParseFields(bs[k..]).value;
    }
  }

  /** The writer's tag has wire type 2 and, above it, the field's number. */
  lemma {:induction false} TagWritten(f: Field)
    ensures Varint.Parse(FieldBytes(f)) == Ok(8 * f.id + 2, TypedBytes(f.v))
  {
    Varint.RoundTrip(Tag(f.id), TypedBytes(f.v));
  }

  /** The reader accepts exactly the byte strings that the grammar makes spellings of a struct, as that struct. */
  lemma {:induction false} AcceptedExactly(bs: seq<byte>, v: Value)
    ensures Decoded(bs) == Some(v) <==> v.Struct? && SpellsFields(bs, v.fields)
  {
    hide SpellsFields, ParseFields;
    if Decoded(bs) == Some(v) {
      FieldsSound(bs);
    }
    if v.Struct? && SpellsFields(bs, v.fields) {
      FieldsComplete(bs, v.fields);
    }
  }
}
