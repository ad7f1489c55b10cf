/** The registry of schema entries and its two serialisers. */
module SchemaRegistry {
  import opened Bytes
  import opened Wire
  import opened DrainCore
  import opened SchemaWire
  import opened ZeroedBuffer
  import opened SchemaWriter

  class Registry {
    var slots: Slots
    var count: nat
    const endianness: Byte

    /** One slot per id; everything registered lies below `count`. */
    ghost predicate Valid()
      reads this
    {
      && |slots| == MAX_SCHEMA_ENTRIES && count <= |slots|
      && forall i :: 0 <= i < |slots| ==> slots[i].Some? ==>
        slots[i].value.id == i < count && slots[i].value.payloadSize <= MAX_PAYLOAD
    }

    function Live(): (s: Slots)
      requires Valid()
      reads this
      ensures |s| == count
    {
      slots[..count]
    }

    constructor (endianness: Byte)
      ensures Valid() && Live() == [] && this.endianness == endianness
    {
      slots := seq(MAX_SCHEMA_ENTRIES, i => None);
      count := 0;
      this.endianness := endianness;
    }

    /** `btelem_register`: refuses a null entry, an id beyond the table or a payload beyond the ring cell. */
    method Register(e: Option<SchemaDef>) returns (r: int)
      requires Valid()
      modifies this
      ensures Valid()
      ensures r == if e.Some? && e.value.id < 512 && e.value.payloadSize <= 232 then 0 else -1
      ensures r == -1 ==> slots == old(slots) && count == old(count)
      ensures r == 0 ==> slots == old(slots)[e.value.id := e]
      ensures r == 0 ==> count == if e.value.id < old(count) then old(count) else e.value.id + 1
    {
      if e.None? { return -1; }
      if e.value.id >= MAX_SCHEMA_ENTRIES { return -1; }
      if e.value.payloadSize > MAX_PAYLOAD { return -1; }
      slots := slots[e.value.id := e];
      if e.value.id >= count { count := e.value.id + 1; }
      r := 0;
    }
  }

  // --------------------------------------------------------------------------- walking the registry

  method CollectFields(e: SchemaDef) returns (enums: seq<EnumItem>, bits: seq<BitItem>)
    ensures enums == EnumsOf(e, FieldsKept(e)) && bits == BitsOf(e, FieldsKept(e))
  {
    enums, bits := [], [];
    var fc := Min(|e.fields|, MAX_FIELDS);
    var f := 0;
    while f < fc
      invariant 0 <= f <= fc && enums == EnumsOf(e, f) && bits == BitsOf(e, f)
    {
      if IsEnum(e.fields[f]) { enums := enums + [EnumItem(e.id, f, e.fields[f].labels.value)]; }
      if IsBitfield(e.fields[f]) { bits := bits + [BitItem(e.id, f, e.fields[f].bits.value)]; }
      f := f + 1;
    }
  }

  /** The walk over slots and fields both serialisers make, for counting and for each section. */
  method Collect(slots: Slots) returns (entries: seq<SchemaDef>, enums: seq<EnumItem>, bits: seq<BitItem>)
    ensures entries == Entries(slots) && enums == Enums(slots) && bits == Bitfields(slots)
  {
    entries, enums, bits := [], [], [];
    var i := 0;
    while i < |slots|
      invariant 0 <= i <= |slots|
      invariant entries == Entries(slots[..i]) && enums == Enums(slots[..i]) && bits == Bitfields(slots[..i])
    {
      assert slots[..i + 1][..i] == slots[..i];
      if slots[i].Some? {
        var es, bs := CollectFields(slots[i].value);
        entries, enums, bits := entries + [slots[i].value], enums + es, bits + bs;
      }
      i := i + 1;
    }
    assert slots[..|slots|] == slots;
  }

  // -------------------------------------------------------------------------------- into a buffer

  lemma PieceStored(done: seq<Byte>, pieces: seq<seq<Byte>>, i: nat, so: seq<Byte>, w: seq<Byte>)
    requires i < |pieces| && so == done + Flatten(pieces[..i]) && pieces[i] == w
    ensures so + w == done + Flatten(pieces[..i + 1])
  {
    FlattenSnoc(pieces[..i], w);
    assert pieces[..i] + [w] == pieces[..i + 1];
  }

  lemma AllStored(done: seq<Byte>, pieces: seq<seq<Byte>>, so: seq<Byte>)
    requires so == done + Flatten(pieces[..|pieces|])
    ensures so == done + Flatten(pieces)
  {
    assert pieces[..|pieces|] == pieces;
  }

  method StoreEntries(buf: array<Byte>, pos: nat, es: seq<SchemaDef>, ghost done: seq<Byte>, ghost end: nat)
    returns (next: nat)
    requires Region(buf[..], 0, done, end) && pos == |done| && pos + ENTRY_WIRE * |es| <= end
    modifies buf
    ensures Region(buf[..], 0, done + Flatten(Map(EntryWire, es)), end) && next == pos + ENTRY_WIRE * |es|
    ensures buf[end..] == old(buf[end..])
  {
    next := pos;
    var i := 0;
    ghost var so, pieces := done, Map(EntryWire, es);
    while i < |es|
      invariant 0 <= i <= |es| && next == pos + ENTRY_WIRE * i == |so|
      invariant so == done + Flatten(pieces[..i]) && Region(buf[..], 0, so, end)
      invariant buf[end..] == old(buf[end..])
    {
      next := StoreEntry(buf, next, es[i], so, end);
      PieceStored(done, pieces, i, so, EntryWire(es[i]));
      so := so + EntryWire(es[i]);
      i := i + 1;
    }
    AllStored(done, pieces, so);
  }

  method StoreEnums(buf: array<Byte>, pos: nat, items: seq<EnumItem>, ghost done: seq<Byte>, ghost end: nat)
    returns (next: nat)
    requires Region(buf[..], 0, done, end) && pos == |done| && pos + ENUM_WIRE * |items| <= end
    modifies buf
    ensures Region(buf[..], 0, done + Flatten(Map(EnumWire, items)), end) && next == pos + ENUM_WIRE * |items|
    ensures buf[end..] == old(buf[end..])
  {
    next := pos;
    var i := 0;
    ghost var so, pieces := done, Map(EnumWire, items);
    while i < |items|
      invariant 0 <= i <= |items| && next == pos + ENUM_WIRE * i == |so|
      invariant so == done + Flatten(pieces[..i]) && Region(buf[..], 0, so, end)
      invariant buf[end..] == old(buf[end..])
    {
      next := StoreEnum(buf, next, items[i], so, end);
      PieceStored(done, pieces, i, so, EnumWire(items[i]));
      so := so + EnumWire(items[i]);
      i := i + 1;
    }
    AllStored(done, pieces, so);
  }

  method StoreBitfields(buf: array<Byte>, pos: nat, items: seq<BitItem>, ghost done: seq<Byte>, ghost end: nat)
    returns (next: nat)
    requires Region(buf[..], 0, done, end) && pos == |done| && pos + BITFIELD_WIRE * |items| <= end
    modifies buf
    ensures Region(buf[..], 0, done + Flatten(Map(BitWire, items)), end) && next == pos + BITFIELD_WIRE * |items|
    ensures buf[end..] == old(buf[end..])
  {
    next := pos;
    var i := 0;
    ghost var so, pieces := done, Map(BitWire, items);
    while i < |items|
      invariant 0 <= i <= |items| && next == pos + BITFIELD_WIRE * i == |so|
      invariant so == done + Flatten(pieces[..i]) && Region(buf[..], 0, so, end)
      invariant buf[end..] == old(buf[end..])
    {
      next := StoreBitfield(buf, next, items[i], so, end);
      PieceStored(done, pieces, i, so, BitWire(items[i]));
      so := so + BitWire(items[i]);
      i := i + 1;
    }
    AllStored(done, pieces, so);
  }

  method Zero(buf: array<Byte>, n: nat)
    requires n <= buf.Length
    modifies buf
    ensures Region(buf[..], 0, [], n) && buf[n..] == old(buf[n..])
  {
    forall k | 0 <= k < n { buf[k] := 0; }
  }

  method StoreSections(buf: array<Byte>, endianness: Byte, es: seq<SchemaDef>, enums: seq<EnumItem>,
                       bits: seq<BitItem>, end: nat)
    requires end <= buf.Length
    requires end == SCHEMA_HEADER + ENTRY_WIRE * |es| + 2 + ENUM_WIRE * |enums| + 2 + BITFIELD_WIRE * |bits|
    modifies buf
    ensures Region(buf[..], 0, SchemaHeader(endianness, |es|) + Flatten(Map(EntryWire, es)) + LE(|enums|, 2) +
      Flatten(Map(EnumWire, enums)) + LE(|bits|, 2) + Flatten(Map(BitWire, bits)), end)
    ensures buf[end..] == old(buf[end..])
  {
    Zero(buf, end);
    var pos := Store(buf, 0, SchemaHeader(endianness, |es|), [], end);
    ghost var done := SchemaHeader(endianness, |es|);
    assert [] + done == done;
    pos := StoreEntries(buf, pos, es, done, end);
    done := done + Flatten(Map(EntryWire, es));
    UniformLength(EntryWire, ENTRY_WIRE, es);
    pos := Store(buf, pos, LE(|enums|, 2), done, end);
    done := done + LE(|enums|, 2);
    pos := StoreEnums(buf, pos, enums, done, end);
    done := done + Flatten(Map(EnumWire, enums));
    UniformLength(EnumWire, ENUM_WIRE, enums);
    pos := Store(buf, pos, LE(|bits|, 2), done, end);
    done := done + LE(|bits|, 2);
    pos := StoreBitfields(buf, pos, bits, done, end);
  }

  /** Every label of every enum in the registry is a string. */
  ghost predicate NoNullLabels(slots: Slots) {
    forall k, i :: 0 <= k < |Enums(slots)| && 0 <= i < |Enums(slots)[k].labels| ==> Enums(slots)[k].labels[i].Some?
  }

  /** `btelem_schema_serialize`.  A null buffer asks for the size; a short one is left alone. */
  method Serialize(ctx: Registry?, buf: array?<Byte>, bufSize: nat) returns (n: int)
    requires ctx != null ==> ctx.Valid()
    requires buf != null ==> bufSize <= buf.Length
    requires ctx != null && buf != null ==> NoNullLabels(ctx.Live())
    modifies buf
    ensures ctx == null ==> n == -1 && (buf != null ==> buf[..] == old(buf[..]))
    ensures ctx != null && buf == null ==> n == |SchemaBytes(ctx.endianness, ctx.Live())|
    ensures ctx != null && buf != null && bufSize < |SchemaBytes(ctx.endianness, ctx.Live())| ==>
      n == -1 && buf[..] == old(buf[..])
    ensures ctx != null && buf != null && bufSize >= |SchemaBytes(ctx.endianness, ctx.Live())| ==>
      && 0 <= n == |SchemaBytes(ctx.endianness, ctx.Live())|
      && buf[..n] == SchemaBytes(ctx.endianness, ctx.Live()) && buf[n..] == old(buf[n..])
  {
    if ctx == null { return -1; }
    var es, enums, bits := Collect(ctx.Live());
    var needed := SCHEMA_HEADER + ENTRY_WIRE * |es| + 2 + ENUM_WIRE * |enums| + 2 + BITFIELD_WIRE * |bits|;
    SchemaSize(ctx.endianness, ctx.Live());
    if buf == null { return needed; }
    if bufSize < needed { return -1; }
    SchemaSections(ctx.endianness, ctx.Live());
    StoreSections(buf, ctx.endianness, es, enums, bits, needed);
    n := needed;
  }

  // ------------------------------------------------------------------------------- to a callback

  /** Every piece offered was accepted. */
  ghost predicate AllTaken(sent: seq<seq<Byte>>, verdict: nat -> bool) {
    forall k :: 0 <= k < |sent| ==> verdict(k)
  }

  /** The callback took pieces of `full` in order until it refused the last one offered. */
  ghost predicate Refused(sent: seq<seq<Byte>>, full: seq<seq<Byte>>, verdict: nat -> bool) {
    0 < |sent| && sent <= full && !verdict(|sent| - 1) && forall k :: 0 <= k < |sent| - 1 ==> verdict(k)
  }

  /** What has been offered after wanting to send `full`. */
  ghost predicate Offered(ok: bool, sent: seq<seq<Byte>>, full: seq<seq<Byte>>, verdict: nat -> bool) {
    if ok then sent == full && AllTaken(sent, verdict) else Refused(sent, full, verdict)
  }

  lemma RefusedEarlier(sent: seq<seq<Byte>>, part: seq<seq<Byte>>, more: seq<seq<Byte>>, verdict: nat -> bool)
    requires Refused(sent, part, verdict)
    ensures Refused(sent, part + more, verdict)
  {
    assert (part + more)[..|sent|] == part[..|sent|];
  }

  method EntryStruct(e: SchemaDef) returns (b: seq<Byte>)
    ensures b == EntryWire(e)
  {
    var w := new Byte[ENTRY_WIRE];
    Zero(w, ENTRY_WIRE);
    var _ := StoreEntry(w, 0, e, [], ENTRY_WIRE);
    assert [] + EntryWire(e) == EntryWire(e);
    b := w[..];
  }

  method EnumStruct(it: EnumItem) returns (b: seq<Byte>)
    ensures b == EnumWire(it)
  {
    var w := new Byte[ENUM_WIRE];
    Zero(w, ENUM_WIRE);
    var _ := StoreEnum(w, 0, it, [], ENUM_WIRE);
    assert [] + EnumWire(it) == EnumWire(it);
    b := w[..];
  }

  method BitfieldStruct(it: BitItem) returns (b: seq<Byte>)
    ensures b == BitWire(it)
  {
    var w := new Byte[BITFIELD_WIRE];
    Zero(w, BITFIELD_WIRE);
    var _ := StoreBitfield(w, 0, it, [], BITFIELD_WIRE);
    assert [] + BitWire(it) == BitWire(it);
    b := w[..];
  }

  lemma PieceSent(before: seq<seq<Byte>>, pieces: seq<seq<Byte>>, i: nat, sent: seq<seq<Byte>>, verdict: nat -> bool)
    requires i < |pieces| && sent == before + pieces[..i] && AllTaken(sent, verdict)
    ensures sent + [pieces[i]] == before + pieces[..i + 1]
    ensures if verdict(|sent|) then AllTaken(sent + [pieces[i]], verdict)
      else Refused(sent + [pieces[i]], before + pieces, verdict)
  {
    assert (before + pieces)[..|sent| + 1] == sent + [pieces[i]];
  }

  method EmitEntries(es: seq<SchemaDef>, verdict: nat -> bool, before: seq<seq<Byte>>)
    returns (ok: bool, sent: seq<seq<Byte>>)
    requires AllTaken(before, verdict)
    ensures Offered(ok, sent, before + Map(EntryWire, es), verdict)
  {
    sent := before;
    var i := 0;
    ghost var pieces := Map(EntryWire, es);
    while i < |es|
      invariant 0 <= i <= |es| && sent == before + pieces[..i] && AllTaken(sent, verdict)
    {
      var w := EntryStruct(es[i]);
      PieceSent(before, pieces, i, sent, verdict);
      sent := sent + [w];
      if !verdict(|sent| - 1) { return false, sent; }
      i := i + 1;
    }
    assert pieces[..|pieces|] == pieces;
    ok := true;
  }

  method EmitEnums(items: seq<EnumItem>, verdict: nat -> bool, before: seq<seq<Byte>>)
    returns (ok: bool, sent: seq<seq<Byte>>)
    requires AllTaken(before, verdict)
    ensures Offered(ok, sent, before + Map(EnumWire, items), verdict)
  {
    sent := before;
    var i := 0;
    ghost var pieces := Map(EnumWire, items);
    while i < |items|
      invariant 0 <= i <= |items| && sent == before + pieces[..i] && AllTaken(sent, verdict)
    {
      var w := EnumStruct(items[i]);
      PieceSent(before, pieces, i, sent, verdict);
      sent := sent + [w];
      if !verdict(|sent| - 1) { return false, sent; }
      i := i + 1;
    }
    assert pieces[..|pieces|] == pieces;
    ok := true;
  }

  method EmitBitfields(items: seq<BitItem>, verdict: nat -> bool, before: seq<seq<Byte>>)
    returns (ok: bool, sent: seq<seq<Byte>>)
    requires AllTaken(before, verdict)
    ensures Offered(ok, sent, before + Map(BitWire, items), verdict)
  {
    sent := before;
    var i := 0;
    ghost var pieces := Map(BitWire, items);
    while i < |items|
      invariant 0 <= i <= |items| && sent == before + pieces[..i] && AllTaken(sent, verdict)
    {
      var w := BitfieldStruct(items[i]);
      PieceSent(before, pieces, i, sent, verdict);
      sent := sent + [w];
      if !verdict(|sent| - 1) { return false, sent; }
      i := i + 1;
    }
    assert pieces[..|pieces|] == pieces;
    ok := true;
  }

  method EmitOne(b: seq<Byte>, verdict: nat -> bool, before: seq<seq<Byte>>) returns (ok: bool, sent: seq<seq<Byte>>)
    requires AllTaken(before, verdict)
    ensures Offered(ok, sent, before + [b], verdict)
  {
    sent := before + [b];
    ok := verdict(|before|);
  }

  method EmitSections(endianness: Byte, es: seq<SchemaDef>, enums: seq<EnumItem>, bits: seq<BitItem>,
                      verdict: nat -> bool)
    returns (ok: bool, sent: seq<seq<Byte>>)
    ensures Offered(ok, sent, [SchemaHeader(endianness, |es|)] + Map(EntryWire, es) + [LE(|enums|, 2)] +
      Map(EnumWire, enums) +
      [LE(|bits|, 2)] + Map(BitWire, bits), verdict)
  {
    ghost var a, b, c := [SchemaHeader(endianness, |es|)], Map(EntryWire, es), [LE(|enums|, 2)];
    ghost var d, e, f := Map(EnumWire, enums), [LE(|bits|, 2)], Map(BitWire, bits);
    ok, sent := EmitOne(SchemaHeader(endianness, |es|), verdict, []);
    assert [] + a == a;
    if !ok { RefusedEarlier(sent, a, b, verdict); }
    if ok { ok, sent := EmitEntries(es, verdict, sent); }
    if !ok { RefusedEarlier(sent, a + b, c, verdict); }
    if ok { ok, sent := EmitOne(LE(|enums|, 2), verdict, sent); }
    if !ok { RefusedEarlier(sent, a + b + c, d, verdict); }
    if ok { ok, sent := EmitEnums(enums, verdict, sent); }
    if !ok { RefusedEarlier(sent, a + b + c + d, e, verdict); }
    if ok { ok, sent := EmitOne(LE(|bits|, 2), verdict, sent); }
    if !ok { RefusedEarlier(sent, a + b + c + d + e, f, verdict); }
    if ok { ok, sent := EmitBitfields(bits, verdict, sent); }
  }

  /** `btelem_schema_stream`.  `verdict(k)` is whether the callback accepts the k-th piece. */
  method Stream(ctx: Registry?, verdict: nat -> bool) returns (total: int, sent: seq<seq<Byte>>)
    requires ctx != null ==> ctx.Valid()
    ensures ctx == null ==> total == -1 && sent == []
    ensures ctx != null && total == -1 ==> Refused(sent, Chunks(ctx.endianness, ctx.Live()), verdict)
    ensures ctx != null && total != -1 ==>
      && sent == Chunks(ctx.endianness, ctx.Live()) && AllTaken(sent, verdict)
      && total == |Flatten(sent)| == |SchemaBytes(ctx.endianness, ctx.Live())|
  {
    if ctx == null { return -1, []; }
    var es, enums, bits := Collect(ctx.Live());
    var ok;
    ok, sent := EmitSections(ctx.endianness, es, enums, bits, verdict);
    if !ok { return -1, sent; }
    SchemaSize(ctx.endianness, ctx.Live());
    total := SCHEMA_HEADER + ENTRY_WIRE * |es| + 2 + ENUM_WIRE * |enums| + 2 + BITFIELD_WIRE * |bits|;
  }
}
