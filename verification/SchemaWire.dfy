/** The schema registry and the bytes of its wire format. */
module SchemaWire {
  import opened Bytes
  import opened Wire

  const NAME_MAX: nat := 64
  const DESC_MAX: nat := 128
  const MAX_FIELDS: nat := 16
  const MAX_SCHEMA_ENTRIES: nat := 512
  const LABEL_MAX: nat := 32
  const MAX_LABELS: nat := 64
  const MAX_BITS: nat := 32
  const BIT_NAME_MAX: nat := 32
  const TYPE_ENUM: Byte := 12
  const TYPE_BITFIELD: Byte := 13
  const TYPE_LAST: Byte := 14

  const SCHEMA_HEADER: nat := 3
  const FIELD_WIRE: nat := 70
  const ENTRY_HEAD: nat := 198
  const ENTRY_WIRE: nat := 1318
  const ENUM_WIRE: nat := 2053
  const BITFIELD_WIRE: nat := 1093

  // -------------------------------------------------------------------------------------- the registry

  /** The bytes of a C string, its terminator left out. */
  type Text = seq<Byte>

  datatype BitDef = BitDef(name: Option<Text>, start: Byte, width: Byte)

  datatype FieldDef = FieldDef(
    name: Text, offset: nat, size: nat, kind: Byte, count: Byte,
    labels: Option<seq<Option<Text>>>, bits: Option<seq<BitDef>>)

  datatype SchemaDef = SchemaDef(id: nat, name: Text, description: Option<Text>, payloadSize: nat,
                                 fields: seq<FieldDef>)

  type Slots = seq<Option<SchemaDef>>

  datatype EnumItem = EnumItem(id: nat, index: nat, labels: seq<Option<Text>>)
  datatype BitItem = BitItem(id: nat, index: nat, bits: seq<BitDef>)

  function OrEmpty(t: Option<Text>): Text { if t.Some? then t.value else [] }

  /** How many fields an entry's wire form has room for. */
  function FieldsKept(e: SchemaDef): nat { Min(|e.fields|, MAX_FIELDS) }

  /** The registered entries, in slot order. */
  function Entries(slots: Slots): seq<SchemaDef> {
    if |slots| == 0 then []
    else Entries(slots[..|slots| - 1]) + (if slots[|slots| - 1].Some? then [slots[|slots| - 1].value] else [])
  }

  predicate IsEnum(f: FieldDef) { f.kind == TYPE_ENUM && f.labels.Some? }

  predicate IsBitfield(f: FieldDef) { f.kind == TYPE_BITFIELD && f.bits.Some? }

  /** The enum items among the first `n` fields of an entry. */
  function EnumsOf(e: SchemaDef, n: nat): seq<EnumItem>
    requires n <= |e.fields|
  {
    if n == 0 then []
    else EnumsOf(e, n - 1) + (if IsEnum(e.fields[n - 1]) then [EnumItem(e.id, n - 1, e.fields[n - 1].labels.value)]
      else [])
  }

  function BitsOf(e: SchemaDef, n: nat): seq<BitItem>
    requires n <= |e.fields|
  {
    if n == 0 then []
    else BitsOf(e, n - 1) + (if IsBitfield(e.fields[n - 1]) then [BitItem(e.id, n - 1, e.fields[n - 1].bits.value)]
      else [])
  }

  function Enums(slots: Slots): seq<EnumItem> {
    if |slots| == 0 then []
    else
      var last := slots[|slots| - 1];
      Enums(slots[..|slots| - 1]) + (if last.Some? then EnumsOf(last.value, FieldsKept(last.value)) else [])
  }

  function Bitfields(slots: Slots): seq<BitItem> {
    if |slots| == 0 then []
    else
      var last := slots[|slots| - 1];
      Bitfields(slots[..|slots| - 1]) + (if last.Some? then BitsOf(last.value, FieldsKept(last.value)) else [])
  }

  // ----------------------------------------------------------------------------------------- the bytes

  /** A string in a zeroed array of `n` bytes: at most `n - 1` bytes kept, so always terminated. */
  function Padded(t: Text, n: nat): (s: seq<Byte>)
    requires n > 0
    ensures |s| == n
  {
    t[..Min(|t|, n - 1)] + Zeros(n - Min(|t|, n - 1))
  }

  function FieldWire(f: FieldDef): (s: seq<Byte>)
    ensures |s| == FIELD_WIRE
  {
    Padded(f.name, NAME_MAX) + LE(f.offset, 2) + LE(f.size, 2) + [f.kind, f.count]
  }

  function FieldsWire(fs: seq<FieldDef>): (s: seq<Byte>)
    ensures |s| == FIELD_WIRE * |fs|
  {
    if |fs| == 0 then [] else FieldsWire(fs[..|fs| - 1]) + FieldWire(fs[|fs| - 1])
  }

  function EntryHead(e: SchemaDef): (s: seq<Byte>)
    ensures |s| == ENTRY_HEAD
  {
    LE(e.id, 2) + LE(e.payloadSize, 2) + LE(|e.fields|, 2) + Padded(e.name, NAME_MAX) +
      Padded(OrEmpty(e.description), DESC_MAX)
  }

  function EntryWire(e: SchemaDef): (s: seq<Byte>)
    ensures |s| == ENTRY_WIRE
  {
    EntryHead(e) + FieldsWire(e.fields[..FieldsKept(e)]) + Zeros(FIELD_WIRE * (MAX_FIELDS - FieldsKept(e)))
  }

  function ItemHead(id: nat, index: nat, count: Byte): (s: seq<Byte>)
    ensures |s| == 5
  {
    LE(id, 2) + LE(index, 2) + [count]
  }

  function LabelsWire(ls: seq<Option<Text>>): (s: seq<Byte>)
    ensures |s| == LABEL_MAX * |ls|
  {
    if |ls| == 0 then [] else LabelsWire(ls[..|ls| - 1]) + Padded(OrEmpty(ls[|ls| - 1]), LABEL_MAX)
  }

  function EnumWire(it: EnumItem): (s: seq<Byte>)
    ensures |s| == ENUM_WIRE
  {
    var lc := Min(|it.labels|, MAX_LABELS);
    ItemHead(it.id, it.index, lc) + LabelsWire(it.labels[..lc]) + Zeros(LABEL_MAX * (MAX_LABELS - lc))
  }

  function BitNamesWire(bs: seq<BitDef>): (s: seq<Byte>)
    ensures |s| == BIT_NAME_MAX * |bs|
  {
    if |bs| == 0 then [] else BitNamesWire(bs[..|bs| - 1]) + Padded(OrEmpty(bs[|bs| - 1].name), BIT_NAME_MAX)
  }

  function Starts(bs: seq<BitDef>): (s: seq<Byte>)
    ensures |s| == |bs|
  {
    if |bs| == 0 then [] else Starts(bs[..|bs| - 1]) + [bs[|bs| - 1].start]
  }

  function WidthsOf(bs: seq<BitDef>): (s: seq<Byte>)
    ensures |s| == |bs|
  {
    if |bs| == 0 then [] else WidthsOf(bs[..|bs| - 1]) + [bs[|bs| - 1].width]
  }

  function NamesArray(bs: seq<BitDef>): (s: seq<Byte>)
    requires |bs| <= MAX_BITS
    ensures |s| == BIT_NAME_MAX * MAX_BITS
  {
    BitNamesWire(bs) + Zeros(BIT_NAME_MAX * MAX_BITS - BIT_NAME_MAX * |bs|)
  }

  function StartsArray(bs: seq<BitDef>): (s: seq<Byte>)
    requires |bs| <= MAX_BITS
    ensures |s| == MAX_BITS
  {
    Starts(bs) + Zeros(MAX_BITS - |bs|)
  }

  function WidthsArray(bs: seq<BitDef>): (s: seq<Byte>)
    requires |bs| <= MAX_BITS
    ensures |s| == MAX_BITS
  {
    WidthsOf(bs) + Zeros(MAX_BITS - |bs|)
  }

  function BitWire(it: BitItem): (s: seq<Byte>)
    ensures |s| == BITFIELD_WIRE
  {
    var bc := Min(|it.bits|, MAX_BITS);
    var bs := it.bits[..bc];
    ItemHead(it.id, it.index, bc) + NamesArray(bs) + StartsArray(bs) + WidthsArray(bs)
  }

  function Map<A, B>(f: A -> B, s: seq<A>): (r: seq<B>)
    ensures |r| == |s| && forall i :: 0 <= i < |s| ==> r[i] == f(s[i])
  {
    if |s| == 0 then [] else Map(f, s[..|s| - 1]) + [f(s[|s| - 1])]
  }

  /** Header, entries, enum count, enums, bitfield count, bitfields: the pieces of the wire form in order. */
  function Chunks(endianness: Byte, slots: Slots): seq<seq<Byte>> {
    [SchemaHeader(endianness, |Entries(slots)|)] + Map(EntryWire, Entries(slots)) +
    [LE(|Enums(slots)|, 2)] + Map(EnumWire, Enums(slots)) +
    [LE(|Bitfields(slots)|, 2)] + Map(BitWire, Bitfields(slots))
  }

  function SchemaHeader(endianness: Byte, count: nat): (s: seq<Byte>)
    ensures |s| == SCHEMA_HEADER
  {
    [endianness] + LE(count, 2)
  }

  function SchemaBytes(endianness: Byte, slots: Slots): seq<Byte> {
    Flatten(Chunks(endianness, slots))
  }

  /** The wire form, section by section. */
  lemma SchemaSections(endianness: Byte, slots: Slots)
    ensures SchemaBytes(endianness, slots) ==
      SchemaHeader(endianness, |Entries(slots)|) + Flatten(Map(EntryWire, Entries(slots))) +
      LE(|Enums(slots)|, 2) + Flatten(Map(EnumWire, Enums(slots))) +
      LE(|Bitfields(slots)|, 2) + Flatten(Map(BitWire, Bitfields(slots)))
  {
    SixSections(SchemaHeader(endianness, |Entries(slots)|), Map(EntryWire, Entries(slots)), LE(|Enums(slots)|, 2),
                Map(EnumWire, Enums(slots)), LE(|Bitfields(slots)|, 2), Map(BitWire, Bitfields(slots)));
  }

  lemma SixSections<T>(a: seq<T>, b: seq<seq<T>>, c: seq<T>, d: seq<seq<T>>, e: seq<T>, f: seq<seq<T>>)
    ensures Flatten([a] + b + [c] + d + [e] + f) == a + Flatten(b) + c + Flatten(d) + e + Flatten(f)
  {
    FlattenSnoc([], a);
    assert [] + [a] == [a];
    FlattenAppend([a], b);
    FlattenSnoc([a] + b, c);
    FlattenAppend([a] + b + [c], d);
    FlattenSnoc([a] + b + [c] + d, e);
    FlattenAppend([a] + b + [c] + d + [e], f);
  }

  lemma {:induction false} UniformLength<A>(f: A -> seq<Byte>, w: nat, s: seq<A>)
    requires forall x: A :: |f(x)| == w
    ensures |Flatten(Map(f, s))| == w * |s|
  {
    if |s| > 0 {
      var init, last := s[..|s| - 1], s[|s| - 1];
      UniformLength(f, w, init);
      FlattenSnoc(Map(f, init), f(last));
      assert w * |s| == w * |init| + w;
    }
  }

  /** The size query. */
  lemma SchemaSize(endianness: Byte, slots: Slots)
    ensures |SchemaBytes(endianness, slots)| ==
      SCHEMA_HEADER + ENTRY_WIRE * |Entries(slots)| + 2 + ENUM_WIRE * |Enums(slots)| + 2 +
        BITFIELD_WIRE * |Bitfields(slots)|
  {
    SchemaSections(endianness, slots);
    UniformLength(EntryWire, ENTRY_WIRE, Entries(slots));
    UniformLength(EnumWire, ENUM_WIRE, Enums(slots));
    UniformLength(BitWire, BITFIELD_WIRE, Bitfields(slots));
  }
}
