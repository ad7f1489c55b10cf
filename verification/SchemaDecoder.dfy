/** The Rust schema decoder. */
module SchemaDecoder {
  import opened Bytes
  import opened Wire
  import opened SchemaWire

  datatype FieldInfo = FieldInfo(name: Text, offset: nat, size: nat, kind: Byte, count: Byte)
  datatype EntryInfo = EntryInfo(id: nat, name: Text, description: Text, payloadSize: nat, fields: seq<FieldInfo>)
  datatype EnumInfo = EnumInfo(id: nat, index: nat, labels: seq<Text>)
  datatype BitInfo = BitInfo(name: Text, start: Byte, width: Byte)
  datatype BitfieldInfo = BitfieldInfo(id: nat, index: nat, bits: seq<BitInfo>)
  datatype Schema = Schema(entries: seq<EntryInfo>, enums: seq<EnumInfo>, bitfields: seq<BitfieldInfo>)

  /** Which byte strings are valid UTF-8. */
  type Validator = Text -> bool

  // ------------------------------------------------------------------------------------- primitives

  function ReadU8(buf: seq<Byte>, off: nat): Result<Byte> {
    if |buf| < off + 1 then Err(Short(off + 1, |buf|)) else Ok(buf[off])
  }

  function ReadU16(buf: seq<Byte>, off: nat): Result<nat> {
    if |buf| < off + 2 then Err(Short(off + 2, |buf|)) else Ok(Read(buf, off, 2))
  }

  /** Index of the first zero, or the length. */
  function FirstZero(s: seq<Byte>): (n: nat)
    ensures n <= |s| && (n < |s| ==> s[n] == 0) && forall k :: 0 <= k < n ==> s[k] != 0
  {
    if |s| == 0 || s[0] == 0 then 0 else 1 + FirstZero(s[1..])
  }

  /** `read_cstr`. */
  function ReadText(buf: seq<Byte>, off: nat, max: nat, utf8: Validator): Result<Text> {
    if |buf| < off + max then Err(Short(off + max, |buf|))
    else
      var s := buf[off..off + max];
      var t := s[..FirstZero(s)];
      if utf8(t) then Ok(t) else Err(BadName)
  }

  /** The first `n` results of `step`, or its first error. */
  function Collect<T>(step: nat -> Result<T>, n: nat): Result<seq<T>> {
    if n == 0 then Ok([])
    else
      var init :- Collect(step, n - 1);
      var x :- step(n - 1);
      Ok(init + [x])
  }

  lemma {:induction false} CollectStops<T>(step: nat -> Result<T>, i: nat, n: nat)
    requires i <= n && Collect(step, i).Err?
    ensures Collect(step, n) == Collect(step, i)
    decreases n
  {
    if i < n { CollectStops(step, i, n - 1); }
  }

  /** The loop all sections share: push until done or until an item fails. */
  method CollectLoop<T>(step: nat -> Result<T>, n: nat) returns (r: Result<seq<T>>)
    ensures r == Collect(step, n)
  {
    var xs: seq<T> := [];
    var i := 0;
    while i < n
      invariant 0 <= i <= n && Collect(step, i) == Ok(xs)
    {
      var x := step(i);
      if x.Err? {
        CollectStops(step, i + 1, n);
        return Err(x.error);
      }
      xs := xs + [x.value];
      i := i + 1;
    }
    r := Ok(xs);
  }

  lemma {:induction false} CollectAll<T>(step: nat -> Result<T>, xs: seq<T>, n: nat)
    requires n <= |xs| && forall i :: 0 <= i < n ==> step(i) == Ok(xs[i])
    ensures Collect(step, n) == Ok(xs[..n])
  {
    if n > 0 {
      CollectAll(step, xs, n - 1);
      assert xs[..n] == xs[..n - 1] + [xs[n - 1]];
    }
  }

  lemma CollectWhole<T>(step: nat -> Result<T>, xs: seq<T>)
    requires forall i :: 0 <= i < |xs| ==> step(i) == Ok(xs[i])
    ensures Collect(step, |xs|) == Ok(xs)
  {
    CollectAll(step, xs, |xs|);
    assert xs[..|xs|] == xs;
  }

  lemma {:induction false} CollectFails<T>(step: nat -> Result<T>, k: nat, n: nat)
    requires k < n && step(k).Err?
    ensures Collect(step, n).Err?
  {
    if k < n - 1 { CollectFails(step, k, n - 1); }
  }

  // --------------------------------------------------------------------------------------- the parts

  function FieldAt(buf: seq<Byte>, off: nat, utf8: Validator): Result<FieldInfo> {
    var name :- ReadText(buf, off, NAME_MAX, utf8);
    var offset :- ReadU16(buf, off + NAME_MAX);
    var size :- ReadU16(buf, off + NAME_MAX + 2);
    var kind :- ReadU8(buf, off + NAME_MAX + 4);
    if kind > TYPE_LAST then Err(UnknownType(kind))
    else
      var count :- ReadU8(buf, off + NAME_MAX + 5);
      Ok(FieldInfo(name, offset, size, kind, count))
  }

  function FieldStep(buf: seq<Byte>, at: nat, utf8: Validator): nat -> Result<FieldInfo> {
    (i: nat) => FieldAt(buf, at + FIELD_WIRE * i, utf8)
  }

  /** `decode_schema_entry`. */
  function EntryAt(buf: seq<Byte>, pos: nat, utf8: Validator): Result<EntryInfo> {
    var id :- ReadU16(buf, pos);
    var payloadSize :- ReadU16(buf, pos + 2);
    var fieldCount :- ReadU16(buf, pos + 4);
    if fieldCount > MAX_FIELDS then Err(TooManyFields(fieldCount))
    else
      var name :- ReadText(buf, pos + 6, NAME_MAX, utf8);
      var description :- ReadText(buf, pos + 6 + NAME_MAX, DESC_MAX, utf8);
      var fields :- Collect(FieldStep(buf, pos + ENTRY_HEAD, utf8), fieldCount);
      Ok(EntryInfo(id, name, description, payloadSize, fields))
  }

  function LabelStep(buf: seq<Byte>, at: nat, utf8: Validator): nat -> Result<Text> {
    (i: nat) => ReadText(buf, at + LABEL_MAX * i, LABEL_MAX, utf8)
  }

  /** `decode_enum`. */
  function EnumAt(buf: seq<Byte>, pos: nat, utf8: Validator): Result<EnumInfo> {
    var id :- ReadU16(buf, pos);
    var index :- ReadU16(buf, pos + 2);
    var count :- ReadU8(buf, pos + 4);
    if |buf| < pos + 5 + MAX_LABELS * LABEL_MAX then Err(Short(pos + 5 + MAX_LABELS * LABEL_MAX, |buf|))
    else
      var labels :- Collect(LabelStep(buf, pos + 5, utf8), Min(count, MAX_LABELS));
      Ok(EnumInfo(id, index, labels))
  }

  const STARTS_AT: nat := 5 + MAX_BITS * BIT_NAME_MAX
  const WIDTHS_AT: nat := STARTS_AT + MAX_BITS

  function BitAt(buf: seq<Byte>, pos: nat, i: nat, utf8: Validator): Result<BitInfo> {
    var name :- ReadText(buf, pos + 5 + BIT_NAME_MAX * i, BIT_NAME_MAX, utf8);
    var start :- ReadU8(buf, pos + STARTS_AT + i);
    var width :- ReadU8(buf, pos + WIDTHS_AT + i);
    Ok(BitInfo(name, start, width))
  }

  function BitStep(buf: seq<Byte>, pos: nat, utf8: Validator): nat -> Result<BitInfo> {
    (i: nat) => BitAt(buf, pos, i, utf8)
  }

  /** `decode_bitfield`. */
  function BitfieldAt(buf: seq<Byte>, pos: nat, utf8: Validator): Result<BitfieldInfo> {
    var id :- ReadU16(buf, pos);
    var index :- ReadU16(buf, pos + 2);
    var count :- ReadU8(buf, pos + 4);
    if |buf| < pos + WIDTHS_AT + MAX_BITS then Err(Short(pos + WIDTHS_AT + MAX_BITS, |buf|))
    else
      var bits :- Collect(BitStep(buf, pos, utf8), Min(count, MAX_BITS));
      Ok(BitfieldInfo(id, index, bits))
  }

  // -------------------------------------------------------------------------------------- the whole

  function EntryStep(buf: seq<Byte>, at: nat, utf8: Validator): nat -> Result<EntryInfo> {
    (i: nat) => EntryAt(buf, at + ENTRY_WIRE * i, utf8)
  }

  function EnumStep(buf: seq<Byte>, at: nat, utf8: Validator): nat -> Result<EnumInfo> {
    (i: nat) => EnumAt(buf, at + ENUM_WIRE * i, utf8)
  }

  function BitfieldStep(buf: seq<Byte>, at: nat, utf8: Validator): nat -> Result<BitfieldInfo> {
    (i: nat) => BitfieldAt(buf, at + BITFIELD_WIRE * i, utf8)
  }

  /** The enum section at `pos`, absent when the bytes end there. */
  function EnumSection(buf: seq<Byte>, pos: nat, utf8: Validator): Result<seq<EnumInfo>> {
    if pos + 2 > |buf| then Ok([]) else Collect(EnumStep(buf, pos + 2, utf8), Read(buf, pos, 2))
  }

  function AfterEnums(buf: seq<Byte>, pos: nat): nat {
    if pos + 2 > |buf| then pos else pos + 2 + ENUM_WIRE * Read(buf, pos, 2)
  }

  function BitfieldSection(buf: seq<Byte>, pos: nat, utf8: Validator): Result<seq<BitfieldInfo>> {
    if pos + 2 > |buf| then Ok([]) else Collect(BitfieldStep(buf, pos + 2, utf8), Read(buf, pos, 2))
  }

  function Decode(buf: seq<Byte>, utf8: Validator): Result<Schema> {
    var endian :- ReadU8(buf, 0);
    if endian != 0 then Err(BadEndian(endian))
    else
      var count :- ReadU16(buf, 1);
      if count > MAX_SCHEMA_ENTRIES then Err(TooManyEntries(count))
      else
        var entries :- Collect(EntryStep(buf, SCHEMA_HEADER, utf8), count);
        var pos := SCHEMA_HEADER + ENTRY_WIRE * count;
        var enums :- EnumSection(buf, pos, utf8);
        var bitfields :- BitfieldSection(buf, AfterEnums(buf, pos), utf8);
        Ok(Schema(entries, enums, bitfields))
  }

  method DecodeEnums(buf: seq<Byte>, pos: nat, utf8: Validator) returns (r: Result<seq<EnumInfo>>, next: nat)
    ensures r == EnumSection(buf, pos, utf8) && next == AfterEnums(buf, pos)
  {
    r, next := Ok([]), pos;
    if pos + 2 <= |buf| {
      var n := Read(buf, pos, 2);
      r := CollectLoop(EnumStep(buf, pos + 2, utf8), n);
      next := pos + 2 + ENUM_WIRE * n;
    }
  }

  method DecodeBitfields(buf: seq<Byte>, pos: nat, utf8: Validator) returns (r: Result<seq<BitfieldInfo>>)
    ensures r == BitfieldSection(buf, pos, utf8)
  {
    r := Ok([]);
    if pos + 2 <= |buf| {
      r := CollectLoop(BitfieldStep(buf, pos + 2, utf8), Read(buf, pos, 2));
    }
  }

  /** `Schema::decode`. */
  method DecodeSchema(buf: seq<Byte>, utf8: Validator) returns (r: Result<Schema>)
    ensures r == Decode(buf, utf8)
  {
    var endian :- ReadU8(buf, 0);
    if endian != 0 { return Err(BadEndian(endian)); }
    var count :- ReadU16(buf, 1);
    if count > MAX_SCHEMA_ENTRIES { return Err(TooManyEntries(count)); }
    var entries := CollectLoop(EntryStep(buf, SCHEMA_HEADER, utf8), count);
    if entries.Err? { return Err(entries.error); }
    var enums, next := DecodeEnums(buf, SCHEMA_HEADER + ENTRY_WIRE * count, utf8);
    if enums.Err? { return Err(enums.error); }
    var bitfields := DecodeBitfields(buf, next, utf8);
    if bitfields.Err? { return Err(bitfields.error); }
    r := Ok(Schema(entries.value, enums.value, bitfields.value));
  }

  // ------------------------------------------------------------------------------------ the lookups

  /** `Schema::entry`: the first entry with the id. */
  function FindEntry(es: seq<EntryInfo>, id: nat): Option<EntryInfo> {
    if |es| == 0 then None else if es[0].id == id then Some(es[0]) else FindEntry(es[1..], id)
  }

  /** `Schema::enum_labels`. */
  function FindLabels(es: seq<EnumInfo>, id: nat, index: nat): Option<seq<Text>> {
    if |es| == 0 then None
    else if es[0].id == id && es[0].index == index then Some(es[0].labels)
    else FindLabels(es[1..], id, index)
  }

  /** `Schema::bitfield`. */
  function FindBitfield(bs: seq<BitfieldInfo>, id: nat, index: nat): Option<BitfieldInfo> {
    if |bs| == 0 then None
    else if bs[0].id == id && bs[0].index == index then Some(bs[0])
    else FindBitfield(bs[1..], id, index)
  }
}
