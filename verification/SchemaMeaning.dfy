/** What a viewer can look up in a serialised registry, with the codes of the format written out. */
module SchemaMeaning {
  import opened Bytes
  import opened Wire
  import opened SchemaWire
  import opened SchemaDecoder
  import opened SchemaRoundTrip
  import opened SchemaLookup

  /** A field decodes if and only if its type code is one of 0 to 14. */
  lemma KindsAccepted(f: FieldDef, utf8: Validator)
    requires PlainField(f) && AcceptsAscii(utf8)
    ensures FieldAt(FieldWire(f), 0, utf8).Ok? <==> f.kind <= 14
    ensures f.kind > 14 ==> FieldAt(FieldWire(f), 0, utf8) == Err(UnknownType(f.kind))
  {
    var s := FieldWire(f);
    assert s[0..0 + FIELD_WIRE] == s;
    FieldReadsBack(s, 0, f, utf8);
  }

  /** Each entry has at most 16 fields, of the type codes 0 to 14. */
  predicate Decodable(slots: Slots) {
    forall i :: 0 <= i < |slots| ==> slots[i].Some? ==>
      var fs := slots[i].value.fields; |fs| <= 16 && forall j :: 0 <= j < |fs| ==> fs[j].kind <= 14
  }

  lemma {:induction false} DecodableEntries(slots: Slots)
    requires Decodable(slots)
    ensures AllAcceptable(Entries(slots))
  {
    if |slots| > 0 {
      var init, last := slots[..|slots| - 1], slots[|slots| - 1];
      DecodableEntries(init);
      if last.Some? { assert Acceptable(last.value); }
    }
  }

  /** What registration and the C types give: at most 512 ASCII entries, each in the slot of its id. */
  ghost predicate Registered(slots: Slots) { |slots| <= 512 && PlainRegistry(slots) && Keyed(slots) }

  lemma DecodesRegistry(slots: Slots, utf8: Validator)
    requires Registered(slots) && Decodable(slots) && AcceptsAscii(utf8)
    ensures Decode(SchemaBytes(0, slots), utf8) ==
      Ok(Schema(Map(EntryView, Entries(slots)), Map(EnumView, Enums(slots)), Map(BitfieldView, Bitfields(slots))))
  {
    DecodableEntries(slots);
    SchemaRoundTrip.SchemaRoundTrip(0, slots, utf8);
  }

  /** The text of a label or bit name: what is registered, cut to 31 bytes, or nothing. */
  ghost predicate Named(t: Text, name: Option<Text>) {
    if name.None? then t == [] else t == name.value[..Min(|name.value|, 31)]
  }

  ghost predicate LabelsKept(found: Option<seq<Text>>, labels: seq<Option<Text>>) {
    && found.Some? && |found.value| == Min(|labels|, 64)
    && forall i :: 0 <= i < |found.value| ==> Named(found.value[i], labels[i])
  }

  ghost predicate BitsKept(found: Option<BitfieldInfo>, bits: seq<BitDef>) {
    && found.Some? && |found.value.bits| == Min(|bits|, 32)
    && forall i :: 0 <= i < |found.value.bits| ==>
         && Named(found.value.bits[i].name, bits[i].name)
         && found.value.bits[i].start == bits[i].start && found.value.bits[i].width == bits[i].width
  }

  lemma ViewKeepsLabels(it: EnumItem)
    ensures LabelsKept(Some(EnumView(it).labels), it.labels)
  {
    var ls := it.labels[..Min(|it.labels|, MAX_LABELS)];
    assert EnumView(it).labels == Map(LabelView, ls);
    forall i | 0 <= i < |ls| ensures Named(LabelView(ls[i]), it.labels[i]) { assert ls[i] == it.labels[i]; }
  }

  lemma ViewKeepsBits(it: BitItem)
    ensures BitsKept(Some(BitfieldView(it)), it.bits)
  {
    var bs := it.bits[..Min(|it.bits|, MAX_BITS)];
    assert BitfieldView(it).bits == Map(BitView, bs);
    forall i | 0 <= i < |bs| ensures Named(BitView(bs[i]).name, it.bits[i].name) { assert bs[i] == it.bits[i]; }
  }

  /** Field `index` of entry `id`. */
  predicate HasField(slots: Slots, id: nat, index: nat) {
    id < |slots| && slots[id].Some? && index < |slots[id].value.fields|
  }

  function FieldOf(slots: Slots, id: nat, index: nat): FieldDef
    requires HasField(slots, id, index)
  {
    slots[id].value.fields[index]
  }

  /** In the enum list of a registry a field has labels exactly when its type code is 12 and it was given some. */
  lemma LabelsListed(slots: Slots, id: nat, index: nat)
    requires Keyed(slots) && Decodable(slots) && HasField(slots, id, index)
    ensures
      var f, found := FieldOf(slots, id, index), FindLabels(Map(EnumView, Enums(slots)), id, index);
      if f.kind == 12 && f.labels.Some? then LabelsKept(found, f.labels.value) else found.None?
  {
    LabelsFound(slots, id, index);
    var e := slots[id].value;
    if EnumOf(e, index).Some? { ViewKeepsLabels(EnumOf(e, index).value); }
  }

  lemma BitsListed(slots: Slots, id: nat, index: nat)
    requires Keyed(slots) && Decodable(slots) && HasField(slots, id, index)
    ensures
      var f, found := FieldOf(slots, id, index), FindBitfield(Map(BitfieldView, Bitfields(slots)), id, index);
      if f.kind == 13 && f.bits.Some? then BitsKept(found, f.bits.value) else found.None?
  {
    BitfieldFound(slots, id, index);
    var e := slots[id].value;
    if BitfieldOf(e, index).Some? { ViewKeepsBits(BitfieldOf(e, index).value); }
  }

  /** Looking up a field in the decoded registry: labels exactly for type code 12 and bits exactly for type code 13,
      each as registered up to 64 labels or 32 bits of 31 bytes. */
  ghost predicate LooksUp(r: Result<Schema>, slots: Slots, id: nat, index: nat)
    requires HasField(slots, id, index)
  {
    r.Ok? &&
    var f := FieldOf(slots, id, index);
    var labels, bits := FindLabels(r.value.enums, id, index), FindBitfield(r.value.bitfields, id, index);
    && (if f.kind == 12 && f.labels.Some? then LabelsKept(labels, f.labels.value) else labels.None?)
    && (if f.kind == 13 && f.bits.Some? then BitsKept(bits, f.bits.value) else bits.None?)
  }

  lemma ListsLookUp(r: Result<Schema>, slots: Slots, id: nat, index: nat)
    requires Keyed(slots) && Decodable(slots) && HasField(slots, id, index) && r.Ok?
    requires r.value.enums == Map(EnumView, Enums(slots)) && r.value.bitfields == Map(BitfieldView, Bitfields(slots))
    ensures LooksUp(r, slots, id, index)
  {
    LabelsListed(slots, id, index);
    BitsListed(slots, id, index);
  }

  lemma FieldsLookUp(slots: Slots, id: nat, index: nat, utf8: Validator)
    requires Registered(slots) && Decodable(slots) && AcceptsAscii(utf8) && HasField(slots, id, index)
    ensures LooksUp(Decode(SchemaBytes(0, slots), utf8), slots, id, index)
  {
    DecodesRegistry(slots, utf8);
    ListsLookUp(Decode(SchemaBytes(0, slots), utf8), slots, id, index);
  }

  // ----------------------------------------------------------------------------------------- an example

  /** One entry with a state (labels A and B) and a flag word (bit C at 3, one wide). */
  const STATE: FieldDef := FieldDef([70], 0, 1, 12, 1, Some([Some([65]), Some([66])]), None)
  const FLAGS: FieldDef := FieldDef([71], 1, 4, 13, 1, None, Some([BitDef(Some([67]), 3, 1)]))
  const SAMPLE: Slots := [Some(SchemaDef(0, [83], None, 5, [STATE, FLAGS]))]

  lemma SampleIsRegistered()
    ensures Registered(SAMPLE) && Decodable(SAMPLE) && HasField(SAMPLE, 0, 0) && HasField(SAMPLE, 0, 1)
  {
    assert Plain([83]) && PlainField(STATE) && PlainField(FLAGS);
    assert PlainLabels(STATE.labels.value) && PlainBits(FLAGS.bits.value);
    assert PlainDef(SAMPLE[0].value);
  }

  lemma SampleDecodes(utf8: Validator)
    requires AcceptsAscii(utf8)
    ensures
      var r := Decode(SchemaBytes(0, SAMPLE), utf8);
      && r.Ok? && FindLabels(r.value.enums, 0, 0) == Some([[65], [66]])
      && FindBitfield(r.value.bitfields, 0, 1).Some?
      && FindBitfield(r.value.bitfields, 0, 1).value.bits == [BitInfo([67], 3, 1)]
  {
    SampleIsRegistered();
    var r := Decode(SchemaBytes(0, SAMPLE), utf8);
    FieldsLookUp(SAMPLE, 0, 0, utf8);
    FieldsLookUp(SAMPLE, 0, 1, utf8);
    SampleFound(r);
  }

  lemma NamedWhole(t: Text, name: Text)
    requires Named(t, Some(name)) && |name| <= 31
    ensures t == name
  {
    assert name[..|name|] == name;
  }

  lemma SampleFound(r: Result<Schema>)
    requires HasField(SAMPLE, 0, 0) && HasField(SAMPLE, 0, 1) && LooksUp(r, SAMPLE, 0, 0) && LooksUp(r, SAMPLE, 0, 1)
    ensures FindLabels(r.value.enums, 0, 0) == Some([[65], [66]])
    ensures FindBitfield(r.value.bitfields, 0, 1).Some?
    ensures FindBitfield(r.value.bitfields, 0, 1).value.bits == [BitInfo([67], 3, 1)]
  {
    var labels, bits := FindLabels(r.value.enums, 0, 0).value, FindBitfield(r.value.bitfields, 0, 1).value.bits;
    NamedWhole(labels[0], [65]);
    NamedWhole(labels[1], [66]);
    NamedWhole(bits[0].name, [67]);
    assert labels == [[65], [66]];
    assert bits == [BitInfo([67], 3, 1)];
  }
}
