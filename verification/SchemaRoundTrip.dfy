/** What the Rust decoder recovers of a registry serialised in C. */
module SchemaRoundTrip {
  import opened Bytes
  import opened Wire
  import opened SchemaWire
  import opened SchemaDecoder

  // --------------------------------------------------------------------- what survives, and when

  /** A string cut to fit an array of `n` bytes. */
  function Cut(t: Text, n: nat): Text
    requires n > 0
  {
    t[..Min(|t|, n - 1)]
  }

  function FieldView(f: FieldDef): FieldInfo { FieldInfo(Cut(f.name, NAME_MAX), f.offset, f.size, f.kind, f.count) }

  function EntryView(e: SchemaDef): EntryInfo {
    EntryInfo(e.id, Cut(e.name, NAME_MAX), Cut(OrEmpty(e.description), DESC_MAX), e.payloadSize,
      Map(FieldView, e.fields))
  }

  function LabelView(l: Option<Text>): Text { Cut(OrEmpty(l), LABEL_MAX) }

  function EnumView(it: EnumItem): EnumInfo {
    EnumInfo(it.id, it.index, Map(LabelView, it.labels[..Min(|it.labels|, MAX_LABELS)]))
  }

  function BitView(b: BitDef): BitInfo { BitInfo(Cut(OrEmpty(b.name), BIT_NAME_MAX), b.start, b.width) }

  function BitfieldView(it: BitItem): BitfieldInfo {
    BitfieldInfo(it.id, it.index, Map(BitView, it.bits[..Min(|it.bits|, MAX_BITS)]))
  }

  /** ASCII without a terminator inside. */
  predicate Plain(t: Text) { forall i :: 0 <= i < |t| ==> 0 < t[i] < 128 }

  /** The validator accepts ASCII, as UTF-8 does. */
  ghost predicate AcceptsAscii(utf8: Validator) { forall t: Text :: Plain(t) ==> utf8(t) }

  predicate PlainField(f: FieldDef) { Plain(f.name) && f.offset < U16 && f.size < U16 }

  predicate PlainLabels(ls: seq<Option<Text>>) { forall i :: 0 <= i < |ls| ==> Plain(OrEmpty(ls[i])) }

  predicate PlainBits(bs: seq<BitDef>) { forall i :: 0 <= i < |bs| ==> Plain(OrEmpty(bs[i].name)) }

  /** Strings are ASCII and integers have their C widths. */
  predicate PlainEntry(e: SchemaDef) {
    && e.id < U16 && e.payloadSize < U16 && |e.fields| < U16 && Plain(e.name) && Plain(OrEmpty(e.description))
    && forall i :: 0 <= i < |e.fields| ==> PlainField(e.fields[i])
  }

  predicate PlainEnum(it: EnumItem) { it.id < U16 && it.index < U16 && PlainLabels(it.labels) }

  predicate PlainBitfield(it: BitItem) { it.id < U16 && it.index < U16 && PlainBits(it.bits) }

  /** The decoder takes at most 16 fields, each of a known type: the codes 0 to 14. */
  predicate Acceptable(e: SchemaDef) {
    |e.fields| <= MAX_FIELDS && forall i :: 0 <= i < |e.fields| ==> e.fields[i].kind <= 14
  }

  // ------------------------------------------------------------------------------------- strings

  lemma TextReadsBack(buf: seq<Byte>, off: nat, t: Text, n: nat, utf8: Validator)
    requires n > 0 && off + n <= |buf| && buf[off..off + n] == Padded(t, n) && Plain(t) && AcceptsAscii(utf8)
    ensures ReadText(buf, off, n, utf8) == Ok(Cut(t, n))
  {
    var s, kept := Padded(t, n), Min(|t|, n - 1);
    assert s[kept] == 0;
    assert forall k :: 0 <= k < kept ==> s[k] == t[k] != 0;
    assert FirstZero(s) == kept;
    assert s[..kept] == Cut(t, n);
    assert Plain(Cut(t, n));
  }

  // -------------------------------------------------------------------------------------- fields

  lemma FieldParts(f: FieldDef)
    ensures var s := FieldWire(f);
      && s[0..64] == Padded(f.name, NAME_MAX) && s[64..66] == LE(f.offset, 2) && s[66..68] == LE(f.size, 2)
      && s[68] == f.kind && s[69] == f.count
  {
  }

  lemma FieldReadsBack(buf: seq<Byte>, off: nat, f: FieldDef, utf8: Validator)
    requires off + FIELD_WIRE <= |buf| && buf[off..off + FIELD_WIRE] == FieldWire(f) && PlainField(f)
    requires AcceptsAscii(utf8)
    ensures FieldAt(buf, off, utf8) == if f.kind > 14 then Err(UnknownType(f.kind)) else Ok(FieldView(f))
  {
    PowValues();
    FieldParts(f);
    var s := FieldWire(f);
    Nested(buf, off, FIELD_WIRE, s, 0, 64, Padded(f.name, NAME_MAX));
    Nested(buf, off, FIELD_WIRE, s, 64, 2, LE(f.offset, 2));
    Nested(buf, off, FIELD_WIRE, s, 66, 2, LE(f.size, 2));
    assert buf[off + 68] == buf[off..off + FIELD_WIRE][68] && buf[off + 69] == buf[off..off + FIELD_WIRE][69];
    TextReadsBack(buf, off, f.name, NAME_MAX, utf8);
    ReadLE(buf, off + 64, f.offset, 2);
    ReadLE(buf, off + 66, f.size, 2);
  }

  /** Chunks of width `w` appended one by one. */
  lemma ChunkKept<T>(a: seq<T>, b: seq<T>, i: nat, w: nat)
    requires i + w <= |a|
    ensures (a + b)[i..i + w] == a[i..i + w]
  {
  }

  lemma {:induction false} FieldsWireAt(fs: seq<FieldDef>, i: nat)
    requires i < |fs|
    ensures FieldsWire(fs)[FIELD_WIRE * i..FIELD_WIRE * i + FIELD_WIRE] == FieldWire(fs[i])
  {
    var init, last := fs[..|fs| - 1], fs[|fs| - 1];
    if i < |init| {
      FieldsWireAt(init, i);
      ChunkKept(FieldsWire(init), FieldWire(last), FIELD_WIRE * i, FIELD_WIRE);
    }
  }

  lemma FieldStepReads(buf: seq<Byte>, at: nat, section: seq<Byte>, f: FieldDef, i: nat, utf8: Validator)
    requires at + |section| <= |buf| && buf[at..at + |section|] == section && FIELD_WIRE * i + FIELD_WIRE <= |section|
    requires section[FIELD_WIRE * i..FIELD_WIRE * i + FIELD_WIRE] == FieldWire(f) && PlainField(f) && AcceptsAscii(utf8)
    ensures FieldStep(buf, at, utf8)(i) == if f.kind > 14 then Err(UnknownType(f.kind)) else Ok(FieldView(f))
  {
    Nested(buf, at, |section|, section, FIELD_WIRE * i, FIELD_WIRE, FieldWire(f));
    FieldReadsBack(buf, at + FIELD_WIRE * i, f, utf8);
  }

  /** `section` is the wire form of the fields, and lies at `at`. */
  ghost predicate FieldsLie(buf: seq<Byte>, at: nat, section: seq<Byte>, fs: seq<FieldDef>) {
    && at + |section| <= |buf| && buf[at..at + |section|] == section && section == FieldsWire(fs)
    && forall i :: 0 <= i < |fs| ==> PlainField(fs[i])
  }

  lemma FieldReads(buf: seq<Byte>, at: nat, section: seq<Byte>, fs: seq<FieldDef>, i: nat, utf8: Validator)
    requires FieldsLie(buf, at, section, fs) && i < |fs| && AcceptsAscii(utf8)
    ensures FieldStep(buf, at, utf8)(i) == if fs[i].kind > 14 then Err(UnknownType(fs[i].kind))
      else Ok(FieldView(fs[i]))
  {
    FieldsWireAt(fs, i);
    FieldStepReads(buf, at, section, fs[i], i, utf8);
  }

  lemma FieldsReadBack(buf: seq<Byte>, at: nat, section: seq<Byte>, fs: seq<FieldDef>, utf8: Validator)
    requires FieldsLie(buf, at, section, fs) && AcceptsAscii(utf8)
    requires forall i :: 0 <= i < |fs| ==> fs[i].kind <= 14
    ensures Collect(FieldStep(buf, at, utf8), |fs|) == Ok(Map(FieldView, fs))
  {
    var step, xs := FieldStep(buf, at, utf8), Map(FieldView, fs);
    forall i | 0 <= i < |fs| ensures step(i) == Ok(xs[i]) { FieldReads(buf, at, section, fs, i, utf8); }
    CollectWhole(step, xs);
  }

  lemma FieldsRefused(buf: seq<Byte>, at: nat, section: seq<Byte>, fs: seq<FieldDef>, k: nat, utf8: Validator)
    requires FieldsLie(buf, at, section, fs) && AcceptsAscii(utf8) && k < |fs| && fs[k].kind > 14
    ensures Collect(FieldStep(buf, at, utf8), |fs|).Err?
  {
    FieldReads(buf, at, section, fs, k, utf8);
    CollectFails(FieldStep(buf, at, utf8), k, |fs|);
  }

  // ------------------------------------------------------------------------------------- entries

  lemma HeadParts(e: SchemaDef)
    ensures var s := EntryHead(e);
      && s[0..2] == LE(e.id, 2) && s[2..4] == LE(e.payloadSize, 2) && s[4..6] == LE(|e.fields|, 2)
      && s[6..70] == Padded(e.name, NAME_MAX) && s[70..198] == Padded(OrEmpty(e.description), DESC_MAX)
  {
  }

  lemma HeadReadsBack(buf: seq<Byte>, pos: nat, e: SchemaDef, utf8: Validator)
    requires pos + ENTRY_HEAD <= |buf| && buf[pos..pos + ENTRY_HEAD] == EntryHead(e) && PlainEntry(e)
    requires AcceptsAscii(utf8)
    ensures ReadU16(buf, pos) == Ok(e.id) && ReadU16(buf, pos + 2) == Ok(e.payloadSize)
    ensures ReadU16(buf, pos + 4) == Ok(|e.fields|)
    ensures ReadText(buf, pos + 6, NAME_MAX, utf8) == Ok(Cut(e.name, NAME_MAX))
    ensures ReadText(buf, pos + 6 + NAME_MAX, DESC_MAX, utf8) == Ok(Cut(OrEmpty(e.description), DESC_MAX))
  {
    PowValues();
    HeadParts(e);
    var s := EntryHead(e);
    Nested(buf, pos, ENTRY_HEAD, s, 0, 2, LE(e.id, 2));
    Nested(buf, pos, ENTRY_HEAD, s, 2, 2, LE(e.payloadSize, 2));
    Nested(buf, pos, ENTRY_HEAD, s, 4, 2, LE(|e.fields|, 2));
    Nested(buf, pos, ENTRY_HEAD, s, 6, 64, Padded(e.name, NAME_MAX));
    Nested(buf, pos, ENTRY_HEAD, s, 70, 128, Padded(OrEmpty(e.description), DESC_MAX));
    ReadLE(buf, pos, e.id, 2);
    ReadLE(buf, pos + 2, e.payloadSize, 2);
    ReadLE(buf, pos + 4, |e.fields|, 2);
    TextReadsBack(buf, pos + 6, e.name, NAME_MAX, utf8);
    TextReadsBack(buf, pos + 70, OrEmpty(e.description), DESC_MAX, utf8);
  }

  lemma EntryParts(e: SchemaDef)
    ensures var fc := FieldsKept(e);
      EntryWire(e)[0..ENTRY_HEAD] == EntryHead(e)
        && EntryWire(e)[ENTRY_HEAD..ENTRY_HEAD + FIELD_WIRE * fc] == FieldsWire(e.fields[..fc])
  {
    var fc := FieldsKept(e);
    ThreeParts(EntryHead(e), FieldsWire(e.fields[..fc]), Zeros(FIELD_WIRE * (MAX_FIELDS - fc)));
  }

  lemma EntryFromParts(buf: seq<Byte>, pos: nat, e: SchemaDef, utf8: Validator)
    requires ReadU16(buf, pos) == Ok(e.id) && ReadU16(buf, pos + 2) == Ok(e.payloadSize)
    requires ReadU16(buf, pos + 4) == Ok(|e.fields|)
    requires ReadText(buf, pos + 6, NAME_MAX, utf8) == Ok(Cut(e.name, NAME_MAX))
    requires ReadText(buf, pos + 6 + NAME_MAX, DESC_MAX, utf8) == Ok(Cut(OrEmpty(e.description), DESC_MAX))
    ensures |e.fields| > MAX_FIELDS ==> EntryAt(buf, pos, utf8).Err?
    ensures |e.fields| <= MAX_FIELDS ==>
      var fields := Collect(FieldStep(buf, pos + ENTRY_HEAD, utf8), |e.fields|);
      && (fields.Err? ==> EntryAt(buf, pos, utf8).Err?)
      && (fields == Ok(Map(FieldView, e.fields)) ==> EntryAt(buf, pos, utf8) == Ok(EntryView(e)))
  {
  }

  /** Header and fields of an entry, where the wire form puts them. */
  lemma EntryPieces(buf: seq<Byte>, pos: nat, e: SchemaDef)
    requires pos + ENTRY_WIRE <= |buf| && buf[pos..pos + ENTRY_WIRE] == EntryWire(e)
    ensures buf[pos..pos + ENTRY_HEAD] == EntryHead(e)
    ensures |e.fields| <= MAX_FIELDS ==>
      buf[pos + ENTRY_HEAD..pos + ENTRY_HEAD + FIELD_WIRE * |e.fields|] == FieldsWire(e.fields)
  {
    EntryParts(e);
    Nested(buf, pos, ENTRY_WIRE, EntryWire(e), 0, ENTRY_HEAD, EntryHead(e));
    if |e.fields| <= MAX_FIELDS {
      assert e.fields[..FieldsKept(e)] == e.fields;
      Nested(buf, pos, ENTRY_WIRE, EntryWire(e), ENTRY_HEAD, FIELD_WIRE * |e.fields|, FieldsWire(e.fields));
    }
  }

  /** An entry read back: as it was up to truncation, or refused. */
  lemma EntryReadsBack(buf: seq<Byte>, pos: nat, e: SchemaDef, utf8: Validator)
    requires pos + ENTRY_WIRE <= |buf| && buf[pos..pos + ENTRY_WIRE] == EntryWire(e) && PlainEntry(e)
    requires AcceptsAscii(utf8)
    ensures if Acceptable(e) then EntryAt(buf, pos, utf8) == Ok(EntryView(e)) else EntryAt(buf, pos, utf8).Err?
  {
    EntryPieces(buf, pos, e);
    HeadReadsBack(buf, pos, e, utf8);
    EntryFromParts(buf, pos, e, utf8);
    if |e.fields| <= MAX_FIELDS {
      if Acceptable(e) {
        FieldsReadBack(buf, pos + ENTRY_HEAD, FieldsWire(e.fields), e.fields, utf8);
      } else {
        var k :| 0 <= k < |e.fields| && e.fields[k].kind > 14;
        FieldsRefused(buf, pos + ENTRY_HEAD, FieldsWire(e.fields), e.fields, k, utf8);
      }
    }
  }

  // --------------------------------------------------------------------------- enums and bitfields

  lemma ItemHeadReads(buf: seq<Byte>, pos: nat, id: nat, index: nat, count: Byte)
    requires pos + 5 <= |buf| && buf[pos..pos + 5] == ItemHead(id, index, count) && id < U16 && index < U16
    ensures ReadU16(buf, pos) == Ok(id) && ReadU16(buf, pos + 2) == Ok(index) && ReadU8(buf, pos + 4) == Ok(count)
  {
    PowValues();
    ThreeParts(LE(id, 2), LE(index, 2), [count]);
    var s := ItemHead(id, index, count);
    Nested(buf, pos, 5, s, 0, 2, LE(id, 2));
    Nested(buf, pos, 5, s, 2, 2, LE(index, 2));
    Nested(buf, pos, 5, s, 4, 1, [count]);
    ReadLE(buf, pos, id, 2);
    ReadLE(buf, pos + 2, index, 2);
    assert buf[pos + 4] == buf[pos + 4..pos + 5][0];
  }

  lemma {:induction false} LabelsWireAt(ls: seq<Option<Text>>, i: nat)
    requires i < |ls|
    ensures LabelsWire(ls)[LABEL_MAX * i..LABEL_MAX * i + LABEL_MAX] == Padded(OrEmpty(ls[i]), LABEL_MAX)
  {
    var init, last := ls[..|ls| - 1], Padded(OrEmpty(ls[|ls| - 1]), LABEL_MAX);
    if i < |init| {
      LabelsWireAt(init, i);
      ChunkKept(LabelsWire(init), last, LABEL_MAX * i, LABEL_MAX);
    } else {
      assert (LabelsWire(init) + last)[LABEL_MAX * |init|..] == last;
    }
  }

  lemma LabelStepReads(buf: seq<Byte>, at: nat, section: seq<Byte>, l: Option<Text>, i: nat, utf8: Validator)
    requires at + |section| <= |buf| && buf[at..at + |section|] == section && LABEL_MAX * i + LABEL_MAX <= |section|
    requires section[LABEL_MAX * i..LABEL_MAX * i + LABEL_MAX] == Padded(OrEmpty(l), LABEL_MAX)
    requires Plain(OrEmpty(l)) && AcceptsAscii(utf8)
    ensures LabelStep(buf, at, utf8)(i) == Ok(LabelView(l))
  {
    Nested(buf, at, |section|, section, LABEL_MAX * i, LABEL_MAX, Padded(OrEmpty(l), LABEL_MAX));
    TextReadsBack(buf, at + LABEL_MAX * i, OrEmpty(l), LABEL_MAX, utf8);
  }

  lemma LabelReads(buf: seq<Byte>, at: nat, section: seq<Byte>, ls: seq<Option<Text>>, i: nat, utf8: Validator)
    requires at + |section| <= |buf| && buf[at..at + |section|] == section == LabelsWire(ls)
    requires i < |ls| && PlainLabels(ls) && AcceptsAscii(utf8)
    ensures LabelStep(buf, at, utf8)(i) == Ok(LabelView(ls[i]))
  {
    LabelsWireAt(ls, i);
    LabelStepReads(buf, at, section, ls[i], i, utf8);
  }

  lemma LabelsReadBack(buf: seq<Byte>, at: nat, section: seq<Byte>, ls: seq<Option<Text>>, utf8: Validator)
    requires at + |section| <= |buf| && buf[at..at + |section|] == section == LabelsWire(ls)
    requires PlainLabels(ls) && AcceptsAscii(utf8)
    ensures Collect(LabelStep(buf, at, utf8), |ls|) == Ok(Map(LabelView, ls))
  {
    var step, xs := LabelStep(buf, at, utf8), Map(LabelView, ls);
    forall i | 0 <= i < |ls| ensures step(i) == Ok(xs[i]) { LabelReads(buf, at, section, ls, i, utf8); }
    CollectWhole(step, xs);
  }

  lemma EnumReadsBack(buf: seq<Byte>, pos: nat, it: EnumItem, utf8: Validator)
    requires pos + ENUM_WIRE <= |buf| && buf[pos..pos + ENUM_WIRE] == EnumWire(it) && PlainEnum(it)
    requires AcceptsAscii(utf8)
    ensures EnumAt(buf, pos, utf8) == Ok(EnumView(it))
  {
    var lc := Min(|it.labels|, MAX_LABELS);
    var head, ls := ItemHead(it.id, it.index, lc), it.labels[..lc];
    ThreeParts(head, LabelsWire(ls), Zeros(LABEL_MAX * (MAX_LABELS - lc)));
    Nested(buf, pos, ENUM_WIRE, EnumWire(it), 0, 5, head);
    Nested(buf, pos, ENUM_WIRE, EnumWire(it), 5, LABEL_MAX * lc, LabelsWire(ls));
    ItemHeadReads(buf, pos, it.id, it.index, lc);
    LabelsReadBack(buf, pos + 5, LabelsWire(ls), ls, utf8);
  }

  lemma {:induction false} BitArraysAt(bs: seq<BitDef>, i: nat)
    requires i < |bs|
    ensures BitNamesWire(bs)[BIT_NAME_MAX * i..BIT_NAME_MAX * i + BIT_NAME_MAX] ==
      Padded(OrEmpty(bs[i].name), BIT_NAME_MAX)
    ensures Starts(bs)[i] == bs[i].start && WidthsOf(bs)[i] == bs[i].width
  {
    if i < |bs| - 1 { BitArraysAt(bs[..|bs| - 1], i); }
  }

  /** The three arrays of a bitfield lie where the decoder looks. */
  ghost predicate BitsLie(buf: seq<Byte>, pos: nat, bs: seq<BitDef>) {
    && |bs| <= MAX_BITS && pos + BITFIELD_WIRE <= |buf|
    && buf[pos + 5..pos + 5 + BIT_NAME_MAX * |bs|] == BitNamesWire(bs)
    && buf[pos + STARTS_AT..pos + STARTS_AT + |bs|] == Starts(bs)
    && buf[pos + WIDTHS_AT..pos + WIDTHS_AT + |bs|] == WidthsOf(bs)
  }

  lemma BitReads(buf: seq<Byte>, pos: nat, bs: seq<BitDef>, i: nat, utf8: Validator)
    requires BitsLie(buf, pos, bs) && i < |bs| && PlainBits(bs) && AcceptsAscii(utf8)
    ensures BitStep(buf, pos, utf8)(i) == Ok(BitView(bs[i]))
  {
    BitArraysAt(bs, i);
    Nested(buf, pos + 5, BIT_NAME_MAX * |bs|, BitNamesWire(bs), BIT_NAME_MAX * i, BIT_NAME_MAX,
      Padded(OrEmpty(bs[i].name), BIT_NAME_MAX));
    TextReadsBack(buf, pos + 5 + BIT_NAME_MAX * i, OrEmpty(bs[i].name), BIT_NAME_MAX, utf8);
    assert buf[pos + STARTS_AT + i] == buf[pos + STARTS_AT..pos + STARTS_AT + |bs|][i];
    assert buf[pos + WIDTHS_AT + i] == buf[pos + WIDTHS_AT..pos + WIDTHS_AT + |bs|][i];
  }

  lemma BitsReadBack(buf: seq<Byte>, pos: nat, bs: seq<BitDef>, utf8: Validator)
    requires BitsLie(buf, pos, bs) && PlainBits(bs) && AcceptsAscii(utf8)
    ensures Collect(BitStep(buf, pos, utf8), |bs|) == Ok(Map(BitView, bs))
  {
    var step, xs := BitStep(buf, pos, utf8), Map(BitView, bs);
    forall i | 0 <= i < |bs| ensures step(i) == Ok(xs[i]) { BitReads(buf, pos, bs, i, utf8); }
    CollectWhole(step, xs);
  }

  lemma FourSlices<T>(a: seq<T>, b: seq<T>, c: seq<T>, d: seq<T>)
    ensures var s := a + b + c + d;
      && s[0..|a|] == a && s[|a|..|a| + |b|] == b
      && s[|a| + |b|..|a| + |b| + |c|] == c && s[|a| + |b| + |c|..|a| + |b| + |c| + |d|] == d
  {
  }

  lemma BitfieldLies(buf: seq<Byte>, pos: nat, it: BitItem)
    requires pos + BITFIELD_WIRE <= |buf| && buf[pos..pos + BITFIELD_WIRE] == BitWire(it)
    ensures var bc := Min(|it.bits|, MAX_BITS);
      buf[pos..pos + 5] == ItemHead(it.id, it.index, bc) && BitsLie(buf, pos, it.bits[..bc])
  {
    var bc := Min(|it.bits|, MAX_BITS);
    var bs := it.bits[..bc];
    var head, names, starts, widths := ItemHead(it.id, it.index, bc), NamesArray(bs), StartsArray(bs), WidthsArray(bs);
    FourSlices(head, names, starts, widths);
    Nested(buf, pos, BITFIELD_WIRE, BitWire(it), 0, 5, head);
    Nested(buf, pos, BITFIELD_WIRE, BitWire(it), 5, 1024, names);
    Nested(buf, pos, BITFIELD_WIRE, BitWire(it), STARTS_AT, MAX_BITS, starts);
    Nested(buf, pos, BITFIELD_WIRE, BitWire(it), WIDTHS_AT, MAX_BITS, widths);
    ArrayHead(buf, pos + 5, 1024, BitNamesWire(bs), BIT_NAME_MAX * bc);
    ArrayHead(buf, pos + STARTS_AT, MAX_BITS, Starts(bs), bc);
    ArrayHead(buf, pos + WIDTHS_AT, MAX_BITS, WidthsOf(bs), bc);
  }

  lemma ArrayHead(buf: seq<Byte>, at: nat, n: nat, used: seq<Byte>, k: nat)
    requires k == |used| <= n && at + n <= |buf| && buf[at..at + n] == used + Zeros(n - k)
    ensures buf[at..at + k] == used
  {
    Nested(buf, at, n, used + Zeros(n - k), 0, k, used);
  }

  lemma BitfieldReadsBack(buf: seq<Byte>, pos: nat, it: BitItem, utf8: Validator)
    requires pos + BITFIELD_WIRE <= |buf| && buf[pos..pos + BITFIELD_WIRE] == BitWire(it) && PlainBitfield(it)
    requires AcceptsAscii(utf8)
    ensures BitfieldAt(buf, pos, utf8) == Ok(BitfieldView(it))
  {
    var bc := Min(|it.bits|, MAX_BITS);
    BitfieldLies(buf, pos, it);
    ItemHeadReads(buf, pos, it.id, it.index, bc);
    BitsReadBack(buf, pos, it.bits[..bc], utf8);
  }

  // ------------------------------------------------------------------------------------ sections

  lemma {:induction false} UniformAt<A>(f: A -> seq<Byte>, w: nat, s: seq<A>, i: nat)
    requires i < |s| && forall x: A :: |f(x)| == w
    ensures w * i + w <= |Flatten(Map(f, s))| && Flatten(Map(f, s))[w * i..w * i + w] == f(s[i])
  {
    var init, last := s[..|s| - 1], f(s[|s| - 1]);
    var flat := Flatten(Map(f, init));
    UniformLength(f, w, init);
    FlattenSnoc(Map(f, init), last);
    assert Map(f, s) == Map(f, init) + [last];
    if i < |init| {
      UniformAt(f, w, init, i);
      ChunkKept(flat, last, w * i, w);
    } else {
      assert (flat + last)[|flat|..|flat| + w] == last;
    }
  }

  /** Item `i` of a section. */
  ghost predicate EntryLies(section: seq<Byte>, i: nat, it: SchemaDef) {
    ENTRY_WIRE * i + ENTRY_WIRE <= |section| && section[ENTRY_WIRE * i..ENTRY_WIRE * i + ENTRY_WIRE] == EntryWire(it)
  }

  ghost predicate EntriesTiled(section: seq<Byte>, items: seq<SchemaDef>) {
    && |section| == ENTRY_WIRE * |items|
    && forall i {:trigger EntryLies(section, i, items[i])} :: 0 <= i < |items| ==> EntryLies(section, i, items[i])
  }

  lemma EntriesTile(items: seq<SchemaDef>)
    ensures EntriesTiled(Flatten(Map(EntryWire, items)), items)
  {
    var section := Flatten(Map(EntryWire, items));
    UniformLength(EntryWire, ENTRY_WIRE, items);
    forall i | 0 <= i < |items| ensures EntryLies(section, i, items[i]) {
      UniformAt(EntryWire, ENTRY_WIRE, items, i);
    }
  }

  /** Item `i` of a section. */
  ghost predicate EnumLies(section: seq<Byte>, i: nat, it: EnumItem) {
    ENUM_WIRE * i + ENUM_WIRE <= |section| && section[ENUM_WIRE * i..ENUM_WIRE * i + ENUM_WIRE] == EnumWire(it)
  }

  ghost predicate EnumsTiled(section: seq<Byte>, items: seq<EnumItem>) {
    && |section| == ENUM_WIRE * |items|
    && forall i {:trigger EnumLies(section, i, items[i])} :: 0 <= i < |items| ==> EnumLies(section, i, items[i])
  }

  lemma EnumsTile(items: seq<EnumItem>)
    ensures EnumsTiled(Flatten(Map(EnumWire, items)), items)
  {
    var section := Flatten(Map(EnumWire, items));
    UniformLength(EnumWire, ENUM_WIRE, items);
    forall i | 0 <= i < |items| ensures EnumLies(section, i, items[i]) {
      UniformAt(EnumWire, ENUM_WIRE, items, i);
    }
  }

  /** Item `i` of a section. */
  ghost predicate BitfieldLiesAt(section: seq<Byte>, i: nat, it: BitItem) {
    BITFIELD_WIRE * i + BITFIELD_WIRE <= |section|
      && section[BITFIELD_WIRE * i..BITFIELD_WIRE * i + BITFIELD_WIRE] == BitWire(it)
  }

  ghost predicate BitfieldsTiled(section: seq<Byte>, items: seq<BitItem>) {
    && |section| == BITFIELD_WIRE * |items|
    && forall i {:trigger BitfieldLiesAt(section, i, items[i])} :: 0 <= i < |items| ==>
      BitfieldLiesAt(section, i, items[i])
  }

  lemma BitfieldsTile(items: seq<BitItem>)
    ensures BitfieldsTiled(Flatten(Map(BitWire, items)), items)
  {
    var section := Flatten(Map(BitWire, items));
    UniformLength(BitWire, BITFIELD_WIRE, items);
    forall i | 0 <= i < |items| ensures BitfieldLiesAt(section, i, items[i]) {
      UniformAt(BitWire, BITFIELD_WIRE, items, i);
    }
  }

  lemma EntryStepReads(buf: seq<Byte>, at: nat, section: seq<Byte>, it: SchemaDef, i: nat, utf8: Validator)
    requires at + |section| <= |buf| && buf[at..at + |section|] == section && EntryLies(section, i, it)
    requires PlainEntry(it) && AcceptsAscii(utf8)
    ensures var r := EntryStep(buf, at, utf8)(i); if Acceptable(it) then r == Ok(EntryView(it)) else r.Err?
  {
    Nested(buf, at, |section|, section, ENTRY_WIRE * i, ENTRY_WIRE, EntryWire(it));
    EntryReadsBack(buf, at + ENTRY_WIRE * i, it, utf8);
  }

  predicate AllAcceptable(es: seq<SchemaDef>) {
    forall i {:trigger Acceptable(es[i])} :: 0 <= i < |es| ==> Acceptable(es[i])
  }

  predicate PlainEntries(es: seq<SchemaDef>) {
    forall i {:trigger PlainEntry(es[i])} :: 0 <= i < |es| ==> PlainEntry(es[i])
  }

  predicate PlainEnums(items: seq<EnumItem>) {
    forall i {:trigger PlainEnum(items[i])} :: 0 <= i < |items| ==> PlainEnum(items[i])
  }

  predicate PlainBitfields(items: seq<BitItem>) {
    forall i {:trigger PlainBitfield(items[i])} :: 0 <= i < |items| ==> PlainBitfield(items[i])
  }

  lemma EntriesCollected(buf: seq<Byte>, at: nat, section: seq<Byte>, es: seq<SchemaDef>, utf8: Validator)
    requires at + |section| <= |buf| && buf[at..at + |section|] == section && EntriesTiled(section, es)
    requires PlainEntries(es) && AcceptsAscii(utf8) && AllAcceptable(es)
    ensures Collect(EntryStep(buf, at, utf8), |es|) == Ok(Map(EntryView, es))
  {
    var step, xs := EntryStep(buf, at, utf8), Map(EntryView, es);
    forall i | 0 <= i < |es| ensures step(i) == Ok(xs[i]) {
      assert Acceptable(es[i]) && EntryLies(section, i, es[i]) && PlainEntry(es[i]);
      EntryStepReads(buf, at, section, es[i], i, utf8);
    }
    CollectWhole(step, xs);
  }

  lemma EntriesRefused(buf: seq<Byte>, at: nat, section: seq<Byte>, es: seq<SchemaDef>, k: nat, utf8: Validator)
    requires at + |section| <= |buf| && buf[at..at + |section|] == section && EntriesTiled(section, es)
    requires k < |es| && PlainEntry(es[k]) && AcceptsAscii(utf8) && !Acceptable(es[k])
    ensures Collect(EntryStep(buf, at, utf8), |es|).Err?
  {
    assert EntryLies(section, k, es[k]);
    EntryStepReads(buf, at, section, es[k], k, utf8);
    CollectFails(EntryStep(buf, at, utf8), k, |es|);
  }

  lemma EntriesReadBack(buf: seq<Byte>, at: nat, end: nat, section: seq<Byte>, es: seq<SchemaDef>, utf8: Validator)
    requires end == at + |section| <= |buf| && buf[at..end] == section && EntriesTiled(section, es)
    requires PlainEntries(es) && AcceptsAscii(utf8)
    ensures AllAcceptable(es) ==> Collect(EntryStep(buf, at, utf8), |es|) == Ok(Map(EntryView, es))
    ensures !AllAcceptable(es) ==> Collect(EntryStep(buf, at, utf8), |es|).Err?
  {
    if AllAcceptable(es) {
      EntriesCollected(buf, at, section, es, utf8);
    } else {
      var k :| 0 <= k < |es| && !Acceptable(es[k]);
      EntriesRefused(buf, at, section, es, k, utf8);
    }
  }

  lemma EnumStepReads(buf: seq<Byte>, at: nat, section: seq<Byte>, it: EnumItem, i: nat, utf8: Validator)
    requires at + |section| <= |buf| && buf[at..at + |section|] == section && EnumLies(section, i, it)
    requires PlainEnum(it) && AcceptsAscii(utf8)
    ensures EnumStep(buf, at, utf8)(i) == Ok(EnumView(it))
  {
    Nested(buf, at, |section|, section, ENUM_WIRE * i, ENUM_WIRE, EnumWire(it));
    EnumReadsBack(buf, at + ENUM_WIRE * i, it, utf8);
  }

  lemma EnumsCollected(buf: seq<Byte>, at: nat, section: seq<Byte>, items: seq<EnumItem>, utf8: Validator)
    requires at + |section| <= |buf| && buf[at..at + |section|] == section && EnumsTiled(section, items)
    requires PlainEnums(items) && AcceptsAscii(utf8)
    ensures Collect(EnumStep(buf, at, utf8), |items|) == Ok(Map(EnumView, items))
  {
    var step, xs := EnumStep(buf, at, utf8), Map(EnumView, items);
    forall i | 0 <= i < |items| ensures step(i) == Ok(xs[i]) {
      assert EnumLies(section, i, items[i]) && PlainEnum(items[i]);
      EnumStepReads(buf, at, section, items[i], i, utf8);
    }
    CollectWhole(step, xs);
  }

  lemma EnumsReadBack(buf: seq<Byte>, pos: nat, end: nat, section: seq<Byte>, items: seq<EnumItem>, utf8: Validator)
    requires end == pos + 2 + |section| <= |buf| && buf[pos + 2..end] == section && EnumsTiled(section, items)
    requires buf[pos..pos + 2] == LE(|items|, 2) && |items| < U16
    requires PlainEnums(items) && AcceptsAscii(utf8)
    ensures EnumSection(buf, pos, utf8) == Ok(Map(EnumView, items)) && AfterEnums(buf, pos) == end
  {
    PowValues();
    ReadLE(buf, pos, |items|, 2);
    EnumsCollected(buf, pos + 2, section, items, utf8);
  }

  lemma BitfieldAtSlot(buf: seq<Byte>, at: nat, section: seq<Byte>, slot: nat, it: BitItem, utf8: Validator)
    requires at + |section| <= |buf| && buf[at..at + |section|] == section && slot + BITFIELD_WIRE <= |section|
    requires section[slot..slot + BITFIELD_WIRE] == BitWire(it) && PlainBitfield(it) && AcceptsAscii(utf8)
    ensures BitfieldAt(buf, at + slot, utf8) == Ok(BitfieldView(it))
  {
    Nested(buf, at, |section|, section, slot, BITFIELD_WIRE, BitWire(it));
    BitfieldReadsBack(buf, at + slot, it, utf8);
  }

  lemma BitfieldStepReads(buf: seq<Byte>, at: nat, section: seq<Byte>, it: BitItem, i: nat, utf8: Validator)
    requires at + |section| <= |buf| && buf[at..at + |section|] == section && BitfieldLiesAt(section, i, it)
    requires PlainBitfield(it) && AcceptsAscii(utf8)
    ensures BitfieldStep(buf, at, utf8)(i) == Ok(BitfieldView(it))
  {
    BitfieldAtSlot(buf, at, section, BITFIELD_WIRE * i, it, utf8);
  }

  lemma BitfieldsCollected(buf: seq<Byte>, at: nat, section: seq<Byte>, items: seq<BitItem>, utf8: Validator)
    requires at + |section| <= |buf| && buf[at..at + |section|] == section && BitfieldsTiled(section, items)
    requires PlainBitfields(items) && AcceptsAscii(utf8)
    ensures Collect(BitfieldStep(buf, at, utf8), |items|) == Ok(Map(BitfieldView, items))
  {
    var step, xs := BitfieldStep(buf, at, utf8), Map(BitfieldView, items);
    forall i | 0 <= i < |items| ensures step(i) == Ok(xs[i]) {
      assert BitfieldLiesAt(section, i, items[i]) && PlainBitfield(items[i]);
      BitfieldStepReads(buf, at, section, items[i], i, utf8);
    }
    CollectWhole(step, xs);
  }

  lemma BitfieldsReadBack(buf: seq<Byte>, pos: nat, end: nat, section: seq<Byte>, items: seq<BitItem>, utf8: Validator)
    requires end == pos + 2 + |section| <= |buf| && buf[pos + 2..end] == section && BitfieldsTiled(section, items)
    requires buf[pos..pos + 2] == LE(|items|, 2) && |items| < U16
    requires PlainBitfields(items) && AcceptsAscii(utf8)
    ensures BitfieldSection(buf, pos, utf8) == Ok(Map(BitfieldView, items))
  {
    PowValues();
    ReadLE(buf, pos, |items|, 2);
    BitfieldsCollected(buf, pos + 2, section, items, utf8);
  }

  // ------------------------------------------------------------------------------------ the whole

  /** Strings are ASCII and integers have their C widths, everywhere in an entry. */
  predicate PlainDef(e: SchemaDef) {
    && PlainEntry(e)
    && (forall i :: 0 <= i < |e.fields| ==> e.fields[i].labels.Some? ==> PlainLabels(e.fields[i].labels.value))
    && (forall i :: 0 <= i < |e.fields| ==> e.fields[i].bits.Some? ==> PlainBits(e.fields[i].bits.value))
  }

  predicate PlainRegistry(slots: Slots) {
    forall i :: 0 <= i < |slots| ==> slots[i].Some? ==> PlainDef(slots[i].value)
  }

  lemma {:induction false} EntriesPlain(slots: Slots)
    requires PlainRegistry(slots)
    ensures |Entries(slots)| <= |slots| && PlainEntries(Entries(slots))
  {
    if |slots| > 0 { EntriesPlain(slots[..|slots| - 1]); }
  }

  lemma {:induction false} EnumsOfPlain(e: SchemaDef, n: nat)
    requires n <= |e.fields| && PlainDef(e)
    ensures |EnumsOf(e, n)| <= n && PlainEnums(EnumsOf(e, n))
  {
    if n > 0 { EnumsOfPlain(e, n - 1); }
  }

  lemma {:induction false} EnumsPlain(slots: Slots)
    requires PlainRegistry(slots)
    ensures |Enums(slots)| <= MAX_FIELDS * |slots| && PlainEnums(Enums(slots))
  {
    if |slots| > 0 {
      var last := slots[|slots| - 1];
      EnumsPlain(slots[..|slots| - 1]);
      if last.Some? { EnumsOfPlain(last.value, FieldsKept(last.value)); }
    }
  }

  lemma {:induction false} BitsOfPlain(e: SchemaDef, n: nat)
    requires n <= |e.fields| && PlainDef(e)
    ensures |BitsOf(e, n)| <= n && PlainBitfields(BitsOf(e, n))
  {
    if n > 0 { BitsOfPlain(e, n - 1); }
  }

  lemma {:induction false} BitfieldsPlain(slots: Slots)
    requires PlainRegistry(slots)
    ensures |Bitfields(slots)| <= MAX_FIELDS * |slots| && PlainBitfields(Bitfields(slots))
  {
    if |slots| > 0 {
      var last := slots[|slots| - 1];
      BitfieldsPlain(slots[..|slots| - 1]);
      if last.Some? { BitsOfPlain(last.value, FieldsKept(last.value)); }
    }
  }

  lemma SixSlices<T>(a: seq<T>, b: seq<T>, c: seq<T>, d: seq<T>, e: seq<T>, f: seq<T>)
    ensures var s := a + b + c + d + e + f;
      var p, q := |a| + |b|, |a| + |b| + |c| + |d|;
      && |s| == q + |e| + |f|
      && s[0..|a|] == a && s[|a|..|a| + |b|] == b && s[p..p + |c|] == c && s[p + |c|..p + |c| + |d|] == d
      && s[q..q + |e|] == e && s[q + |e|..q + |e| + |f|] == f
  {
  }

  /** The sections of a serialised registry, each where the decoder looks for it. */
  ghost predicate SectionsLie(buf: seq<Byte>, p: nat, q: nat, head: seq<Byte>, entries: seq<Byte>,
                              enumCount: seq<Byte>, enums: seq<Byte>,
                              bitCount: seq<Byte>, bits: seq<Byte>) {
    && p == SCHEMA_HEADER + |entries| && q == p + 2 + |enums| && |buf| == q + 2 + |bits|
    && buf[0..SCHEMA_HEADER] == head && buf[SCHEMA_HEADER..p] == entries
    && buf[p..p + 2] == enumCount && buf[p + 2..q] == enums
    && buf[q..q + 2] == bitCount && buf[q + 2..|buf|] == bits
  }

  lemma SixLie(a: seq<Byte>, b: seq<Byte>, c: seq<Byte>, d: seq<Byte>, e: seq<Byte>, f: seq<Byte>)
    requires |a| == SCHEMA_HEADER && |c| == |e| == 2
    ensures SectionsLie(a + b + c + d + e + f, SCHEMA_HEADER + |b|, SCHEMA_HEADER + |b| + 2 + |d|, a, b, c, d, e, f)
  {
    SixSlices(a, b, c, d, e, f);
  }

  lemma HeaderReads(buf: seq<Byte>, endianness: Byte, count: nat)
    requires |buf| >= SCHEMA_HEADER && buf[0..SCHEMA_HEADER] == SchemaHeader(endianness, count) && count < U16
    ensures ReadU8(buf, 0) == Ok(endianness) && ReadU16(buf, 1) == Ok(count)
  {
    PowValues();
    assert buf[0] == buf[0..SCHEMA_HEADER][0];
    Nested(buf, 0, SCHEMA_HEADER, SchemaHeader(endianness, count), 1, 2, LE(count, 2));
    ReadLE(buf, 1, count, 2);
  }

  /** What decoding must yield: the views of everything, or a refusal. */
  ghost predicate Recovered(r: Result<Schema>, endianness: Byte, es: seq<SchemaDef>, enums: seq<EnumItem>,
                            bits: seq<BitItem>) {
    if endianness == 0 && AllAcceptable(es) then
      r == Ok(Schema(Map(EntryView, es), Map(EnumView, enums), Map(BitfieldView, bits)))
    else r.Err?
  }

  lemma DecodeFromParts(buf: seq<Byte>, p: nat, q: nat, endianness: Byte, count: nat, xs: Result<seq<EntryInfo>>,
                        ys: seq<EnumInfo>, zs: seq<BitfieldInfo>, utf8: Validator)
    requires ReadU8(buf, 0) == Ok(endianness) && ReadU16(buf, 1) == Ok(count) && count <= MAX_SCHEMA_ENTRIES
    requires p == SCHEMA_HEADER + ENTRY_WIRE * count && q == AfterEnums(buf, p)
    requires Collect(EntryStep(buf, SCHEMA_HEADER, utf8), count) == xs
    requires EnumSection(buf, p, utf8) == Ok(ys) && BitfieldSection(buf, q, utf8) == Ok(zs)
    ensures Decode(buf, utf8) ==
      if endianness != 0 then Err(BadEndian(endianness)) else if xs.Err? then Err(xs.error)
        else Ok(Schema(xs.value, ys, zs))
  {
  }

  datatype Sections = Sections(entries: seq<Byte>, enums: seq<Byte>, bits: seq<Byte>)

  /** The bytes are those of these entries, enums and bitfields, section by section. */
  ghost predicate Tiles(buf: seq<Byte>, endianness: Byte, es: seq<SchemaDef>, enums: seq<EnumItem>, bits: seq<BitItem>,
                        s: Sections) {
    var p := SCHEMA_HEADER + |s.entries|;
    && SectionsLie(buf, p, p + 2 + |s.enums|, SchemaHeader(endianness, |es|), s.entries, LE(|enums|, 2), s.enums,
      LE(|bits|, 2), s.bits)
    && EntriesTiled(s.entries, es) && EnumsTiled(s.enums, enums) && BitfieldsTiled(s.bits, bits)
  }

  lemma SectionsReadBack(buf: seq<Byte>, endianness: Byte, es: seq<SchemaDef>, enums: seq<EnumItem>,
                         bits: seq<BitItem>, s: Sections, utf8: Validator)
    requires Tiles(buf, endianness, es, enums, bits, s)
    requires |es| <= MAX_SCHEMA_ENTRIES && |enums| < U16 && |bits| < U16 && AcceptsAscii(utf8)
    requires PlainEntries(es) && PlainEnums(enums) && PlainBitfields(bits)
    ensures Recovered(Decode(buf, utf8), endianness, es, enums, bits)
  {
    var p := SCHEMA_HEADER + |s.entries|;
    var q := p + 2 + |s.enums|;
    HeaderReads(buf, endianness, |es|);
    EntriesReadBack(buf, SCHEMA_HEADER, p, s.entries, es, utf8);
    EnumsReadBack(buf, p, q, s.enums, enums, utf8);
    BitfieldsReadBack(buf, q, |buf|, s.bits, bits, utf8);
    var xs := Collect(EntryStep(buf, SCHEMA_HEADER, utf8), |es|);
    DecodeFromParts(buf, p, q, endianness, |es|, xs, Map(EnumView, enums), Map(BitfieldView, bits), utf8);
  }

  lemma TilesWhenJoined(buf: seq<Byte>, endianness: Byte, es: seq<SchemaDef>, enums: seq<EnumItem>, bits: seq<BitItem>,
                        s: Sections)
    requires buf == SchemaHeader(endianness, |es|) + s.entries + LE(|enums|, 2) + s.enums + LE(|bits|, 2) + s.bits
    requires EntriesTiled(s.entries, es) && EnumsTiled(s.enums, enums) && BitfieldsTiled(s.bits, bits)
    ensures Tiles(buf, endianness, es, enums, bits, s)
  {
    SixLie(SchemaHeader(endianness, |es|), s.entries, LE(|enums|, 2), s.enums, LE(|bits|, 2), s.bits);
  }

  lemma SectionsTile(es: seq<SchemaDef>, enums: seq<EnumItem>, bits: seq<BitItem>, s: Sections)
    requires s == Sections(Flatten(Map(EntryWire, es)), Flatten(Map(EnumWire, enums)), Flatten(Map(BitWire, bits)))
    ensures EntriesTiled(s.entries, es) && EnumsTiled(s.enums, enums) && BitfieldsTiled(s.bits, bits)
  {
    EntriesTile(es);
    EnumsTile(enums);
    BitfieldsTile(bits);
  }

  lemma SchemaTiles(endianness: Byte, slots: Slots) returns (s: Sections)
    ensures Tiles(SchemaBytes(endianness, slots), endianness, Entries(slots), Enums(slots), Bitfields(slots), s)
  {
    var es, enums, bits := Entries(slots), Enums(slots), Bitfields(slots);
    s := Sections(Flatten(Map(EntryWire, es)), Flatten(Map(EnumWire, enums)), Flatten(Map(BitWire, bits)));
    SchemaSections(endianness, slots);
    SectionsTile(es, enums, bits, s);
    TilesWhenJoined(SchemaBytes(endianness, slots), endianness, es, enums, bits, s);
  }

  lemma ItemsPlain(slots: Slots)
    requires |slots| <= MAX_SCHEMA_ENTRIES && PlainRegistry(slots)
    ensures |Entries(slots)| <= MAX_SCHEMA_ENTRIES && |Enums(slots)| < U16 && |Bitfields(slots)| < U16
    ensures PlainEntries(Entries(slots)) && PlainEnums(Enums(slots)) && PlainBitfields(Bitfields(slots))
  {
    EntriesPlain(slots);
    EnumsPlain(slots);
    BitfieldsPlain(slots);
  }

  /** Decoding a serialised ASCII registry succeeds exactly when it is little-endian and every entry has at
      most 16 fields of known types; it then recovers every entry, label and bit up to the truncations. */
  lemma SchemaRoundTrip(endianness: Byte, slots: Slots, utf8: Validator)
    requires |slots| <= MAX_SCHEMA_ENTRIES && PlainRegistry(slots) && AcceptsAscii(utf8)
    ensures Recovered(Decode(SchemaBytes(endianness, slots), utf8), endianness, Entries(slots), Enums(slots),
      Bitfields(slots))
  {
    ItemsPlain(slots);
    var buf := SchemaBytes(endianness, slots);
    var s := SchemaTiles(endianness, slots);
    SectionsReadBack(buf, endianness, Entries(slots), Enums(slots), Bitfields(slots), s, utf8);
  }
}
