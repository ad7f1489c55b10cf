/** The two writers of the schema wire form: one fills a caller buffer, one hands out pieces to a callback. */
module SchemaWriter {
  import opened Bytes
  import opened Wire
  import opened SchemaWire
  import opened ZeroedBuffer

  // -------------------------------------------------------------------------- wire structs, in place

  lemma Join4<T>(z: seq<T>, a: seq<T>, b: seq<T>, c: seq<T>, d: seq<T>)
    ensures z + a + b + c + d == z + (a + b + c + d)
  {
  }

  lemma Join5<T>(z: seq<T>, a: seq<T>, b: seq<T>, c: seq<T>, d: seq<T>, e: seq<T>)
    ensures z + a + b + c + d + e == z + (a + b + c + d + e)
  {
  }

  method StoreField(buf: array<Byte>, pos: nat, f: FieldDef, ghost done: seq<Byte>, ghost end: nat) returns (next: nat)
    requires Region(buf[..], 0, done, end) && pos == |done| && pos + FIELD_WIRE <= end
    modifies buf
    ensures Region(buf[..], 0, done + FieldWire(f), end) && next == pos + FIELD_WIRE
    ensures buf[end..] == old(buf[end..])
  {
    ghost var a, b, c, d := Padded(f.name, NAME_MAX), LE(f.offset, 2), LE(f.size, 2), [f.kind, f.count];
    next := StoreString(buf, pos, f.name, NAME_MAX, done, end);
    next := Store(buf, next, LE(f.offset, 2), done + a, end);
    next := Store(buf, next, LE(f.size, 2), done + a + b, end);
    next := Store(buf, next, [f.kind, f.count], done + a + b + c, end);
    Join4(done, a, b, c, d);
  }

  method StoreEntryHead(buf: array<Byte>, pos: nat, e: SchemaDef, ghost done: seq<Byte>, ghost end: nat)
    returns (next: nat)
    requires Region(buf[..], 0, done, end) && pos == |done| && pos + ENTRY_HEAD <= end
    modifies buf
    ensures Region(buf[..], 0, done + EntryHead(e), end) && next == pos + ENTRY_HEAD
    ensures buf[end..] == old(buf[end..])
  {
    ghost var a, b, c, d := LE(e.id, 2), LE(e.payloadSize, 2), LE(|e.fields|, 2), Padded(e.name, NAME_MAX);
    next := Store(buf, pos, LE(e.id, 2), done, end);
    next := Store(buf, next, LE(e.payloadSize, 2), done + a, end);
    next := Store(buf, next, LE(|e.fields|, 2), done + a + b, end);
    next := StoreString(buf, next, e.name, NAME_MAX, done + a + b + c, end);
    ghost var head := done + a + b + c + d;
    if e.description.Some? {
      next := StoreString(buf, next, e.description.value, DESC_MAX, head, end);
    } else {
      RegionSkips(buf[..], 0, head, end, DESC_MAX);
      assert Padded([], DESC_MAX) == Zeros(DESC_MAX);
      next := next + DESC_MAX;
    }
    Join5(done, a, b, c, d, Padded(OrEmpty(e.description), DESC_MAX));
  }

  method StoreFields(buf: array<Byte>, pos: nat, fs: seq<FieldDef>, ghost done: seq<Byte>, ghost end: nat)
    returns (next: nat)
    requires Region(buf[..], 0, done, end) && pos == |done| && pos + FIELD_WIRE * |fs| <= end
    modifies buf
    ensures Region(buf[..], 0, done + FieldsWire(fs), end) && next == pos + FIELD_WIRE * |fs|
    ensures buf[end..] == old(buf[end..])
  {
    next := pos;
    var f := 0;
    ghost var so := done;
    while f < |fs|
      invariant 0 <= f <= |fs| && next == pos + FIELD_WIRE * f == |so|
      invariant so == done + FieldsWire(fs[..f]) && Region(buf[..], 0, so, end)
      invariant buf[end..] == old(buf[end..])
    {
      next := StoreField(buf, next, fs[f], so, end);
      assert fs[..f + 1][..f] == fs[..f];
      so := so + FieldWire(fs[f]);
      f := f + 1;
    }
    assert fs[..|fs|] == fs;
  }

  /** `serialize_one_entry`, and the same assignments inside `btelem_schema_serialize`. */
  method StoreEntry(buf: array<Byte>, pos: nat, e: SchemaDef, ghost done: seq<Byte>, ghost end: nat) returns (next: nat)
    requires Region(buf[..], 0, done, end) && pos == |done| && pos + ENTRY_WIRE <= end
    modifies buf
    ensures Region(buf[..], 0, done + EntryWire(e), end) && next == pos + ENTRY_WIRE
    ensures buf[end..] == old(buf[end..])
  {
    var fc := Min(|e.fields|, MAX_FIELDS);
    ghost var a, b, c := EntryHead(e), FieldsWire(e.fields[..fc]), Zeros(FIELD_WIRE * (MAX_FIELDS - fc));
    next := StoreEntryHead(buf, pos, e, done, end);
    next := StoreFields(buf, next, e.fields[..fc], done + a, end);
    RegionSkips(buf[..], 0, done + a + b, end, FIELD_WIRE * (MAX_FIELDS - fc));
    assert done + a + b + c == done + (a + b + c);
    next := pos + ENTRY_WIRE;
  }

  method StoreItemHead(buf: array<Byte>, pos: nat, id: nat, index: nat, count: Byte, ghost done: seq<Byte>,
                       ghost end: nat)
    returns (next: nat)
    requires Region(buf[..], 0, done, end) && pos == |done| && pos + 5 <= end
    modifies buf
    ensures Region(buf[..], 0, done + ItemHead(id, index, count), end) && next == pos + 5
    ensures buf[end..] == old(buf[end..])
  {
    ghost var a, b, c := LE(id, 2), LE(index, 2), [count];
    next := Store(buf, pos, LE(id, 2), done, end);
    next := Store(buf, next, LE(index, 2), done + a, end);
    next := Store(buf, next, [count], done + a + b, end);
    assert done + a + b + c == done + (a + b + c);
  }

  /** One label; a missing one stays empty. */
  method StoreLabel(buf: array<Byte>, pos: nat, l: Option<Text>, ghost done: seq<Byte>, ghost end: nat)
    returns (next: nat)
    requires Region(buf[..], 0, done, end) && pos == |done| && pos + LABEL_MAX <= end
    modifies buf
    ensures Region(buf[..], 0, done + Padded(OrEmpty(l), LABEL_MAX), end) && next == pos + LABEL_MAX
    ensures buf[end..] == old(buf[end..])
  {
    if l.Some? {
      next := StoreString(buf, pos, l.value, LABEL_MAX, done, end);
    } else {
      RegionSkips(buf[..], 0, done, end, LABEL_MAX);
      assert Padded([], LABEL_MAX) == Zeros(LABEL_MAX);
      next := pos + LABEL_MAX;
    }
  }

  method StoreLabels(buf: array<Byte>, pos: nat, ls: seq<Option<Text>>, ghost done: seq<Byte>, ghost end: nat)
    returns (next: nat)
    requires Region(buf[..], 0, done, end) && pos == |done| && pos + LABEL_MAX * |ls| <= end
    modifies buf
    ensures Region(buf[..], 0, done + LabelsWire(ls), end) && next == pos + LABEL_MAX * |ls|
    ensures buf[end..] == old(buf[end..])
  {
    next := pos;
    var i := 0;
    ghost var so := done;
    while i < |ls|
      invariant 0 <= i <= |ls| && next == pos + LABEL_MAX * i == |so|
      invariant so == done + LabelsWire(ls[..i]) && Region(buf[..], 0, so, end)
      invariant buf[end..] == old(buf[end..])
    {
      next := StoreLabel(buf, next, ls[i], so, end);
      assert ls[..i + 1][..i] == ls[..i];
      so := so + Padded(OrEmpty(ls[i]), LABEL_MAX);
      i := i + 1;
    }
    assert ls[..|ls|] == ls;
  }

  /** `serialize_one_enum`: missing labels stay empty. */
  method StoreEnum(buf: array<Byte>, pos: nat, it: EnumItem, ghost done: seq<Byte>, ghost end: nat) returns (next: nat)
    requires Region(buf[..], 0, done, end) && pos == |done| && pos + ENUM_WIRE <= end
    modifies buf
    ensures Region(buf[..], 0, done + EnumWire(it), end) && next == pos + ENUM_WIRE
    ensures buf[end..] == old(buf[end..])
  {
    var lc := Min(|it.labels|, MAX_LABELS);
    ghost var a, b, c := ItemHead(it.id, it.index, lc), LabelsWire(it.labels[..lc]),
      Zeros(LABEL_MAX * (MAX_LABELS - lc));
    next := StoreItemHead(buf, pos, it.id, it.index, lc, done, end);
    next := StoreLabels(buf, next, it.labels[..lc], done + a, end);
    RegionSkips(buf[..], 0, done + a + b, end, LABEL_MAX * (MAX_LABELS - lc));
    assert done + a + b + c == done + (a + b + c);
    next := pos + ENUM_WIRE;
  }

  // Bit names, starts and widths are three parallel arrays, filled side by side.

  const NAMES: nat := BIT_NAME_MAX * MAX_BITS

  ghost predicate BitArrays(s: seq<Byte>, done: seq<Byte>, names: seq<Byte>, starts: seq<Byte>, widths: seq<Byte>,
                            end: nat) {
    var p := |done|;
    && Region(s, 0, done, p)
    && Region(s, p, names, p + NAMES)
    && Region(s, p + NAMES, starts, p + NAMES + MAX_BITS)
    && Region(s, p + NAMES + MAX_BITS, widths, p + NAMES + 2 * MAX_BITS)
    && Region(s, p + NAMES + 2 * MAX_BITS, [], end)
  }

  lemma BitArraysStart(s: seq<Byte>, done: seq<Byte>, end: nat)
    requires Region(s, 0, done, end) && |done| + NAMES + 2 * MAX_BITS <= end
    ensures BitArrays(s, done, [], [], [], end)
  {
  }

  lemma NameWritten(s: seq<Byte>, done: seq<Byte>, names: seq<Byte>, starts: seq<Byte>, widths: seq<Byte>, end: nat,
                    b: seq<Byte>)
    requires BitArrays(s, done, names, starts, widths, end) && |names| + |b| <= NAMES
    ensures BitArrays(Overlay(s, |done| + |names|, b), done, names + b, starts, widths, end)
  {
    var p, off := |done|, |done| + |names|;
    RegionGrows(s, p, names, p + NAMES, b);
    RegionFrame(s, 0, done, p, off, b);
    RegionFrame(s, p + NAMES, starts, p + NAMES + MAX_BITS, off, b);
    RegionFrame(s, p + NAMES + MAX_BITS, widths, p + NAMES + 2 * MAX_BITS, off, b);
    RegionFrame(s, p + NAMES + 2 * MAX_BITS, [], end, off, b);
  }

  lemma StartWritten(s: seq<Byte>, done: seq<Byte>, names: seq<Byte>, starts: seq<Byte>, widths: seq<Byte>, end: nat,
                     b: Byte)
    requires BitArrays(s, done, names, starts, widths, end) && |starts| < MAX_BITS
    ensures BitArrays(Overlay(s, |done| + NAMES + |starts|, [b]), done, names, starts + [b], widths, end)
  {
    var p, off := |done|, |done| + NAMES + |starts|;
    RegionGrows(s, p + NAMES, starts, p + NAMES + MAX_BITS, [b]);
    RegionFrame(s, 0, done, p, off, [b]);
    RegionFrame(s, p, names, p + NAMES, off, [b]);
    RegionFrame(s, p + NAMES + MAX_BITS, widths, p + NAMES + 2 * MAX_BITS, off, [b]);
    RegionFrame(s, p + NAMES + 2 * MAX_BITS, [], end, off, [b]);
  }

  lemma WidthWritten(s: seq<Byte>, done: seq<Byte>, names: seq<Byte>, starts: seq<Byte>, widths: seq<Byte>, end: nat,
                     b: Byte)
    requires BitArrays(s, done, names, starts, widths, end) && |widths| < MAX_BITS
    ensures BitArrays(Overlay(s, |done| + NAMES + MAX_BITS + |widths|, [b]), done, names, starts, widths + [b], end)
  {
    var p, off := |done|, |done| + NAMES + MAX_BITS + |widths|;
    RegionGrows(s, p + NAMES + MAX_BITS, widths, p + NAMES + 2 * MAX_BITS, [b]);
    RegionFrame(s, 0, done, p, off, [b]);
    RegionFrame(s, p, names, p + NAMES, off, [b]);
    RegionFrame(s, p + NAMES, starts, p + NAMES + MAX_BITS, off, [b]);
    RegionFrame(s, p + NAMES + 2 * MAX_BITS, [], end, off, [b]);
  }

  lemma NameSkips(s: seq<Byte>, done: seq<Byte>, names: seq<Byte>, starts: seq<Byte>, widths: seq<Byte>, end: nat,
                  n: nat)
    requires BitArrays(s, done, names, starts, widths, end) && |names| + n <= NAMES
    ensures BitArrays(s, done, names + Zeros(n), starts, widths, end)
  {
    RegionSkips(s, |done|, names, |done| + NAMES, n);
  }

  /** Filled up with zeros, the three arrays are one stretch of the buffer. */
  lemma BitArraysJoin(s: seq<Byte>, done: seq<Byte>, names: seq<Byte>, starts: seq<Byte>, widths: seq<Byte>, end: nat)
    requires BitArrays(s, done, names, starts, widths, end)
    ensures Region(s, 0, done + (names + Zeros(NAMES - |names|)) + (starts + Zeros(MAX_BITS - |starts|)) +
      (widths + Zeros(MAX_BITS - |widths|)), end)
  {
    var p := |done|;
    var a, b, c := names + Zeros(NAMES - |names|), starts + Zeros(MAX_BITS - |starts|),
      widths + Zeros(MAX_BITS - |widths|);
    RegionSkips(s, p, names, p + NAMES, NAMES - |names|);
    RegionSkips(s, p + NAMES, starts, p + NAMES + MAX_BITS, MAX_BITS - |starts|);
    RegionSkips(s, p + NAMES + MAX_BITS, widths, p + NAMES + 2 * MAX_BITS, MAX_BITS - |widths|);
    RegionsJoin(s, 0, done, p, a, p + NAMES);
    RegionsJoin(s, 0, done + a, p + NAMES, b, p + NAMES + MAX_BITS);
    RegionsJoin(s, 0, done + a + b, p + NAMES + MAX_BITS, c, p + NAMES + 2 * MAX_BITS);
    RegionsJoin(s, 0, done + a + b + c, p + NAMES + 2 * MAX_BITS, [], end);
    assert done + a + b + c + [] == done + a + b + c;
  }

  method StoreBit(buf: array<Byte>, p: nat, i: nat, b: BitDef, ghost done: seq<Byte>, ghost names: seq<Byte>,
                  ghost starts: seq<Byte>,
                  ghost widths: seq<Byte>, ghost end: nat)
    requires BitArrays(buf[..], done, names, starts, widths, end) && p == |done| && i < MAX_BITS
    requires |names| == BIT_NAME_MAX * i && |starts| == |widths| == i
    modifies buf
    ensures BitArrays(buf[..], done, names + Padded(OrEmpty(b.name), BIT_NAME_MAX), starts + [b.start],
      widths + [b.width], end)
    ensures buf[end..] == old(buf[end..])
  {
    StoreBitName(buf, p + BIT_NAME_MAX * i, b.name, done, names, starts, widths, end);
    StoreStartWidth(buf, p, i, b, done, names + Padded(OrEmpty(b.name), BIT_NAME_MAX), starts, widths, end);
  }

  method StoreBitName(buf: array<Byte>, at: nat, name: Option<Text>, ghost done: seq<Byte>, ghost names: seq<Byte>,
                      ghost starts: seq<Byte>,
                      ghost widths: seq<Byte>, ghost end: nat)
    requires BitArrays(buf[..], done, names, starts, widths, end) && at == |done| + |names|
    requires |names| + BIT_NAME_MAX <= NAMES
    modifies buf
    ensures BitArrays(buf[..], done, names + Padded(OrEmpty(name), BIT_NAME_MAX), starts, widths, end)
    ensures buf[end..] == old(buf[end..])
  {
    ghost var was := buf[..];
    var copied: seq<Byte> := [];
    if name.Some? {
      var kept := Min(|name.value|, BIT_NAME_MAX - 1);
      copied := name.value[..kept] + Zeros(BIT_NAME_MAX - 1 - kept);
      Put(buf, at, copied);
    }
    NameStored(was, buf[..], done, names, starts, widths, end, name, copied);
  }

  lemma NameStored(was: seq<Byte>, now: seq<Byte>, done: seq<Byte>, names: seq<Byte>, starts: seq<Byte>,
                   widths: seq<Byte>, end: nat,
                   name: Option<Text>, copied: seq<Byte>)
    requires BitArrays(was, done, names, starts, widths, end) && |names| + BIT_NAME_MAX <= NAMES
    requires name.None? ==> now == was
    requires name.Some? ==>
      && copied + Zeros(1) == Padded(name.value, BIT_NAME_MAX)
      && now == Overlay(was, |done| + |names|, copied)
    ensures BitArrays(now, done, names + Padded(OrEmpty(name), BIT_NAME_MAX), starts, widths, end)
    ensures |now| == |was| && now[end..] == was[end..]
  {
    if name.Some? {
      NameCopied(was, done, names, starts, widths, end, name.value, copied);
    } else {
      NameSkips(was, done, names, starts, widths, end, BIT_NAME_MAX);
      assert Padded([], BIT_NAME_MAX) == Zeros(BIT_NAME_MAX);
    }
  }

  lemma NameCopied(s: seq<Byte>, done: seq<Byte>, names: seq<Byte>, starts: seq<Byte>, widths: seq<Byte>, end: nat,
                   t: Text, copied: seq<Byte>)
    requires BitArrays(s, done, names, starts, widths, end) && |names| + BIT_NAME_MAX <= NAMES
    requires copied + Zeros(1) == Padded(t, BIT_NAME_MAX)
    ensures BitArrays(Overlay(s, |done| + |names|, copied), done, names + Padded(t, BIT_NAME_MAX), starts, widths, end)
  {
    NameWritten(s, done, names, starts, widths, end, copied);
    NameSkips(Overlay(s, |done| + |names|, copied), done, names + copied, starts, widths, end, 1);
    assert names + copied + Zeros(1) == names + (copied + Zeros(1));
  }

  method StoreStartWidth(buf: array<Byte>, p: nat, i: nat, b: BitDef, ghost done: seq<Byte>, ghost names: seq<Byte>,
                         ghost starts: seq<Byte>, ghost widths: seq<Byte>, ghost end: nat)
    requires BitArrays(buf[..], done, names, starts, widths, end) && p == |done| && |starts| == |widths| == i < MAX_BITS
    modifies buf
    ensures BitArrays(buf[..], done, names, starts + [b.start], widths + [b.width], end)
    ensures buf[end..] == old(buf[end..])
  {
    StartWritten(buf[..], done, names, starts, widths, end, b.start);
    buf[p + NAMES + i] := b.start;
    assert buf[..] == Overlay(old(buf[..]), p + NAMES + i, [b.start]);
    ghost var mid := buf[..];
    WidthWritten(mid, done, names, starts + [b.start], widths, end, b.width);
    buf[p + NAMES + MAX_BITS + i] := b.width;
    assert buf[..] == Overlay(mid, p + NAMES + MAX_BITS + i, [b.width]);
  }

  lemma BitSnoc(bs: seq<BitDef>, i: nat)
    requires i < |bs|
    ensures BitNamesWire(bs[..i + 1]) == BitNamesWire(bs[..i]) + Padded(OrEmpty(bs[i].name), BIT_NAME_MAX)
    ensures Starts(bs[..i + 1]) == Starts(bs[..i]) + [bs[i].start]
    ensures WidthsOf(bs[..i + 1]) == WidthsOf(bs[..i]) + [bs[i].width]
  {
    assert bs[..i + 1][..i] == bs[..i];
  }

  method StoreBits(buf: array<Byte>, p: nat, bs: seq<BitDef>, ghost done: seq<Byte>, ghost end: nat)
    requires Region(buf[..], 0, done, end) && p == |done| && p + NAMES + 2 * MAX_BITS <= end && |bs| <= MAX_BITS
    modifies buf
    ensures BitArrays(buf[..], done, BitNamesWire(bs), Starts(bs), WidthsOf(bs), end)
    ensures buf[end..] == old(buf[end..])
  {
    BitArraysStart(buf[..], done, end);
    var i := 0;
    ghost var names: seq<Byte>, starts: seq<Byte>, widths: seq<Byte> := [], [], [];
    while i < |bs|
      invariant 0 <= i <= |bs| && names == BitNamesWire(bs[..i]) && starts == Starts(bs[..i])
      invariant widths == WidthsOf(bs[..i])
      invariant BitArrays(buf[..], done, names, starts, widths, end)
      invariant buf[end..] == old(buf[end..])
    {
      StoreBit(buf, p, i, bs[i], done, names, starts, widths, end);
      BitSnoc(bs, i);
      names, starts, widths := names + Padded(OrEmpty(bs[i].name), BIT_NAME_MAX), starts + [bs[i].start],
        widths + [bs[i].width];
      i := i + 1;
    }
    assert bs[..|bs|] == bs;
  }

  method StoreBitArrays(buf: array<Byte>, p: nat, bs: seq<BitDef>, ghost done: seq<Byte>, ghost end: nat)
    requires Region(buf[..], 0, done, end) && p == |done| && p + NAMES + 2 * MAX_BITS <= end && |bs| <= MAX_BITS
    modifies buf
    ensures Region(buf[..], 0, done + NamesArray(bs) + StartsArray(bs) + WidthsArray(bs), end)
    ensures buf[end..] == old(buf[end..])
  {
    StoreBits(buf, p, bs, done, end);
    ghost var names, starts, widths := BitNamesWire(bs), Starts(bs), WidthsOf(bs);
    ArraysFilled(bs, names, starts, widths);
    BitArraysJoin(buf[..], done, names, starts, widths, end);
  }

  lemma ArraysFilled(bs: seq<BitDef>, names: seq<Byte>, starts: seq<Byte>, widths: seq<Byte>)
    requires |bs| <= MAX_BITS && names == BitNamesWire(bs) && starts == Starts(bs) && widths == WidthsOf(bs)
    ensures |names| <= NAMES && names + Zeros(NAMES - |names|) == NamesArray(bs)
    ensures starts + Zeros(MAX_BITS - |starts|) == StartsArray(bs)
    ensures widths + Zeros(MAX_BITS - |widths|) == WidthsArray(bs)
  {
  }

  /** `serialize_one_bitfield`. */
  method StoreBitfield(buf: array<Byte>, pos: nat, it: BitItem, ghost done: seq<Byte>, ghost end: nat)
    returns (next: nat)
    requires Region(buf[..], 0, done, end) && pos == |done| && pos + BITFIELD_WIRE <= end
    modifies buf
    ensures Region(buf[..], 0, done + BitWire(it), end) && next == pos + BITFIELD_WIRE
    ensures buf[end..] == old(buf[end..])
  {
    var bc := Min(|it.bits|, MAX_BITS);
    var bs := it.bits[..bc];
    ghost var head, a, b, c := ItemHead(it.id, it.index, bc), NamesArray(bs), StartsArray(bs), WidthsArray(bs);
    next := StoreItemHead(buf, pos, it.id, it.index, bc, done, end);
    StoreBitArrays(buf, next, bs, done + head, end);
    Join4(done, head, a, b, c);
    next := pos + BITFIELD_WIRE;
  }
}
