/** What a schema that decodes says of its bytes, whoever wrote them: everything decoded lies inside them. */
module SchemaInside {
  import opened Bytes
  import opened Wire
  import opened SchemaWire
  import opened SchemaDecoder

  /** A string is read if and only if its array lies in the bytes and what precedes the first zero is valid UTF-8. */
  lemma TextExactly(buf: seq<Byte>, off: nat, max: nat, utf8: Validator, t: Text)
    ensures ReadText(buf, off, max, utf8) == Ok(t) <==>
      && off + max <= |buf| && |t| <= max && utf8(t)
      && buf[off..off + |t|] == t && (forall k :: 0 <= k < |t| ==> t[k] != 0) && (|t| < max ==> buf[off + |t|] == 0)
  {
    if off + max <= |buf| {
      var s := buf[off..off + max];
      var n := FirstZero(s);
      if |t| <= max {
        assert s[..|t|] == buf[off..off + |t|];
        if buf[off..off + |t|] == t && (forall k :: 0 <= k < |t| ==> t[k] != 0) && (|t| < max ==> buf[off + |t|] == 0) {
          ZeroAt(s, t);
        }
      }
      assert s[..n] == buf[off..off + n];
    }
  }

  lemma ZeroAt(s: seq<Byte>, t: Text)
    requires |t| <= |s| && s[..|t|] == t && (forall k :: 0 <= k < |t| ==> t[k] != 0) && (|t| < |s| ==> s[|t|] == 0)
    ensures FirstZero(s) == |t|
  {
    var n := FirstZero(s);
    if n < |t| { assert s[n] == t[n]; }
  }

  lemma {:induction false} Collected<T>(step: nat -> Result<T>, n: nat, i: nat)
    requires Collect(step, n).Ok? && i < n
    ensures |Collect(step, n).value| == n && step(i) == Ok(Collect(step, n).value[i])
  {
    if n > 1 { Collected(step, n - 1, if i < n - 1 then i else 0); }
  }

  lemma {:induction false} CollectedCount<T>(step: nat -> Result<T>, n: nat)
    requires Collect(step, n).Ok?
    ensures |Collect(step, n).value| == n
  {
    if n > 0 { CollectedCount(step, n - 1); }
  }

  /** A decoded field: its 70 bytes lie inside, its type code is known, its integers are little-endian. */
  ghost predicate FieldInside(f: FieldInfo, buf: seq<Byte>, off: nat, utf8: Validator) {
    && off + 70 <= |buf| && utf8(f.name) && |f.name| <= 64 && buf[off..off + |f.name|] == f.name
    && f.offset == Read(buf, off + 64, 2) && f.size == Read(buf, off + 66, 2)
    && f.kind == buf[off + 68] <= 14 && f.count == buf[off + 69]
  }

  lemma FieldFits(buf: seq<Byte>, off: nat, utf8: Validator)
    requires FieldAt(buf, off, utf8).Ok?
    ensures FieldInside(FieldAt(buf, off, utf8).value, buf, off, utf8)
  {
    var f := FieldAt(buf, off, utf8).value;
    TextExactly(buf, off, 64, utf8, f.name);
  }

  /** A decoded entry: its header and every field it announces lie inside, at most 16 of them. */
  ghost predicate EntryInside(e: EntryInfo, buf: seq<Byte>, pos: nat, utf8: Validator) {
    && pos + 198 <= |buf| && e.id == Read(buf, pos, 2) && e.payloadSize == Read(buf, pos + 2, 2)
    && |e.fields| == Read(buf, pos + 4, 2) <= 16
    && utf8(e.name) && |e.name| <= 64 && buf[pos + 6..pos + 6 + |e.name|] == e.name
    && utf8(e.description) && |e.description| <= 128 && buf[pos + 70..pos + 70 + |e.description|] == e.description
    && forall j :: 0 <= j < |e.fields| ==> FieldInside(e.fields[j], buf, pos + 198 + 70 * j, utf8)
  }

  lemma EntryFits(buf: seq<Byte>, pos: nat, utf8: Validator)
    requires EntryAt(buf, pos, utf8).Ok?
    ensures EntryInside(EntryAt(buf, pos, utf8).value, buf, pos, utf8)
  {
    var e := EntryAt(buf, pos, utf8).value;
    TextExactly(buf, pos + 6, 64, utf8, e.name);
    TextExactly(buf, pos + 70, 128, utf8, e.description);
    FieldsFit(buf, pos + 198, utf8, Read(buf, pos + 4, 2), e.fields);
  }

  lemma FieldsFit(buf: seq<Byte>, at: nat, utf8: Validator, n: nat, fs: seq<FieldInfo>)
    requires Collect(FieldStep(buf, at, utf8), n) == Ok(fs)
    ensures |fs| == n && forall j :: 0 <= j < n ==> FieldInside(fs[j], buf, at + 70 * j, utf8)
  {
    CollectedCount(FieldStep(buf, at, utf8), n);
    forall j | 0 <= j < n ensures FieldInside(fs[j], buf, at + 70 * j, utf8) {
      Collected(FieldStep(buf, at, utf8), n, j);
      FieldFits(buf, at + 70 * j, utf8);
    }
  }

  /** Decoded labels: the item's 2053 bytes lie inside, at most 64 labels, each the text of its 32 bytes. */
  ghost predicate EnumInside(e: EnumInfo, buf: seq<Byte>, pos: nat, utf8: Validator) {
    && pos + 2053 <= |buf| && e.id == Read(buf, pos, 2) && e.index == Read(buf, pos + 2, 2)
    && |e.labels| == Min(buf[pos + 4], 64)
    && forall i :: 0 <= i < |e.labels| ==> ReadText(buf, pos + 5 + 32 * i, 32, utf8) == Ok(e.labels[i])
  }

  lemma EnumFits(buf: seq<Byte>, pos: nat, utf8: Validator)
    requires EnumAt(buf, pos, utf8).Ok?
    ensures EnumInside(EnumAt(buf, pos, utf8).value, buf, pos, utf8)
  {
    var e, n := EnumAt(buf, pos, utf8).value, Min(buf[pos + 4], 64);
    var step := LabelStep(buf, pos + 5, utf8);
    assert Collect(step, n) == Ok(e.labels);
    CollectedCount(step, n);
    forall i | 0 <= i < n ensures ReadText(buf, pos + 5 + 32 * i, 32, utf8) == Ok(e.labels[i]) {
      Collected(step, n, i);
    }
  }

  ghost predicate BitInside(b: BitInfo, buf: seq<Byte>, pos: nat, i: nat, utf8: Validator) {
    && pos + 1061 + i < |buf| && ReadText(buf, pos + 5 + 32 * i, 32, utf8) == Ok(b.name)
    && b.start == buf[pos + 1029 + i] && b.width == buf[pos + 1061 + i]
  }

  lemma BitFits(buf: seq<Byte>, pos: nat, i: nat, utf8: Validator, b: BitInfo)
    requires BitAt(buf, pos, i, utf8) == Ok(b)
    ensures BitInside(b, buf, pos, i, utf8)
  {
  }

  /** Decoded bits: the item's 1093 bytes lie inside, at most 32 bits, names, starts and widths side by side. */
  ghost predicate BitfieldInside(b: BitfieldInfo, buf: seq<Byte>, pos: nat, utf8: Validator) {
    && pos + 1093 <= |buf| && b.id == Read(buf, pos, 2) && b.index == Read(buf, pos + 2, 2)
    && |b.bits| == Min(buf[pos + 4], 32)
    && forall i :: 0 <= i < |b.bits| ==> BitInside(b.bits[i], buf, pos, i, utf8)
  }

  lemma BitfieldFits(buf: seq<Byte>, pos: nat, utf8: Validator)
    requires BitfieldAt(buf, pos, utf8).Ok?
    ensures BitfieldInside(BitfieldAt(buf, pos, utf8).value, buf, pos, utf8)
  {
    var b, n := BitfieldAt(buf, pos, utf8).value, Min(buf[pos + 4], 32);
    var step := BitStep(buf, pos, utf8);
    assert Collect(step, n) == Ok(b.bits);
    CollectedCount(step, n);
    forall i | 0 <= i < n ensures BitInside(b.bits[i], buf, pos, i, utf8) {
      Collected(step, n, i);
      BitFits(buf, pos, i, utf8, b.bits[i]);
    }
  }

  ghost predicate EntriesInside(es: seq<EntryInfo>, buf: seq<Byte>, utf8: Validator) {
    forall i :: 0 <= i < |es| ==> EntryInside(es[i], buf, 3 + 1318 * i, utf8)
  }

  /** The enum section at `p`: empty when the bytes end before it. */
  ghost predicate EnumsInside(es: seq<EnumInfo>, buf: seq<Byte>, p: nat, utf8: Validator) {
    && |es| == (if p + 2 > |buf| then 0 else Read(buf, p, 2))
    && forall i :: 0 <= i < |es| ==> EnumInside(es[i], buf, p + 2 + 2053 * i, utf8)
  }

  ghost predicate BitfieldsInside(bs: seq<BitfieldInfo>, buf: seq<Byte>, q: nat, utf8: Validator) {
    && |bs| == (if q + 2 > |buf| then 0 else Read(buf, q, 2))
    && forall i :: 0 <= i < |bs| ==> BitfieldInside(bs[i], buf, q + 2 + 1093 * i, utf8)
  }

  /** Everything in a decoded schema lies in the bytes where the format puts it; a section the bytes end before is
      empty. */
  ghost predicate SchemaFits(s: Schema, buf: seq<Byte>, utf8: Validator) {
    && |buf| >= 3 && buf[0] == 0 && |s.entries| == Read(buf, 1, 2) <= 512
    && EntriesInside(s.entries, buf, utf8)
    && var p := 3 + 1318 * |s.entries|;
       var q := if p + 2 > |buf| then p else p + 2 + 2053 * |s.enums|;
       EnumsInside(s.enums, buf, p, utf8) && BitfieldsInside(s.bitfields, buf, q, utf8)
  }

  lemma EntriesFit(buf: seq<Byte>, utf8: Validator, n: nat, es: seq<EntryInfo>)
    requires Collect(EntryStep(buf, 3, utf8), n) == Ok(es)
    ensures |es| == n && EntriesInside(es, buf, utf8)
  {
    CollectedCount(EntryStep(buf, 3, utf8), n);
    forall i | 0 <= i < n ensures EntryInside(es[i], buf, 3 + 1318 * i, utf8) {
      Collected(EntryStep(buf, 3, utf8), n, i);
      EntryFits(buf, 3 + 1318 * i, utf8);
    }
  }

  lemma EnumsFit(buf: seq<Byte>, p: nat, utf8: Validator, es: seq<EnumInfo>)
    requires EnumSection(buf, p, utf8) == Ok(es)
    ensures EnumsInside(es, buf, p, utf8)
  {
    if p + 2 <= |buf| {
      var step, n := EnumStep(buf, p + 2, utf8), Read(buf, p, 2);
      CollectedCount(step, n);
      forall i | 0 <= i < n ensures EnumInside(es[i], buf, p + 2 + 2053 * i, utf8) {
        Collected(step, n, i);
        EnumFits(buf, p + 2 + 2053 * i, utf8);
      }
    }
  }

  lemma BitfieldsFit(buf: seq<Byte>, q: nat, utf8: Validator, bs: seq<BitfieldInfo>)
    requires BitfieldSection(buf, q, utf8) == Ok(bs)
    ensures BitfieldsInside(bs, buf, q, utf8)
  {
    if q + 2 <= |buf| {
      var step, n := BitfieldStep(buf, q + 2, utf8), Read(buf, q, 2);
      CollectedCount(step, n);
      forall i | 0 <= i < n ensures BitfieldInside(bs[i], buf, q + 2 + 1093 * i, utf8) {
        Collected(step, n, i);
        BitfieldFits(buf, q + 2 + 1093 * i, utf8);
      }
    }
  }

  /** The parts a decoded schema is put together from. */
  lemma DecodedParts(buf: seq<Byte>, utf8: Validator, s: Schema)
    requires Decode(buf, utf8) == Ok(s)
    ensures |buf| >= 3 && buf[0] == 0 && Read(buf, 1, 2) <= 512
    ensures Collect(EntryStep(buf, 3, utf8), Read(buf, 1, 2)) == Ok(s.entries)
    ensures var p := 3 + 1318 * Read(buf, 1, 2);
      EnumSection(buf, p, utf8) == Ok(s.enums) && BitfieldSection(buf, AfterEnums(buf, p), utf8) == Ok(s.bitfields)
  {
  }

  /** For all bytes: a schema decodes only if it lies inside them, so cut or overlong ones are refused. */
  lemma DecodedFits(buf: seq<Byte>, utf8: Validator, s: Schema)
    requires Decode(buf, utf8) == Ok(s)
    ensures SchemaFits(s, buf, utf8)
  {
    DecodedParts(buf, utf8, s);
    PartsFit(buf, utf8, s, Read(buf, 1, 2), 3 + 1318 * Read(buf, 1, 2));
  }

  lemma PartsFit(buf: seq<Byte>, utf8: Validator, s: Schema, n: nat, p: nat)
    requires |buf| >= 3 && buf[0] == 0 && n == Read(buf, 1, 2) <= 512 && p == 3 + 1318 * n
    requires Collect(EntryStep(buf, 3, utf8), n) == Ok(s.entries)
    requires EnumSection(buf, p, utf8) == Ok(s.enums)
    requires BitfieldSection(buf, AfterEnums(buf, p), utf8) == Ok(s.bitfields)
    ensures SchemaFits(s, buf, utf8)
  {
    EntriesFit(buf, utf8, n, s.entries);
    EnumsFit(buf, p, utf8, s.enums);
    BitfieldsFit(buf, AfterEnums(buf, p), utf8, s.bitfields);
  }
}
