/** Lookups in a decoded schema find what was registered under the same id and field. */
module SchemaLookup {
  import opened Bytes
  import opened Wire
  import opened SchemaWire
  import opened SchemaDecoder
  import opened SchemaRoundTrip

  /** Each entry sits in the slot of its id, as registration puts it. */
  predicate Keyed(slots: Slots) { forall i :: 0 <= i < |slots| ==> slots[i].Some? ==> slots[i].value.id == i }

  lemma {:induction false} FindEntryAppend(a: seq<EntryInfo>, b: seq<EntryInfo>, id: nat)
    ensures FindEntry(a + b, id) == if FindEntry(a, id).Some? then FindEntry(a, id) else FindEntry(b, id)
  {
    if |a| == 0 {
      assert a + b == b;
    } else {
      assert (a + b)[1..] == a[1..] + b;
      FindEntryAppend(a[1..], b, id);
    }
  }

  lemma MapSnoc<A, B>(f: A -> B, s: seq<A>, x: A)
    ensures Map(f, s + [x]) == Map(f, s) + [f(x)]
  {
    assert (s + [x])[..|s|] == s;
  }

  lemma FindEntrySnoc(es: seq<SchemaDef>, e: SchemaDef, id: nat)
    ensures FindEntry(Map(EntryView, es + [e]), id) ==
      if FindEntry(Map(EntryView, es), id).Some? then FindEntry(Map(EntryView, es), id)
      else if e.id == id then Some(EntryView(e)) else None
  {
    var v := EntryView(e);
    MapSnoc(EntryView, es, e);
    FindEntryAppend(Map(EntryView, es), [v], id);
    assert FindEntry([v], id) == if v.id == id then Some(v) else FindEntry([v][1..], id);
  }

  /** `entry(id)` of the decoded schema is the registered entry, up to truncation, or nothing. */
  lemma {:induction false} EntryFound(slots: Slots, id: nat)
    requires Keyed(slots)
    ensures FindEntry(Map(EntryView, Entries(slots)), id) ==
      if id < |slots| && slots[id].Some? then Some(EntryView(slots[id].value)) else None
  {
    if |slots| > 0 {
      var init, last := slots[..|slots| - 1], slots[|slots| - 1];
      EntryFound(init, id);
      if last.Some? {
        FindEntrySnoc(Entries(init), last.value, id);
      } else {
        assert Entries(slots) == Entries(init);
      }
    }
  }

  // Enums and bitfields are searched by entry id and field index; both searches are first matches in a list
  // whose keys come from walking the registry.

  datatype Key = Key(id: nat, index: nat)

  /** Position of the first item with the key, or the length. */
  function Position(keys: seq<Key>, k: Key): (n: nat)
    ensures n <= |keys| && (n < |keys| ==> keys[n] == k) && forall i :: 0 <= i < n ==> keys[i] != k
  {
    if |keys| == 0 || keys[0] == k then 0 else 1 + Position(keys[1..], k)
  }

  function EnumKey(it: EnumItem): Key { Key(it.id, it.index) }

  function BitKey(it: BitItem): Key { Key(it.id, it.index) }

  lemma {:induction false} LabelsByPosition(es: seq<EnumInfo>, keys: seq<Key>, k: Key)
    requires |es| == |keys| && forall i :: 0 <= i < |es| ==> Key(es[i].id, es[i].index) == keys[i]
    ensures FindLabels(es, k.id, k.index) == if Position(keys, k) < |es| then Some(es[Position(keys, k)].labels)
      else None
  {
    if |es| > 0 && keys[0] != k { LabelsByPosition(es[1..], keys[1..], k); }
  }

  lemma {:induction false} BitfieldByPosition(bs: seq<BitfieldInfo>, keys: seq<Key>, k: Key)
    requires |bs| == |keys| && forall i :: 0 <= i < |bs| ==> Key(bs[i].id, bs[i].index) == keys[i]
    ensures FindBitfield(bs, k.id, k.index) == if Position(keys, k) < |bs| then Some(bs[Position(keys, k)]) else None
  {
    if |bs| > 0 && keys[0] != k { BitfieldByPosition(bs[1..], keys[1..], k); }
  }

  /** The item registered for a field, if it is an enum and fits the wire form. */
  function EnumOf(e: SchemaDef, index: nat): Option<EnumItem> {
    if index < FieldsKept(e) && IsEnum(e.fields[index]) then Some(EnumItem(e.id, index, e.fields[index].labels.value))
      else None
  }

  function BitfieldOf(e: SchemaDef, index: nat): Option<BitItem> {
    if index < FieldsKept(e) && IsBitfield(e.fields[index]) then Some(BitItem(e.id, index, e.fields[index].bits.value))
      else None
  }

  /** An enum item is listed exactly when its field is registered as such. */
  lemma {:induction false} EnumOfListed(e: SchemaDef, n: nat, it: EnumItem)
    requires n <= FieldsKept(e)
    ensures it in EnumsOf(e, n) <==> it.index < n && EnumOf(e, it.index) == Some(it)
  {
    if n > 0 { EnumOfListed(e, n - 1, it); }
  }

  lemma {:induction false} BitOfListed(e: SchemaDef, n: nat, it: BitItem)
    requires n <= FieldsKept(e)
    ensures it in BitsOf(e, n) <==> it.index < n && BitfieldOf(e, it.index) == Some(it)
  {
    if n > 0 { BitOfListed(e, n - 1, it); }
  }

  lemma {:induction false} EnumListed(slots: Slots, it: EnumItem)
    requires Keyed(slots)
    ensures it in Enums(slots) <==>
      it.id < |slots| && slots[it.id].Some? && EnumOf(slots[it.id].value, it.index) == Some(it)
  {
    if |slots| > 0 {
      var last := slots[|slots| - 1];
      EnumListed(slots[..|slots| - 1], it);
      if last.Some? { EnumOfListed(last.value, FieldsKept(last.value), it); }
    }
  }

  lemma {:induction false} BitListed(slots: Slots, it: BitItem)
    requires Keyed(slots)
    ensures it in Bitfields(slots) <==>
      it.id < |slots| && slots[it.id].Some? && BitfieldOf(slots[it.id].value, it.index) == Some(it)
  {
    if |slots| > 0 {
      var last := slots[|slots| - 1];
      BitListed(slots[..|slots| - 1], it);
      if last.Some? { BitOfListed(last.value, FieldsKept(last.value), it); }
    }
  }

  /** `enum_labels(id, index)` finds exactly the labels registered for that field. */
  lemma LabelsFound(slots: Slots, id: nat, index: nat)
    requires Keyed(slots)
    ensures FindLabels(Map(EnumView, Enums(slots)), id, index) ==
      if id < |slots| && slots[id].Some? && EnumOf(slots[id].value, index).Some?
      then Some(EnumView(EnumOf(slots[id].value, index).value).labels) else None
  {
    var items, k := Enums(slots), Key(id, index);
    var es, keys := Map(EnumView, items), Map(EnumKey, items);
    LabelsByPosition(es, keys, k);
    var n := Position(keys, k);
    if n < |items| {
      EnumListed(slots, items[n]);
    } else if id < |slots| && slots[id].Some? && EnumOf(slots[id].value, index).Some? {
      EnumListed(slots, EnumOf(slots[id].value, index).value);
    }
  }

  /** `bitfield(id, index)` finds exactly the bits registered for that field. */
  lemma BitfieldFound(slots: Slots, id: nat, index: nat)
    requires Keyed(slots)
    ensures FindBitfield(Map(BitfieldView, Bitfields(slots)), id, index) ==
      if id < |slots| && slots[id].Some? && BitfieldOf(slots[id].value, index).Some?
      then Some(BitfieldView(BitfieldOf(slots[id].value, index).value)) else None
  {
    var items, k := Bitfields(slots), Key(id, index);
    var bs, keys := Map(BitfieldView, items), Map(BitKey, items);
    BitfieldByPosition(bs, keys, k);
    var n := Position(keys, k);
    if n < |items| {
      BitListed(slots, items[n]);
    } else if id < |slots| && slots[id].Some? && BitfieldOf(slots[id].value, index).Some? {
      BitListed(slots, BitfieldOf(slots[id].value, index).value);
    }
  }
}
