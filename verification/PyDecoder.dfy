/** Python's packet decoder: more lenient than the Rust one, equal to it wherever that one succeeds. */
module PyDecoder {
  import opened Bytes
  import opened DrainCore
  import opened PacketCodec
  import opened PacketIndex

  /** What decoding yields: a packet too short for a header is empty, a table cut short or an
      undecodable field raises. */
  datatype Outcome = Raises | Parsed(entries: seq<Entry>, dropped: nat)

  /** Python slicing: out-of-range ends are clamped. */
  function Clamped(s: seq<Byte>, a: nat, b: nat): seq<Byte>
    requires a <= b
  {
    s[Min(a, |s|)..Min(b, |s|)]
  }

  /** What is asked of a packet: the ids wanted, and of which entries the schema can decode the fields (with any
      other, `Schema.decode` raises). */
  datatype Reader = Reader(filter: Filter, fields: Entry -> bool)

  predicate Spoils(e: Entry, rd: Reader) { Accepts(rd.filter, e.id) && !rd.fields(e) }

  /** The row at `at` of a packet whose payloads start at `base`. */
  function RowEntry(p: PacketData, at: nat, base: nat): Entry
    requires at + ENTRY_HEADER <= |p|
  {
    var off := base + Read(p, at + 4, 4);
    Entry(Read(p, at + 8, 8), Read(p, at, 2), Clamped(p, off, off + Read(p, at + 2, 2)))
  }

  /** The accepted ones among the first `n` rows. */
  function DecodeRows(p: PacketData, base: nat, rd: Reader, n: nat): seq<Entry>
    requires RowAt(n) <= |p|
  {
    if n == 0 then []
    else
      var e := RowEntry(p, RowAt(n - 1), base);
      DecodeRows(p, base, rd, n - 1) + (if Accepts(rd.filter, e.id) then [e] else [])
  }

  /** None of the first `n` rows is wanted and undecodable. */
  predicate RowsSound(p: PacketData, base: nat, rd: Reader, n: nat)
    requires RowAt(n) <= |p|
  {
    n == 0 || (RowsSound(p, base, rd, n - 1) && !Spoils(RowEntry(p, RowAt(n - 1), base), rd))
  }

  /** The packet decodes: it is too short to hold anything, or its table is whole and its wanted rows are sound. */
  predicate Decodes(p: PacketData, rd: Reader) {
    |p| < PACKET_HEADER || (TableInside(p) && RowsSound(p, PayloadBase(p), rd, Count(p)))
  }

  predicate AllDecode(ps: seq<PacketData>, rd: Reader) { forall i :: 0 <= i < |ps| ==> Decodes(ps[i], rd) }

  function PyDecode(p: PacketData, rd: Reader): Outcome {
    if |p| < PACKET_HEADER then Parsed([], 0)
    else if !Decodes(p, rd) then Raises
    else Parsed(DecodeRows(p, PayloadBase(p), rd, Count(p)), Read(p, 8, 4))
  }

  lemma {:induction false} SpoiltRow(p: PacketData, base: nat, rd: Reader, n: nat, i: nat)
    requires RowAt(n) <= |p| && i < n && Spoils(RowEntry(p, RowAt(i), base), rd)
    ensures !RowsSound(p, base, rd, n)
  {
    if i < n - 1 { SpoiltRow(p, base, rd, n - 1, i); }
  }

  /** The table is cut short before row `i` ends, or row `i` is wanted and undecodable. */
  lemma BadRowRaises(p: PacketData, rd: Reader, i: nat)
    requires |p| >= PACKET_HEADER && i < Count(p)
    requires RowAt(i) + ENTRY_HEADER > |p| || Spoils(RowEntry(p, RowAt(i), PayloadBase(p)), rd)
    ensures PyDecode(p, rd) == Raises
  {
    if TableInside(p) { SpoiltRow(p, PayloadBase(p), rd, Count(p), i); }
  }

  /** `decode_packet`: the first row that does not fit raises, and so does the first whose fields do not decode. */
  method DecodePy(p: PacketData, rd: Reader) returns (r: Outcome)
    ensures r == PyDecode(p, rd)
  {
    if |p| < PACKET_HEADER { return Parsed([], 0); }
    var count := Read(p, 0, 2);
    var base := PACKET_HEADER + ENTRY_HEADER * count;
    var entries: seq<Entry> := [];
    var i := 0;
    while i < count
      invariant 0 <= i <= count && RowAt(i) <= |p|
      invariant entries == DecodeRows(p, base, rd, i) && RowsSound(p, base, rd, i)
    {
      var ok, e := ReadRow(p, RowAt(i), base, rd);
      if !ok {
        BadRowRaises(p, rd, i);
        return Raises;
      }
      if Accepts(rd.filter, e.id) { entries := entries + [e]; }
      i := i + 1;
    }
    r := Parsed(entries, Read(p, 8, 4));
  }

  /** One row: unpacked, and its fields decoded when it is wanted; `ok` is false when either raises. */
  method ReadRow(p: PacketData, at: nat, base: nat, rd: Reader) returns (ok: bool, e: Entry)
    ensures ok <==> at + ENTRY_HEADER <= |p| && !Spoils(RowEntry(p, at, base), rd)
    ensures ok ==> e == RowEntry(p, at, base)
  {
    if at + ENTRY_HEADER > |p| { return false, Entry(0, 0, []); }
    e := RowEntry(p, at, base);
    ok := !Accepts(rd.filter, e.id) || rd.fields(e);
  }

  function Yield(r: Outcome): seq<Entry> {
    if r.Raises? then [] else r.entries
  }

  function RowsOf(rd: Reader): PacketData -> seq<Entry> { (p: PacketData) => Yield(PyDecode(p, rd)) }

  function Gather(ps: seq<PacketData>, rows: PacketData -> seq<Entry>): seq<Entry> {
    if |ps| == 0 then [] else Gather(ps[..|ps| - 1], rows) + rows(ps[|ps| - 1])
  }

  lemma GatherSnoc(ps: seq<PacketData>, p: PacketData, rows: PacketData -> seq<Entry>)
    ensures Gather(ps + [p], rows) == Gather(ps, rows) + rows(p)
  {
    assert (ps + [p])[..|ps|] == ps;
  }

  lemma {:induction false} GatherAppend(a: seq<PacketData>, b: seq<PacketData>, rows: PacketData -> seq<Entry>)
    ensures Gather(a + b, rows) == Gather(a, rows) + Gather(b, rows)
  {
    if |b| == 0 {
      assert a + b == a;
    } else {
      GatherAppend(a, b[..|b| - 1], rows);
      assert (a + b)[..|a + b| - 1] == a + b[..|b| - 1];
    }
  }

  /** Everything the packets decode to, in order. */
  function DecodeAll(ps: seq<PacketData>, rd: Reader): seq<Entry> { Gather(ps, RowsOf(rd)) }

  function Accepted(es: seq<Entry>, f: Filter): seq<Entry> {
    if |es| == 0 then []
    else Accepted(es[..|es| - 1], f) + (if Accepts(f, es[|es| - 1].id) then [es[|es| - 1]] else [])
  }

  lemma {:induction false} RowsAgree(p: PacketData, base: nat, rd: Reader, es: seq<Entry>, n: nat)
    requires n <= |es| && RowAt(|es|) <= |p|
    requires forall i :: 0 <= i < |es| ==> es[i] == RowEntry(p, RowAt(i), base)
    ensures DecodeRows(p, base, rd, n) == Accepted(es[..n], rd.filter)
  {
    if n > 0 {
      RowsAgree(p, base, rd, es, n - 1);
      assert es[..n][..n - 1] == es[..n - 1] && es[..n][n - 1] == es[n - 1];
    }
  }

  lemma DecodedRow(p: PacketData, i: nat)
    requires Framed(p) && i < Count(p) && RowInside(p, i)
    ensures EntryAt(p, i) == RowEntry(p, RowAt(i), PayloadBase(p))
  {
  }

  /** Row `i` carries an id that is asked for. */
  predicate IdWanted(p: PacketData, f: Filter, i: nat)
    requires RowAt(i) + ENTRY_HEADER <= |p|
  {
    f.AcceptAll? || Read(p, PACKET_HEADER + ENTRY_HEADER * i, 2) in f.ids
  }

  /** `es` are the rows numbered `idx`: of the first `n`, exactly those asked for, each once and in order. */
  ghost predicate PicksRows(idx: seq<nat>, es: seq<Entry>, p: PacketData, base: nat, f: Filter, n: nat)
    requires RowAt(n) <= |p|
  {
    && |idx| == |es| && (forall a, b :: 0 <= a < b < |idx| ==> idx[a] < idx[b])
    && (forall k :: 0 <= k < |idx| ==> idx[k] < n && es[k] == RowEntry(p, RowAt(idx[k]), base))
    && (forall i :: 0 <= i < n ==> (i in idx <==> IdWanted(p, f, i)))
  }

  lemma PickOne(idx: seq<nat>, es: seq<Entry>, p: PacketData, base: nat, f: Filter, n: nat, e: Entry)
    requires RowAt(n + 1) <= |p| && PicksRows(idx, es, p, base, f, n) && e == RowEntry(p, RowAt(n), base)
    ensures IdWanted(p, f, n) ==> PicksRows(idx + [n], es + [e], p, base, f, n + 1)
    ensures !IdWanted(p, f, n) ==> PicksRows(idx, es, p, base, f, n + 1)
  {
    var more := idx + [n];
    assert forall i :: i in more <==> i in idx || i == n;
    assert n !in idx;
  }

  lemma RowsGrow(p: PacketData, base: nat, rd: Reader, n: nat, es: seq<Entry>, e: Entry)
    requires RowAt(n + 1) <= |p| && es == DecodeRows(p, base, rd, n) && e == RowEntry(p, RowAt(n), base)
    ensures DecodeRows(p, base, rd, n + 1) == if IdWanted(p, rd.filter, n) then es + [e] else es
  {
    assert e.id == Read(p, RowAt(n), 2);
    assert Accepts(rd.filter, e.id) <==> IdWanted(p, rd.filter, n);
  }

  /** The first `n` rows come out as `es`, which are rows `idx`. */
  ghost predicate ComesOut(idx: seq<nat>, es: seq<Entry>, p: PacketData, base: nat, rd: Reader, n: nat)
    requires RowAt(n) <= |p|
  {
    es == DecodeRows(p, base, rd, n) && PicksRows(idx, es, p, base, rd.filter, n)
  }

  lemma NextComesOut(idx: seq<nat>, es: seq<Entry>, p: PacketData, base: nat, rd: Reader, n: nat)
    returns (idx': seq<nat>, es': seq<Entry>)
    requires RowAt(n + 1) <= |p| && ComesOut(idx, es, p, base, rd, n)
    ensures ComesOut(idx', es', p, base, rd, n + 1)
  {
    var e := RowEntry(p, RowAt(n), base);
    PickOne(idx, es, p, base, rd.filter, n, e);
    RowsGrow(p, base, rd, n, es, e);
    if IdWanted(p, rd.filter, n) { idx', es' := idx + [n], es + [e]; } else { idx', es' := idx, es; }
  }

  lemma NoneComeOut(p: PacketData, base: nat, rd: Reader)
    requires RowAt(0) <= |p|
    ensures ComesOut([], [], p, base, rd, 0)
  {
  }

  lemma {:induction false} RowsExactly(p: PacketData, base: nat, rd: Reader, n: nat)
    returns (idx: seq<nat>, es: seq<Entry>)
    requires RowAt(n) <= |p|
    ensures ComesOut(idx, es, p, base, rd, n)
  {
    if n == 0 {
      NoneComeOut(p, base, rd);
      return [], [];
    }
    var idx0, es0 := RowsExactly(p, base, rd, n - 1);
    idx, es := NextComesOut(idx0, es0, p, base, rd, n - 1);
  }

  /** What `decode_packet` yields, told by the packet's bytes: the rows whose id is asked for, each once and in
      order. */
  lemma DecodedExactly(p: PacketData, rd: Reader) returns (idx: seq<nat>)
    requires |p| >= PACKET_HEADER && PyDecode(p, rd).Parsed?
    ensures TableInside(p) && PicksRows(idx, PyDecode(p, rd).entries, p, PayloadBase(p), rd.filter, Count(p))
  {
    var es;
    idx, es := RowsExactly(p, PayloadBase(p), rd, Count(p));
  }

  /** A payload is what the packet holds of the bytes its row announces. */
  lemma PayloadClamped(p: PacketData, at: nat, base: nat, k: nat)
    requires at + ENTRY_HEADER <= |p|
    ensures
      var pay, off, size := RowEntry(p, at, base).payload, base + Read(p, at + 4, 4), Read(p, at + 2, 2);
      && |pay| == (if |p| <= off then 0 else Min(|p| - off, size))
      && (k < |pay| ==> off + k < |p| && pay[k] == p[off + k])
  {
  }

  predicate AllSound(es: seq<Entry>, rd: Reader) { forall i :: 0 <= i < |es| ==> !Spoils(es[i], rd) }

  /** On every packet the Rust decoder accepts, Python yields the same entries, less those filtered out, and the same
      drop count, if the schema can decode the fields of the wanted ones, and raises otherwise; so it too inverts the
      packed drain. */
  lemma DecodersAgree(p: PacketData, rd: Reader)
    requires Decoded(p).Ok?
    ensures var es := Decoded(p).value.entries;
      PyDecode(p, rd) == if AllSound(es, rd) then Parsed(Accepted(es, rd.filter), Decoded(p).value.dropped) else Raises
  {
    var es, base := Decoded(p).value.entries, PayloadBase(p);
    assert FirstBad(p, 0) == Count(p) == |es|;
    forall i | 0 <= i < |es| ensures es[i] == RowEntry(p, RowAt(i), base) {
      assert RowInside(p, i);
      DecodedRow(p, i);
    }
    RowsAgree(p, base, rd, es, |es|);
    assert es[..|es|] == es;
    SoundRows(p, base, rd, es, |es|);
  }

  lemma {:induction false} SoundRows(p: PacketData, base: nat, rd: Reader, es: seq<Entry>, n: nat)
    requires n <= |es| && RowAt(|es|) <= |p| && forall i :: 0 <= i < |es| ==> es[i] == RowEntry(p, RowAt(i), base)
    ensures RowsSound(p, base, rd, n) <==> AllSound(es[..n], rd)
  {
    if n > 0 {
      SoundRows(p, base, rd, es, n - 1);
      assert es[..n] == es[..n - 1] + [es[n - 1]];
    }
  }
}
