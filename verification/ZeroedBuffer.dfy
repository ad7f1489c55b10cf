/** Filling a zeroed buffer: what is written so far, then zeros up to the end of the region. */
module ZeroedBuffer {
  import opened Bytes
  import opened Wire
  import opened SchemaWire

  /** From `at` the buffer holds `done`, then zeros up to `end`. */
  ghost predicate Region(s: seq<Byte>, at: nat, done: seq<Byte>, end: nat) {
    && at + |done| <= end <= |s|
    && s[at..at + |done|] == done
    && forall k :: at + |done| <= k < end ==> s[k] == 0
  }

  lemma RegionGrows(s: seq<Byte>, at: nat, done: seq<Byte>, end: nat, b: seq<Byte>)
    requires Region(s, at, done, end) && at + |done| + |b| <= end
    ensures Region(Overlay(s, at + |done|, b), at, done + b, end)
  {
    OverlayNext(s, at, at + |done|, b, done);
  }

  lemma RegionFrame(s: seq<Byte>, at: nat, done: seq<Byte>, end: nat, off: nat, b: seq<Byte>)
    requires Region(s, at, done, end) && off + |b| <= |s| && (off + |b| <= at || end <= off)
    ensures Region(Overlay(s, off, b), at, done, end)
  {
    OverlayOutside(s, off, b, at, at + |done|);
  }

  /** Zeros already there count as written. */
  lemma RegionSkips(s: seq<Byte>, at: nat, done: seq<Byte>, end: nat, n: nat)
    requires Region(s, at, done, end) && at + |done| + n <= end
    ensures Region(s, at, done + Zeros(n), end)
  {
    var mid, top := at + |done|, at + |done| + n;
    assert s[mid..top] == Zeros(n);
    JoinSlices(s, at, mid, top);
  }

  lemma RegionsJoin(s: seq<Byte>, at: nat, a: seq<Byte>, mid: nat, b: seq<Byte>, end: nat)
    requires Region(s, at, a, mid) && Region(s, mid, b, end) && mid == at + |a|
    ensures Region(s, at, a + b, end)
  {
    JoinSlices(s, at, mid, mid + |b|);
  }

  /** Assigning a struct member that lies next in the region. */
  method Store(buf: array<Byte>, pos: nat, b: seq<Byte>, ghost done: seq<Byte>, ghost end: nat) returns (next: nat)
    requires Region(buf[..], 0, done, end) && pos == |done| && pos + |b| <= end
    modifies buf
    ensures Region(buf[..], 0, done + b, end) && next == pos + |b|
    ensures buf[end..] == old(buf[end..])
  {
    ghost var was := buf[..];
    Put(buf, pos, b);
    RegionGrows(was, 0, done, end, b);
    OverlayOutside(was, pos, b, end, |was|);
    assert buf[end..] == buf[..][end..|was|] && was[end..|was|] == old(buf[end..]);
    next := pos + |b|;
  }

  /** `strncpy` of at most `n - 1` bytes into a zeroed member of `n`: the string, then zeros, the last byte
      untouched. */
  method StoreString(buf: array<Byte>, pos: nat, t: Text, n: nat, ghost done: seq<Byte>, ghost end: nat)
    returns (next: nat)
    requires Region(buf[..], 0, done, end) && pos == |done| && n > 0 && pos + n <= end
    modifies buf
    ensures Region(buf[..], 0, done + Padded(t, n), end) && next == pos + n
    ensures buf[end..] == old(buf[end..])
  {
    var kept := Min(|t|, n - 1);
    var b := t[..kept] + Zeros(n - 1 - kept);
    next := Store(buf, pos, b, done, end);
    RegionSkips(buf[..], 0, done + b, end, 1);
    assert done + b + Zeros(1) == done + Padded(t, n);
    next := pos + n;
  }
}
