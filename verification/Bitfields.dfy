/** Sub-fields of a bitfield word, as the Rust mapper, the Python schema and the C bridge extract them. */
module Bitfields {
  import opened Bytes
  import opened Bits

  datatype Bit = Bit(start: nat, width: nat)

  /** Lies within a word of `n` bytes, and narrow enough for a 32-bit mask. */
  predicate Inside(b: Bit, n: nat) { b.start + b.width <= 8 * n && b.width < 32 }

  /** A 64-bit shift by this much is defined. */
  predicate Shiftable(b: Bit) { b.start < 64 && b.width < 64 }

  /** `(raw & (((1 << width) - 1) << start)) >> start` on 64-bit words: the left shift loses high bits. */
  function MaskThenShift(raw: nat, b: Bit): nat { Shr(And(raw, Shl(Pow2(b.width) - 1, b.start) % Pow2(64)), b.start) }

  /** `(raw >> start) & ((1 << width) - 1)`. */
  function ShiftThenMask(raw: nat, b: Bit): nat { And(Shr(raw, b.start), Pow2(b.width) - 1) }

  /** What both mean. */
  function Extract(raw: nat, b: Bit): nat { DivNonNegative(raw, Pow2(b.start)); raw / Pow2(b.start) % Pow2(b.width) }

  // ----------------------------------------------------------------------------------- the two orders

  lemma AndDouble(a: nat, x: nat)
    ensures And(a, 2 * x) == 2 * And(a / 2, x)
  {
    if a > 0 && x > 0 { assert (2 * x) / 2 == x && (2 * x) % 2 == 0; }
  }

  lemma DivDouble(a: nat, d: nat)
    requires d > 0
    ensures a / (2 * d) == (a / 2) / d
  {
    var q, r := (a / 2) / d, (a / 2) % d;
    assert a / 2 == d * q + r;
    assert a == (2 * d) * q + (2 * r + a % 2);
    DivNonNegative(a / 2, d);
    RemainderUnique(2 * d, a, q, 2 * r + a % 2);
  }

  lemma ShrDouble(a: nat, s: nat)
    requires s > 0
    ensures Shr(a, s) == Shr(a / 2, s - 1)
  {
    DivDouble(a, Pow2(s - 1));
  }

  lemma {:induction false} MaskedShift(a: nat, m: nat, s: nat)
    ensures Shr(And(a, Shl(m, s)), s) == And(Shr(a, s), m)
    decreases s
  {
    if s > 0 {
      var x := Shl(m, s - 1);
      ShlDouble(m, s);
      AndDouble(a, x);
      var y := And(a / 2, x);
      ShrDouble(2 * y, s);
      MaskedShift(a / 2, m, s - 1);
      ShrDouble(a, s);
    }
  }

  lemma ShlDouble(m: nat, s: nat)
    requires s > 0
    ensures Shl(m, s) == 2 * Shl(m, s - 1)
  {
    var d := Pow2(s - 1);
    assert m * (2 * d) == 2 * (m * d);
  }

  /** The shifted mask stays within the word, so neither 32-bit nor 64-bit arithmetic loses any of it. */
  lemma MaskFits(b: Bit, n: nat)
    requires Inside(b, n)
    ensures Shl(Pow2(b.width) - 1, b.start) < Pow2(8 * n)
  {
    var w, s := Pow2(b.width), Pow2(b.start);
    PowAdd(b.width, b.start);
    PowGrows(b.width + b.start, 8 * n);
    LessOne(w, s);
  }

  lemma LessOne(w: nat, s: nat)
    requires w > 0
    ensures (w - 1) * s == w * s - s
  {
  }

  lemma {:induction false} PowGrows(a: nat, b: nat)
    requires a <= b
    ensures Pow2(a) <= Pow2(b)
  {
    if a < b { PowGrows(a, b - 1); }
  }

  /** Bits of a mask beyond the word do not matter. */
  lemma {:induction false} AndLow(a: nat, m: nat, k: nat)
    requires a < Pow2(k)
    ensures And(a, m % Pow2(k)) == And(a, m)
    decreases k
  {
    if k > 0 {
      var h := Pow2(k - 1);
      AndLow(a / 2, m / 2, k - 1);
      DoubleMod(m, h);
      HalfOf(m, h);
      AndSplit(a, m);
      AndSplit(a, m % Pow2(k));
    }
  }

  lemma HalfOf(m: nat, h: nat)
    requires h > 0
    ensures var r := 2 * ((m / 2) % h) + m % 2; r / 2 == (m / 2) % h && r % 2 == m % 2
  {
  }

  lemma AndSplit(a: nat, b: nat)
    ensures And(a, b) == 2 * And(a / 2, b / 2) + (a % 2) * (b % 2)
  {
  }

  /** Mask-then-shift, shift-then-mask and the arithmetic meaning agree on every word and every layout. */
  lemma ExtractionsAgree(raw: nat, b: Bit)
    requires raw < Pow2(64)
    ensures MaskThenShift(raw, b) == ShiftThenMask(raw, b) == Extract(raw, b)
    ensures Extract(raw, b) < Pow2(b.width)
  {
    AndLow(raw, Shl(Pow2(b.width) - 1, b.start), 64);
    MaskedShift(raw, Pow2(b.width) - 1, b.start);
    DivNonNegative(raw, Pow2(b.start));
    LowMask(raw / Pow2(b.start), b.width);
  }

  // -------------------------------------------------------------------------------- assembling the word

  lemma {:induction false} OrDisjoint(a: nat, b: nat, k: nat)
    requires a < Pow2(k)
    ensures Or(a, b * Pow2(k)) == a + b * Pow2(k)
    decreases k
  {
    if k > 0 {
      var c := b * Pow2(k - 1);
      assert b * Pow2(k) == 2 * c;
      OrDisjoint(a / 2, b, k - 1);
      assert (2 * c) / 2 == c && (2 * c) % 2 == 0;
    }
  }

  lemma {:induction false} BytePowers(i: nat)
    ensures Pow256(i) == Pow2(8 * i)
  {
    if i > 0 {
      BytePowers(i - 1);
      var p := Pow2(8 * i - 8);
      assert Pow2(8 * i - 7) == 2 * p && Pow2(8 * i - 6) == 4 * p && Pow2(8 * i - 5) == 8 * p
        && Pow2(8 * i - 4) == 16 * p;
      assert Pow2(8 * i - 3) == 32 * p && Pow2(8 * i - 2) == 64 * p && Pow2(8 * i - 1) == 128 * p
        && Pow2(8 * i) == 256 * p;
    }
  }

  lemma Distribute(x: nat, q: nat, b: nat, p: nat)
    ensures x + 256 * (q + b * p) == x + 256 * q + b * (256 * p)
  {
  }

  lemma {:induction false} ValueSnoc(s: seq<Byte>, b: Byte)
    ensures UnLE(s + [b]) == UnLE(s) + b * Pow256(|s|)
  {
    if |s| == 0 {
      assert s + [b] == [b];
      assert UnLE([b]) == b + 256 * UnLE([b][1..]);
    } else {
      assert (s + [b])[1..] == s[1..] + [b];
      ValueSnoc(s[1..], b);
      Distribute(s[0], UnLE(s[1..]), b, Pow256(|s| - 1));
    }
  }

  /** Or-ing the storage bytes together at their shifts reads the little-endian word. */
  method AssembleWord(bytes: seq<Byte>) returns (raw: nat)
    ensures raw == UnLE(bytes) < Pow2(8 * |bytes|)
  {
    raw := 0;
    var i := 0;
    while i < |bytes|
      invariant 0 <= i <= |bytes| && raw == UnLE(bytes[..i])
    {
      UnLEBound(bytes[..i]);
      BytePowers(i);
      OrDisjoint(raw, bytes[i], 8 * i);
      ValueSnoc(bytes[..i], bytes[i]);
      assert bytes[..i + 1] == bytes[..i] + [bytes[i]];
      raw := Or(raw, Shl(bytes[i], i * 8));
      i := i + 1;
    }
    assert bytes[..|bytes|] == bytes;
    UnLEBound(bytes);
    BytePowers(|bytes|);
  }

  /** What reaches the store: the word, if it has a channel of its own, then each sub-field. */
  datatype Pushed = Nothing | Pushed(words: seq<nat>, values: seq<nat>)

  /** The bitfield branch of `dispatch`: nothing when the payload is short, else the word and each sub-field.  The
      storage fits a 64-bit word and every shift is one Rust defines. */
  method DispatchBitfield(payload: seq<Byte>, off: nat, n: nat, hasWord: bool, bits: seq<Bit>) returns (r: Pushed)
    requires n <= 8 && forall k :: 0 <= k < |bits| ==> Shiftable(bits[k])
    ensures r.Pushed? <==> off + n <= |payload|
    ensures r.Pushed? ==>
      var word := UnLE(payload[off..off + n]);
      && r.words == (if hasWord then [word] else []) && |r.values| == |bits|
      && forall k :: 0 <= k < |bits| ==> r.values[k] == Extract(word, bits[k])
  {
    if off + n > |payload| { return Nothing; }
    var raw := AssembleWord(payload[off..off + n]);
    PowGrows(8 * n, 64);
    var values: seq<nat> := [];
    var k := 0;
    while k < |bits|
      invariant 0 <= k <= |bits| && |values| == k
      invariant forall j :: 0 <= j < k ==> values[j] == Extract(raw, bits[j])
    {
      ExtractionsAgree(raw, bits[k]);
      values := values + [MaskThenShift(raw, bits[k])];
      k := k + 1;
    }
    r := Pushed(if hasWord then [raw] else [], values);
  }

  // -------------------------------------------------------------------------------- rebuilding the word

  /** The sub-fields put back at their places. */
  function Weighted(raw: nat, bits: seq<Bit>): nat {
    if |bits| == 0 then 0
    else Weighted(raw, bits[..|bits| - 1]) + Extract(raw, bits[|bits| - 1]) * Pow2(bits[|bits| - 1].start)
  }

  /** Consecutive sub-fields covering exactly the low `n` bits. */
  predicate Consecutive(bits: seq<Bit>, n: nat) {
    if |bits| == 0 then n == 0
    else
      var last := bits[|bits| - 1];
      last.start + last.width == n && Consecutive(bits[..|bits| - 1], last.start)
  }

  lemma {:induction false} PowAdd(a: nat, b: nat)
    ensures Pow2(a + b) == Pow2(a) * Pow2(b)
  {
    if a > 0 { PowAdd(a - 1, b); }
  }

  /** Splitting the low bits at `s`. */
  lemma SplitAt(raw: nat, s: nat, w: nat)
    ensures raw % Pow2(s + w) == raw % Pow2(s) + Extract(raw, Bit(s, w)) * Pow2(s)
  {
    PowAdd(s, w);
    SplitNumber(raw, Pow2(s), Pow2(w));
  }

  lemma {:induction false} WeightedIsLowBits(raw: nat, bits: seq<Bit>, n: nat)
    requires Consecutive(bits, n)
    ensures Weighted(raw, bits) == raw % Pow2(n)
  {
    if |bits| > 0 {
      var last := bits[|bits| - 1];
      WeightedIsLowBits(raw, bits[..|bits| - 1], last.start);
      SplitAt(raw, last.start, last.width);
      assert last == Bit(last.start, last.width);
    }
  }

  lemma {:induction false} WeightedRemoves(raw: nat, bits: seq<Bit>, i: nat)
    requires i < |bits|
    ensures Weighted(raw, bits) ==
      Weighted(raw, bits[..i] + bits[i + 1..]) + Extract(raw, bits[i]) * Pow2(bits[i].start)
  {
    var m := |bits| - 1;
    if i < m {
      WeightedRemoves(raw, bits[..m], i);
      var rest := bits[..i] + bits[i + 1..];
      assert rest[..|rest| - 1] == bits[..m][..i] + bits[..m][i + 1..];
      assert rest[|rest| - 1] == bits[m];
    } else {
      assert bits[..i] + bits[i + 1..] == bits[..m];
    }
  }

  lemma RemovedMultiset(b: seq<Bit>, i: nat)
    requires i < |b|
    ensures multiset(b[..i] + b[i + 1..]) == multiset(b) - multiset{b[i]}
  {
    assert b == b[..i] + [b[i]] + b[i + 1..];
  }

  lemma {:induction false} WeightedPermutes(raw: nat, a: seq<Bit>, b: seq<Bit>)
    requires multiset(a) == multiset(b)
    ensures Weighted(raw, a) == Weighted(raw, b)
    decreases |a|
  {
    if |a| == 0 {
      assert |b| == |multiset(b)| == 0;
    } else {
      var m := |a| - 1;
      assert a[m] in multiset(b);
      var i :| 0 <= i < |b| && b[i] == a[m];
      RemovedMultiset(a, m);
      RemovedMultiset(b, i);
      assert a[..m] + a[m + 1..] == a[..m];
      WeightedPermutes(raw, a[..m], b[..i] + b[i + 1..]);
      WeightedRemoves(raw, b, i);
    }
  }

  /** Sub-fields that tile the word, declared in any order, rebuild it. */
  lemma TilingRebuildsWord(raw: nat, bits: seq<Bit>, inOrder: seq<Bit>, n: nat)
    requires raw < Pow2(n) && multiset(bits) == multiset(inOrder) && Consecutive(inOrder, n)
    ensures Weighted(raw, bits) == raw
  {
    WeightedPermutes(raw, bits, inOrder);
    WeightedIsLowBits(raw, inOrder, n);
    RemainderUnique(Pow2(n), raw, 0, raw);
  }
}
