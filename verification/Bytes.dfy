/** Bytes, little-endian integers and flattening: the vocabulary of every wire and file format here. */
module Bytes {

  type Byte = b: int | 0 <= b < 256

  function Min(a: nat, b: nat): nat { if a < b then a else b }

  /** The numbers below `n`. */
  function Below(n: nat): (r: set<nat>)
    ensures |r| == n && forall k :: k in r <==> 0 <= k < n
  {
    if n == 0 then {} else Below(n - 1) + {n - 1}
  }

  /** Numbers below `n` are as many as `n` exactly when none is missing. */
  lemma FullWhenAsMany(got: set<nat>, n: nat)
    requires forall b :: b in got ==> b < n
    ensures |got| <= n && (|got| == n <==> forall b :: 0 <= b < n ==> b in got)
  {
    var missing := Below(n) - got;
    assert Below(n) == got + missing;
    if |got| == n { assert missing == {}; }
    if forall b :: 0 <= b < n ==> b in got { assert missing == {}; }
  }

  function Pow256(w: nat): (r: nat)
    ensures r > 0
  {
    if w == 0 then 1 else 256 * Pow256(w - 1)
  }

  const U16: nat := 0x1_0000
  const U32: nat := 0x1_0000_0000
  const U64: nat := 0x1_0000_0000_0000_0000

  lemma PowValues()
    ensures Pow256(1) == 256 && Pow256(2) == U16 && Pow256(4) == U32 && Pow256(8) == U64
  {
    assert Pow256(2) == 256 * Pow256(1);
    assert Pow256(3) == 256 * Pow256(2);
    assert Pow256(4) == 256 * Pow256(3);
    assert Pow256(5) == 256 * Pow256(4);
    assert Pow256(6) == 256 * Pow256(5);
    assert Pow256(7) == 256 * Pow256(6);
  }

  // Encoding recurses through three functions, so that one unfolding of the outer one exposes no digits:
  // proofs about formats treat integers as units unless they ask for more.

  /** The low `w` bytes of `n`, least significant first. */
  function LE(n: nat, w: nat): (s: seq<Byte>)
    ensures |s| == w
    decreases w, 2
  {
    Digits(n, w)
  }

  function Digits(n: nat, w: nat): (s: seq<Byte>)
    ensures |s| == w
    decreases w, 1
  {
    if w == 0 then [] else LowDigit(n, w)
  }

  function LowDigit(n: nat, w: nat): (s: seq<Byte>)
    requires w > 0
    ensures |s| == w
    decreases w, 0
  {
    [n % 256] + LE(n / 256, w - 1)
  }

  function UnLE(s: seq<Byte>): nat {
    if |s| == 0 then 0 else s[0] + 256 * UnLE(s[1..])
  }

  lemma {:induction false} UnLEofLE(n: nat, w: nat)
    requires n < Pow256(w)
    ensures UnLE(LE(n, w)) == n
  {
    if w > 0 {
      assert LE(n, w) == Digits(n, w) == LowDigit(n, w) == [n % 256] + LE(n / 256, w - 1);
      UnLEofLE(n / 256, w - 1);
    }
  }

  lemma {:induction false} UnLEBound(s: seq<Byte>)
    ensures UnLE(s) < Pow256(|s|)
  {
    if |s| > 0 {
      UnLEBound(s[1..]);
    }
  }

  /** Unsigned reads of the widths the formats use, with their ranges. */
  function Read(buf: seq<Byte>, off: nat, w: nat): (r: nat)
    requires off + w <= |buf|
    ensures w == 2 ==> r < U16
    ensures w == 4 ==> r < U32
    ensures w == 8 ==> r < U64
  {
    UnLEBound(buf[off..off + w]);
    PowValues();
    UnLE(buf[off..off + w])
  }

  /** A read sees an integer that was laid down at its offset. */
  lemma ReadLE(buf: seq<Byte>, off: nat, n: nat, w: nat)
    requires off + w <= |buf| && n < Pow256(w)
    requires buf[off..off + w] == LE(n, w)
    ensures Read(buf, off, w) == n
  {
    UnLEofLE(n, w);
  }

  lemma SliceSlice<T>(s: seq<T>, a: nat, b: nat, i: nat, j: nat)
    requires a <= b <= |s| && i <= j <= b - a
    ensures s[a..b][i..j] == s[a + i..a + j]
  {
    forall k | 0 <= k < j - i
      ensures s[a..b][i..j][k] == s[a + i..a + j][k]
    {
    }
  }

  /** The parts of a concatenation, where they lie. */
  lemma ThreeParts<T>(a: seq<T>, b: seq<T>, c: seq<T>)
    ensures var s := a + b + c;
      && s[..|a|] == a && s[0..|a|] == a && s[|a|..|a| + |b|] == b && s[|a| + |b|..|a| + |b| + |c|] == c
  {
  }

  /** A slice of a slice, by the bytes found there. */
  lemma Nested<T>(s: seq<T>, at: nat, n: nat, part: seq<T>, off: nat, w: nat, b: seq<T>)
    requires at + n <= |s| && s[at..at + n] == part
    requires off + w <= n && part[off..off + w] == b
    ensures s[at + off..at + off + w] == b
  {
    SliceSlice(s, at, at + n, off, off + w);
  }

  /** Reading inside a slice is reading the whole at the shifted offset. */
  lemma ReadSlice(buf: seq<Byte>, a: nat, b: nat, off: nat, w: nat)
    requires a <= b <= |buf| && off + w <= b - a
    ensures Read(buf[a..b], off, w) == Read(buf, a + off, w)
  {
    SliceSlice(buf, a, b, off, off + w);
  }

  function Flatten<T>(ss: seq<seq<T>>): seq<T> {
    if |ss| == 0 then [] else ss[0] + Flatten(ss[1..])
  }

  lemma {:induction false} FlattenAppend<T>(a: seq<seq<T>>, b: seq<seq<T>>)
    ensures Flatten(a + b) == Flatten(a) + Flatten(b)
  {
    if |a| == 0 {
      assert a + b == b;
    } else {
      assert (a + b)[1..] == a[1..] + b;
      calc {
        Flatten(a + b);
        (a + b)[0] + Flatten((a + b)[1..]);
        a[0] + Flatten(a[1..] + b);
        { FlattenAppend(a[1..], b); }
        a[0] + (Flatten(a[1..]) + Flatten(b));
        Flatten(a) + Flatten(b);
      }
    }
  }

  lemma FlattenSnoc<T>(a: seq<seq<T>>, x: seq<T>)
    ensures Flatten(a + [x]) == Flatten(a) + x
  {
    FlattenAppend(a, [x]);
    assert Flatten([x]) == x + Flatten([x][1..]) == x;
  }

  /** Zeros of a given length. */
  function Zeros(n: nat): (s: seq<Byte>)
    ensures |s| == n && forall i :: 0 <= i < n ==> s[i] == 0
  {
    seq(n, i => 0)
  }
}
