/** Length-prefixed frames cut out of a byte stream. */
module Framing {
  import opened Bytes
  import opened DrainCore
  import opened PacketCodec
  import opened PacketIndex

  /** Whole packets in order, the bytes left over, and whether an oversized length discarded the buffer. */
  datatype Cut = Cut(packets: seq<PacketData>, rest: seq<Byte>, cleared: bool)

  function LengthOf(buf: seq<Byte>): nat
    requires |buf| >= 4
  {
    Read(buf, 0, 4)
  }

  predicate Oversized(buf: seq<Byte>, max: nat) { |buf| >= 4 && LengthOf(buf) > max }

  predicate HasFrame(buf: seq<Byte>, max: nat) { |buf| >= 4 && LengthOf(buf) <= max && 4 + LengthOf(buf) <= |buf| }

  /** Cuts frames off the front as long as whole ones are there. */
  function CutFrames(buf: seq<Byte>, max: nat): (c: Cut)
    ensures |c.rest| <= |buf|
    decreases |buf|
  {
    if Oversized(buf, max) then Cut([], [], true)
    else if !HasFrame(buf, max) then Cut([], buf, false)
    else
      var n := 4 + LengthOf(buf);
      var later := CutFrames(buf[n..], max);
      later.(packets := [buf[4..n]] + later.packets)
  }

  lemma FrontStays(a: seq<Byte>, b: seq<Byte>, max: nat)
    requires |a| >= 4
    ensures LengthOf(a + b) == LengthOf(a) && (Oversized(a, max) ==> Oversized(a + b, max))
    ensures HasFrame(a, max) ==> HasFrame(a + b, max)
  {
    assert (a + b)[0..4] == a[0..4];
  }

  lemma FrontCut(a: seq<Byte>, b: seq<Byte>, max: nat)
    requires HasFrame(a, max)
    ensures HasFrame(a + b, max) && !Oversized(a + b, max)
    ensures var n := 4 + LengthOf(a); 4 + LengthOf(a + b) == n && (a + b)[4..n] == a[4..n] && (a + b)[n..] == a[n..] + b
  {
    FrontStays(a, b, max);
  }

  function Before(ps: seq<PacketData>, c: Cut): Cut { Cut(ps + c.packets, c.rest, c.cleared) }

  lemma CutStep(buf: seq<Byte>, p: PacketData, tail: seq<Byte>, max: nat)
    requires HasFrame(buf, max) && p == buf[4..4 + LengthOf(buf)] && tail == buf[4 + LengthOf(buf)..]
    ensures CutFrames(buf, max) == Before([p], CutFrames(tail, max))
  {
  }

  lemma BeforeBoth(p: PacketData, ps: seq<PacketData>, c: Cut)
    ensures Before([p], Before(ps, c)) == Before([p] + ps, c)
  {
  }

  /** Chunk boundaries do not matter: cutting what is left of `a` together with `b` continues the cutting of
      `a`, for any bytes whatever, unless `a` already held an oversized length. */
  lemma {:induction false} CutContinues(a: seq<Byte>, b: seq<Byte>, max: nat)
    requires !CutFrames(a, max).cleared
    ensures var first := CutFrames(a, max);
      CutFrames(a + b, max) == Before(first.packets, CutFrames(first.rest + b, max))
    decreases |a|
  {
    if HasFrame(a, max) {
      var n := 4 + LengthOf(a);
      var p, tail := a[4..n], a[n..];
      var later := CutFrames(tail, max);
      FrontCut(a, b, max);
      CutStep(a, p, tail, max);
      CutContinues(tail, b, max);
      CutStep(a + b, p, tail + b, max);
      BeforeBoth(p, later.packets, CutFrames(later.rest + b, max));
    } else {
      var all := CutFrames(a + b, max);
      assert Before([], all) == all;
    }
  }

  // ------------------------------------------------------------------------------------ framed streams

  function Frame(p: PacketData): (s: seq<Byte>)
    ensures |s| == 4 + |p|
  {
    LE(|p|, 4) + p
  }

  function StreamOf(ps: seq<PacketData>): seq<Byte> {
    if |ps| == 0 then [] else Frame(ps[0]) + StreamOf(ps[1..])
  }

  predicate Sendable(ps: seq<PacketData>, max: nat) {
    forall i :: 0 <= i < |ps| ==> |ps[i]| <= max && |ps[i]| < U32
  }

  /** How many leading frames lie wholly within `n` bytes. */
  function WholeFrames(ps: seq<PacketData>, n: nat): (k: nat)
    ensures k <= |ps|
    decreases |ps|
  {
    if |ps| == 0 || 4 + |ps[0]| > n then 0 else 1 + WholeFrames(ps[1..], n - 4 - |ps[0]|)
  }

  /** That many and no more. */
  lemma {:induction false} WholeFramesIsMaximal(ps: seq<PacketData>, n: nat)
    ensures var k := WholeFrames(ps, n); |StreamOf(ps[..k])| <= n && (k < |ps| ==> |StreamOf(ps[..k + 1])| > n)
    decreases |ps|
  {
    var k := WholeFrames(ps, n);
    if k > 0 {
      WholeFramesIsMaximal(ps[1..], n - 4 - |ps[0]|);
      assert ps[..k][1..] == ps[1..][..k - 1];
      if k < |ps| { assert ps[..k + 1][1..] == ps[1..][..k]; }
    } else if |ps| > 0 {
      assert ps[..1][1..] == [];
    }
  }

  lemma FrameReads(s: seq<Byte>, p: PacketData)
    requires |s| >= 4 && |p| < U32 && s[..4] == LE(|p|, 4)
    ensures LengthOf(s) == |p|
  {
    PowValues();
    assert s[0..4] == s[..4];
    ReadLE(s, 0, |p|, 4);
  }

  lemma FirstFrame(s: seq<Byte>, p: PacketData, tail: seq<Byte>, n: nat, max: nat)
    requires n <= 4 + |p| + |tail| && s == (Frame(p) + tail)[..n] && |p| <= max && |p| < U32
    ensures !Oversized(s, max) && (HasFrame(s, max) <==> 4 + |p| <= n)
    ensures 4 + |p| <= n ==> LengthOf(s) == |p| && s[4..4 + |p|] == p && s[4 + |p|..] == tail[..n - 4 - |p|]
  {
    var whole := LE(|p|, 4) + p + tail;
    assert Frame(p) + tail == whole;
    if n >= 4 {
      assert s[..4] == LE(|p|, 4);
      FrameReads(s, p);
    }
    if 4 + |p| <= n { assert s[4..4 + |p|] == whole[4..4 + |p|] == p; }
  }

  /** Any prefix of a stream of frames is cut into its whole frames, the incomplete tail left over. */
  lemma {:induction false} CutsWholeFrames(ps: seq<PacketData>, s: seq<Byte>, n: nat, max: nat)
    requires Sendable(ps, max) && n <= |StreamOf(ps)| && s == StreamOf(ps)[..n]
    ensures var k := WholeFrames(ps, n);
      |StreamOf(ps[..k])| <= n && CutFrames(s, max) == Cut(ps[..k], s[|StreamOf(ps[..k])|..], false)
    decreases |ps|
  {
    var k := WholeFrames(ps, n);
    if |ps| == 0 {
      assert s == [];
    } else {
      var p, tail := ps[0], StreamOf(ps[1..]);
      FirstFrame(s, p, tail, n, max);
      if 4 + |p| <= n {
        var m, rest := n - 4 - |p|, s[4 + |p|..];
        CutsWholeFrames(ps[1..], rest, m, max);
        CutStep(s, p, rest, max);
        PrefixOfFrames(ps, k, s, rest);
      } else {
        assert ps[..0] == [];
      }
    }
  }

  lemma PrefixOfFrames(ps: seq<PacketData>, k: nat, s: seq<Byte>, rest: seq<Byte>)
    requires 0 < k <= |ps| && 4 + |ps[0]| <= |s| && rest == s[4 + |ps[0]|..] && |StreamOf(ps[1..][..k - 1])| <= |rest|
    ensures [ps[0]] + ps[1..][..k - 1] == ps[..k]
    ensures |StreamOf(ps[..k])| == 4 + |ps[0]| + |StreamOf(ps[1..][..k - 1])|
    ensures rest[|StreamOf(ps[1..][..k - 1])|..] == s[|StreamOf(ps[..k])|..]
  {
    assert ps[..k][1..] == ps[1..][..k - 1];
  }
}
