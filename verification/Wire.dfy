/** Results and errors of the wire decoders, and the overlay of bytes on a buffer. */
module Wire {
  import opened Bytes

  datatype WireError =
    | Short(need: nat, got: nat)
    | BadEndian(value: nat)
    | BadName
    | TooManyEntries(count: nat)
    | TooManyFields(count: nat)
    | PayloadOob(offset: nat, size: nat, buf: nat)
    | UnknownType(value: nat)

  datatype Option<+T> = None | Some(value: T)

  datatype Result<+T> = Ok(value: T) | Err(error: WireError)
  {
    predicate IsFailure() { Err? }

    function PropagateFailure<U>(): Result<U>
      requires Err?
    {
      Err(error)
    }

    function Extract(): T
      requires Ok?
    {
      value
    }
  }

  /** `s` with `b` written over it at `off`. */
  function Overlay<T>(s: seq<T>, off: nat, b: seq<T>): (r: seq<T>)
    requires off + |b| <= |s|
    ensures |r| == |s|
    ensures forall k :: 0 <= k < |s| ==> r[k] == if off <= k < off + |b| then b[k - off] else s[k]
  {
    seq(|s|, k requires 0 <= k < |s| => if off <= k < off + |b| then b[k - off] else s[k])
  }

  lemma OverlayInside<T>(s: seq<T>, off: nat, b: seq<T>)
    requires off + |b| <= |s|
    ensures Overlay(s, off, b)[off..off + |b|] == b
  {
  }

  lemma OverlayOutside<T>(s: seq<T>, off: nat, b: seq<T>, i: nat, j: nat)
    requires off + |b| <= |s| && i <= j <= |s|
    requires j <= off || off + |b| <= i
    ensures Overlay(s, off, b)[i..j] == s[i..j]
  {
  }

  lemma OverlayNext<T>(s: seq<T>, lo: nat, hi: nat, b: seq<T>, done: seq<T>)
    requires lo <= hi && hi + |b| <= |s| && s[lo..hi] == done
    ensures Overlay(s, hi, b)[lo..hi + |b|] == done + b
  {
    OverlayOutside(s, hi, b, lo, hi);
    OverlayInside(s, hi, b);
    JoinSlices(Overlay(s, hi, b), lo, hi, hi + |b|);
  }

  lemma JoinSlices<T>(s: seq<T>, a: nat, b: nat, c: nat)
    requires a <= b <= c <= |s|
    ensures s[a..c] == s[a..b] + s[b..c]
  {
  }

  /** memcpy into a caller buffer. */
  method Put(buf: array<Byte>, off: nat, b: seq<Byte>)
    requires off + |b| <= buf.Length
    modifies buf
    ensures buf[..] == Overlay(old(buf[..]), off, b)
  {
    var i := 0;
    while i < |b|
      invariant 0 <= i <= |b|
      invariant forall k :: 0 <= k < buf.Length ==> buf[k] == if off <= k < off + i then b[k - off] else old(buf[k])
    {
      buf[off + i] := b[i];
      i := i + 1;
    }
  }

  /** memmove within one buffer. */
  method Move(buf: array<Byte>, dst: nat, src: nat, n: nat)
    requires dst + n <= buf.Length && src + n <= buf.Length
    modifies buf
    ensures buf[..] == Overlay(old(buf[..]), dst, old(buf[src..src + n]))
  {
    forall i | 0 <= i < n {
      buf[dst + i] := buf[src + i];
    }
  }
}
