/** What the modules on buffers and lists of bytes share. */
module Bytes {

  type byte = x: nat | x < 256

  datatype Option<T> = None | Some(value: T)

  /** memcpy within one buffer, closing the gap [at, at + n) below `end`.  The source copies through
      a spare buffer, or forwards onto a lower address. */
  method CloseGap(a: array<byte>, at: nat, n: nat, end: nat)
    requires at + n <= end <= a.Length
    modifies a
    ensures a[..end - n] == old(a[..at]) + old(a[at + n..end])
    ensures a[end - n..] == old(a[end - n..])
  {
    ghost var was := a[..];
    var i := at;
    while i < end - n
      invariant at <= i <= end - n
      invariant GapClosed(was, a[..], at, n, i)
    {
      ghost var b := a[..];
      a[i] := a[i + n];
      assert a[..] == b[i := b[i + n]];
      GapStep(was, b, at, n, i);
      i := i + 1;
    }
    GapIsClosed(was, a[..], at, n, end);
  }

  /** The bytes from `at` up to `i` have moved up by `n`, the others are as they were. */
  ghost predicate GapClosed(was: seq<byte>, b: seq<byte>, at: nat, n: nat, i: nat) {
    && |b| == |was| && at <= i && i + n <= |b|
    && forall k :: 0 <= k < |b| ==> b[k] == was[if at <= k < i then k + n else k]
  }

  lemma GapStep(was: seq<byte>, b: seq<byte>, at: nat, n: nat, i: nat)
    requires GapClosed(was, b, at, n, i) && i + n < |b|
    ensures GapClosed(was, b[i := b[i + n]], at, n, i + 1)
  {
  }

  lemma GapIsClosed(was: seq<byte>, b: seq<byte>, at: nat, n: nat, end: nat)
    requires at + n <= end && end <= |b| && GapClosed(was, b, at, n, end - n)
    ensures b[..end - n] == was[..at] + was[at + n..end] && b[end - n..] == was[end - n..]
  {
  }

  /** memset to zero. */
  method Zero(a: array<byte>, from: nat, to: nat)
    requires from <= to <= a.Length
    modifies a
    ensures a[..from] == old(a[..from]) && a[to..] == old(a[to..])
    ensures a[from..to] == Zeros(to - from)
  {
    forall k | from <= k < to {
      a[k] := 0;
    }
  }

  function Zeros(n: nat): (z: seq<byte>)
    ensures |z| == n && forall k :: 0 <= k < n ==> z[k] == 0
  {
    seq(n, _ => 0)
  }

  /** recvframe_pull: drops `n` bytes from the front of a frame, or none if it is not that long. */
  function Pull(b: seq<byte>, n: nat): seq<byte> {
    if n <= |b| then b[n..] else b
  }

  /** recvframe_pull_tail: the same at the end. */
  function PullTail(b: seq<byte>, n: nat): seq<byte> {
    if n <= |b| then b[..|b| - n] else b
  }

  lemma Slice<T>(b: seq<T>, start: nat, end: nat, lo: nat, hi: nat)
    requires start <= end <= |b| && lo <= hi <= end - start
    ensures b[start..end][lo..hi] == b[start + lo..start + hi]
  {
    forall i | 0 <= i < hi - lo ensures b[start..end][lo..hi][i] == b[start + lo..start + hi][i] {
    }
  }

  lemma Adjacent<T>(b: seq<T>, lo: nat, mid: nat, hi: nat)
    requires lo <= mid <= hi <= |b|
    ensures b[lo..hi] == b[lo..mid] + b[mid..hi]
  {
  }

  lemma Associates<T>(a: seq<T>, b: seq<T>, c: seq<T>)
    ensures a + (b + c) == a + b + c
  {
  }

  lemma ThreeParts<T>(a: seq<T>, b: seq<T>, c: seq<T>)
    ensures
      var s := a + b + c;
      s[..|a|] == a && s[|a|..|a| + |b|] == b && s[|a| + |b|..] == c
  {
  }
}
