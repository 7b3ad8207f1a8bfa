/**
  Defragmentation (section 9.6 of IEEE Std 802.11-2012) on values: fragments of a station, the queue
  that collects them, and the frame put together from it.
 */
module DefragSpec {
  import opened Bytes

  /** A fragment number has four bits. */
  type FragNum = n: nat | n < 16

  /** A received fragment; the frame is the MAC header, the IV, the body and the ICV. */
  datatype Frag = Frag(num: FragNum, more: bool, hdrLen: nat, ivLen: nat, icvLen: nat, bytes: seq<byte>)

  function Body(f: Frag): seq<byte> {
    Pull(f.bytes, f.hdrLen + f.ivLen)
  }

  /** Each further fragment drops the ICV in front of it and adds its body. */
  function Merged(fs: seq<Frag>): seq<byte>
    requires fs != []
  {
    var n := |fs| - 1;
    if n == 0 then fs[0].bytes
    else PullTail(Merged(fs[..n]), fs[n - 1].icvLen) + Body(fs[n])
  }

  predicate Consecutive(fs: seq<Frag>) {
    forall k :: 0 <= k < |fs| ==> fs[k].num == k
  }

  /** What a station puts into one fragment. */
  datatype Part = Part(hdr: seq<byte>, iv: seq<byte>, body: seq<byte>, icv: seq<byte>)

  function Sent(p: Part, num: FragNum, more: bool): Frag {
    Frag(num, more, |p.hdr|, |p.iv|, |p.icv|, p.hdr + p.iv + p.body + p.icv)
  }

  function Fragments(ps: seq<Part>): (fs: seq<Frag>)
    requires 2 <= |ps| <= 16
    ensures |fs| == |ps|
  {
    seq(|ps|, k requires 0 <= k < |ps| => Sent(ps[k], k, k < |ps| - 1))
  }

  function Bodies(ps: seq<Part>): seq<byte> {
    if ps == [] then [] else Bodies(ps[..|ps| - 1]) + ps[|ps| - 1].body
  }

  /** The first header, all bodies in order, the last ICV. */
  function Whole(ps: seq<Part>): seq<byte>
    requires ps != []
  {
    ps[0].hdr + ps[0].iv + Bodies(ps) + ps[|ps| - 1].icv
  }

  ghost predicate Carries(f: Frag, p: Part) {
    f.hdrLen == |p.hdr| && f.ivLen == |p.iv| && f.icvLen == |p.icv| && f.bytes == p.hdr + p.iv + p.body + p.icv
  }

  lemma AddPart(w: seq<byte>, icv: seq<byte>, f: Frag, p: Part)
    requires Carries(f, p)
    ensures PullTail(w + icv, |icv|) == w
    ensures Body(f) == p.body + p.icv
  {
    Associates(p.hdr + p.iv, p.body, p.icv);
    var b := p.hdr + p.iv + (p.body + p.icv);
    assert b[|p.hdr| + |p.iv|..] == p.body + p.icv;
  }

  lemma Regroup(h: seq<byte>, a: seq<byte>, b: seq<byte>, c: seq<byte>)
    ensures h + a + (b + c) == h + (a + b) + c
  {
  }

  lemma WholeStep(ps: seq<Part>)
    requires |ps| >= 2
    ensures
      var n := |ps| - 1;
      var head := ps[0].hdr + ps[0].iv + Bodies(ps[..n]);
      Whole(ps[..n]) == head + ps[n - 1].icv && Whole(ps) == head + (ps[n].body + ps[n].icv)
  {
    var n := |ps| - 1;
    Regroup(ps[0].hdr + ps[0].iv, Bodies(ps[..n]), ps[n].body, ps[n].icv);
  }

  lemma WholeOfOne(p: Part)
    ensures Whole([p]) == p.hdr + p.iv + p.body + p.icv
  {
    assert [p][..0] == [] && Bodies([p]) == Bodies([]) + p.body == p.body;
  }

  /** Merging the fragments of a frame gives it back, all ICVs but the last removed. */
  lemma {:induction false} MergedIsWhole(fs: seq<Frag>, ps: seq<Part>)
    requires ps != [] && |fs| == |ps| && forall k :: 0 <= k < |fs| ==> Carries(fs[k], ps[k])
    ensures Merged(fs) == Whole(ps)
  {
    hide Whole, Bodies, Body, Merged, Carries, PullTail;
    var n := |fs| - 1;
    MergedUnfolds(fs);
    Lengths(fs[n], ps[n]);
    if n == 0 {
      WholeOfOne(ps[0]);
      assert ps == [ps[0]];
    } else {
      MergedIsWhole(fs[..n], ps[..n]);
      WholeStep(ps);
      Lengths(fs[n - 1], ps[n - 1]);
      AddPart(ps[0].hdr + ps[0].iv + Bodies(ps[..n]), ps[n - 1].icv, fs[n], ps[n]);
    }
  }

  lemma MergedUnfolds(fs: seq<Frag>)
    requires fs != []
    ensures
      var n := |fs| - 1;
      Merged(fs) == if n == 0 then fs[0].bytes else PullTail(Merged(fs[..n]), fs[n - 1].icvLen) + Body(fs[n])
  {
  }

  lemma Lengths(f: Frag, p: Part)
    requires Carries(f, p)
    ensures f.icvLen == |p.icv| && f.bytes == p.hdr + p.iv + p.body + p.icv
  {
  }

  // ---------------------------------------------------------------------------
  // One station's queue over time
  // ---------------------------------------------------------------------------

  predicate IsFragment(f: Frag) {
    f.more || f.num != 0
  }

  /** recvframe_chk_defrag on one queue: what it holds next, and what goes up. */
  function Arrive(q: seq<Frag>, f: Frag): (seq<Frag>, Option<seq<byte>>) {
    if !IsFragment(f) then (q, Some(f.bytes))
    else if f.more then (if f.num == 0 then [f] else q + [f], None)
    else ([], if Consecutive(q + [f]) then Some(Merged(q + [f])) else None)
  }

  function Run(q: seq<Frag>, fs: seq<Frag>): seq<Frag> {
    if fs == [] then q else Arrive(Run(q, fs[..|fs| - 1]), fs[|fs| - 1]).0
  }

  lemma RunSnoc(q: seq<Frag>, fs: seq<Frag>, f: Frag)
    ensures Run(q, fs + [f]) == Arrive(Run(q, fs), f).0
  {
    assert (fs + [f])[..|fs|] == fs;
  }

  lemma {:induction false} FrontCollects(q: seq<Frag>, fs: seq<Frag>)
    requires fs != [] && Consecutive(fs) && forall f <- fs :: f.more
    ensures Run(q, fs) == fs
  {
    var n := |fs| - 1;
    var front, last := fs[..n], fs[n];
    assert front + [last] == fs;
    RunSnoc(q, front, last);
    if n > 0 {
      FrontCollects(q, front);
    }
  }

  /** Whatever a queue held before, the fragments of a frame arriving in order give that frame. */
  lemma Reassembles(q: seq<Frag>, ps: seq<Part>)
    requires 2 <= |ps| <= 16
    ensures
      var fs, n := Fragments(ps), |ps| - 1;
      Arrive(Run(q, fs[..n]), fs[n]) == ([], Some(Whole(ps)))
  {
    hide *;
    var fs, n := Fragments(ps), |ps| - 1;
    FragmentsAre(ps);
    FrontCollects(q, fs[..n]);
    MergedIsWhole(fs, ps);
    LastArrives(fs);
  }

  lemma FragmentsAre(ps: seq<Part>)
    requires 2 <= |ps| <= 16
    ensures
      var fs, n := Fragments(ps), |ps| - 1;
      && fs != [] && fs[..n] != [] && Consecutive(fs) && Consecutive(fs[..n])
      && (forall f <- fs[..n] :: f.more) && !fs[n].more && fs[n].num != 0
      && forall k :: 0 <= k < |fs| ==> Carries(fs[k], ps[k])
  {
  }

  lemma LastArrives(fs: seq<Frag>)
    requires fs != [] && Consecutive(fs)
    requires !fs[|fs| - 1].more && fs[|fs| - 1].num != 0
    ensures Arrive(fs[..|fs| - 1], fs[|fs| - 1]) == ([], Some(Merged(fs)))
  {
    hide Merged;
    assert fs[..|fs| - 1] + [fs[|fs| - 1]] == fs;
  }

  function OnlyFragments(fs: seq<Frag>): seq<Frag> {
    if fs == [] then []
    else OnlyFragments(fs[..|fs| - 1]) + if IsFragment(fs[|fs| - 1]) then [fs[|fs| - 1]] else []
  }

  /** Unfragmented frames pass by: they go up as they came, and the queue does not see them. */
  lemma PassesBy(q: seq<Frag>, f: Frag)
    requires !f.more && f.num == 0
    ensures Arrive(q, f) == (q, Some(f.bytes))
  {
  }

  lemma {:induction false} OnlyFragmentsCount(q: seq<Frag>, fs: seq<Frag>)
    ensures Run(q, fs) == Run(q, OnlyFragments(fs))
  {
    if fs != [] {
      var n := |fs| - 1;
      OnlyFragmentsCount(q, fs[..n]);
      hide Merged, Consecutive;
      if IsFragment(fs[n]) {
        RunSnoc(q, OnlyFragments(fs[..n]), fs[n]);
      } else {
        assert OnlyFragments(fs[..n]) + [] == OnlyFragments(fs[..n]);
      }
    }
  }

  /** So the fragments of a frame give it with any unfragmented frames in between. */
  lemma ReassemblesAmong(q: seq<Frag>, fs: seq<Frag>, ps: seq<Part>)
    requires 2 <= |ps| <= 16 && OnlyFragments(fs) == Fragments(ps)[..|ps| - 1]
    ensures Arrive(Run(q, fs), Fragments(ps)[|ps| - 1]) == ([], Some(Whole(ps)))
  {
    hide *;
    OnlyFragmentsCount(q, fs);
    Reassembles(q, ps);
  }

  ghost predicate Suffix(q: seq<Frag>, fs: seq<Frag>) {
    |q| <= |fs| && q == fs[|fs| - |q|..]
  }

  lemma {:induction false} HoldsLatest(fs: seq<Frag>)
    ensures Suffix(Run([], fs), OnlyFragments(fs)) && forall f <- Run([], fs) :: f.more
  {
    if fs != [] {
      HoldsLatest(fs[..|fs| - 1]);
    }
  }

  /** A queue could not reach further back: in front of it in the history is nothing, or the end of another
      frame, or it begins with the first fragment of one. */
  ghost predicate ReachesBack(q: seq<Frag>, fs: seq<Frag>) {
    && Suffix(q, fs) && (forall k :: 0 <= k < |q| ==> q[k].more && (k > 0 ==> q[k].num != 0))
    && (|q| < |fs| ==> (q != [] && q[0].num == 0) || !fs[|fs| - |q| - 1].more)
  }

  /** What a queue holds, exactly: the fragments since the last one that began or ended a frame. */
  lemma {:induction false} HoldsExactly(fs: seq<Frag>)
    ensures ReachesBack(Run([], fs), OnlyFragments(fs))
  {
    if fs != [] {
      var n := |fs| - 1;
      HoldsExactly(fs[..n]);
      hide Merged, Consecutive;
      HoldsStep(Run([], fs[..n]), OnlyFragments(fs[..n]), fs[n]);
    }
  }

  lemma HoldsStep(q: seq<Frag>, fs: seq<Frag>, f: Frag)
    requires ReachesBack(q, fs)
    ensures ReachesBack(Arrive(q, f).0, fs + if IsFragment(f) then [f] else [])
  {
    hide Merged, Consecutive;
    if !IsFragment(f) {
      assert fs + [] == fs;
    } else if f.more && f.num != 0 {
      HoldsOneMore(q, fs, f);
    } else {
      HoldsAnew(fs, f);
    }
  }

  lemma HoldsOneMore(q: seq<Frag>, fs: seq<Frag>, f: Frag)
    requires ReachesBack(q, fs) && f.more && f.num != 0
    ensures ReachesBack(q + [f], fs + [f])
  {
    SuffixGrows(q, fs, f);
    hide Suffix;
    assert |q| < |fs| ==> (fs + [f])[|fs| - |q| - 1] == fs[|fs| - |q| - 1];
  }

  lemma HoldsAnew(fs: seq<Frag>, f: Frag)
    requires f.more ==> f.num == 0
    ensures ReachesBack(if f.more then [f] else [], fs + [f])
  {
    var more := fs + [f];
    assert more[|fs|] == f && more[|fs|..] == [f] && more[|more|..] == [];
  }

  /** No two queues reach so far. */
  lemma OneReachesBack(p: seq<Frag>, q: seq<Frag>, fs: seq<Frag>)
    requires ReachesBack(p, fs) && ReachesBack(q, fs)
    ensures p == q
  {
  }

  /** Nothing else goes up: a merged frame is made of the latest fragments, with none in between,
      numbered 0, 1, .. up to the one that has no more behind it. */
  lemma MergesLatest(fs: seq<Frag>, f: Frag)
    requires IsFragment(f) && Arrive(Run([], fs), f).1.Some?
    ensures
      var q := Run([], fs) + [f];
      && Suffix(q, OnlyFragments(fs) + [f]) && Consecutive(q) && |q| >= 2
      && Arrive(Run([], fs), f).1 == Some(Merged(q))
      && forall k :: 0 <= k < |q| ==> q[k].num == k && (q[k].more <==> k < |q| - 1)
  {
    HoldsLatest(fs);
    var q := Run([], fs);
    hide Run, OnlyFragments, Merged;
    assert forall k :: 0 <= k < |q| ==> (q + [f])[k] == q[k] && q[k] in q;
    assert (q + [f])[|q|] == f;
    SuffixGrows(q, OnlyFragments(fs), f);
  }

  lemma SuffixGrows(q: seq<Frag>, fs: seq<Frag>, f: Frag)
    requires Suffix(q, fs)
    ensures Suffix(q + [f], fs + [f])
  {
  }
}
