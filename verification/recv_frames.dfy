/**
  The pool of receive frames and the queues they travel through (core/rtw_recv.c): a frame's node is
  linked into at most one list; frames move from the free queue to a receiver and back, or wait in a
  station's queue for the rest of their fragments.
 */
module RecvFrames {
  import opened Bytes
  import opened DefragSpec
  import opened Lists

  const NR_RECVFRAME := 256

  datatype QueueId = FreeQ | PendingQ | DefragQ(ta: nat) | BcmcDefragQ

  // ---------------------------------------------------------------------------
  // Lists and the nodes linked into them
  // ---------------------------------------------------------------------------

  /** Every node is in exactly the list it is linked into, once; the counter counts the free queue. */
  ghost predicate Sound<T>(queues: map<QueueId, seq<T>>, home: map<T, QueueId>, cnt: int) {
    && FreeQ in queues && cnt == |queues[FreeQ]|
    && (forall k <- queues :: NoDup(queues[k]) && forall f <- queues[k] :: f in home && home[f] == k)
    && (forall f <- home :: home[f] in queues && f in queues[home[f]])
  }

  predicate IsFree<T(==)>(home: map<T, QueueId>, f: T) {
    f in home && home[f] == FreeQ
  }

  function Unlinked<T(==)>(queues: map<QueueId, seq<T>>, home: map<T, QueueId>, f: T): map<QueueId, seq<T>>
    requires f in home ==> home[f] in queues
  {
    if f in home then queues[home[f] := Drop(queues[home[f]], f)] else queues
  }

  function Linked<T>(queues: map<QueueId, seq<T>>, k: QueueId, f: T): map<QueueId, seq<T>>
    requires k in queues
  {
    queues[k := queues[k] + [f]]
  }

  lemma SoundUnlinked<T>(queues: map<QueueId, seq<T>>, home: map<T, QueueId>, cnt: int, f: T)
    requires Sound(queues, home, cnt)
    ensures
      Sound(Unlinked(queues, home, f), home - {f}, if IsFree(home, f) then cnt - 1 else cnt)
  {
    if f in home {
      var k := home[f];
      DropOne(queues[k], f);
      hide Drop, NoDup;
    } else {
      assert home - {f} == home;
    }
  }

  lemma SoundLinked<T>(queues: map<QueueId, seq<T>>, home: map<T, QueueId>, cnt: int, k: QueueId, f: T)
    requires Sound(queues, home, cnt) && k in queues && f !in home
    ensures Sound(Linked(queues, k, f), home[f := k], if k == FreeQ then cnt + 1 else cnt)
  {
    var q := queues[k];
    assert f !in q;
    assert NoDup(q + [f]);
    hide NoDup;
    assert forall x :: x in q + [f] <==> x in q || x == f;
  }

  /** Moving a frame to the tail of a queue: the counter is one too high if the frame came from the free
      queue, and all is in order exactly if it did not. */
  lemma SoundMoved<T>(queues: map<QueueId, seq<T>>, home: map<T, QueueId>, cnt: int, k: QueueId, f: T)
    requires Sound(queues, home, cnt) && k in queues
    ensures f in home ==> home[f] in queues
    ensures k in Unlinked(queues, home, f) && FreeQ in queues
    ensures
      var after, c := Linked(Unlinked(queues, home, f), k, f), if k == FreeQ then cnt + 1 else cnt;
      && FreeQ in after && c == |after[FreeQ]| + (if IsFree(home, f) then 1 else 0)
      && (Sound(after, (home - {f})[f := k], c) <==> !IsFree(home, f))
  {
    SoundUnlinked(queues, home, cnt, f);
    assert f !in home - {f};
    var c := if IsFree(home, f) then cnt - 1 else cnt;
    SoundLinked(Unlinked(queues, home, f), home - {f}, c, k, f);
    var after := Linked(Unlinked(queues, home, f), k, f);
    hide Unlinked, Linked, NoDup;
    assert |after[FreeQ]| == if k == FreeQ then c + 1 else c;
  }

  /** The frame is at the tail of its queue, and in no other; nothing else has moved. */
  ghost predicate AtTail<T>(before: map<QueueId, seq<T>>, after: map<QueueId, seq<T>>,
                                  home: map<T, QueueId>, k: QueueId, f: T)
  {
    && after.Keys == before.Keys
    && forall j <- after ::
         var rest := if f in home && home[f] == j then Drop(before[j], f) else before[j];
         after[j] == if j == k then rest + [f] else rest
  }

  lemma LinkedAtTail<T>(queues: map<QueueId, seq<T>>, home: map<T, QueueId>, k: QueueId, f: T)
    requires k in queues && (f in home ==> home[f] in queues)
    ensures AtTail(queues, Linked(Unlinked(queues, home, f), k, f), home, k, f)
  {
    hide Drop;
  }

  lemma NotFirst(vals: seq<Frag>)
    requires vals != []
    ensures Consecutive(vals) ==> vals[0].num == 0
  {
  }

  lemma FirstLeaves<T>(queues: map<QueueId, seq<T>>, home: map<T, QueueId>, k: QueueId)
    requires k in queues && queues[k] != [] && queues[k][0] in home && home[queues[k][0]] == k
    ensures Unlinked(queues, home, queues[k][0]) == queues[k := queues[k][1..]]
  {
  }

  /** Queue `k` is emptied and the frames `gone` go to the tail of the free queue. */
  function Emptied<T>(queues: map<QueueId, seq<T>>, k: QueueId, gone: seq<T>): map<QueueId, seq<T>>
    requires FreeQ in queues
  {
    queues[k := []][FreeQ := queues[FreeQ] + gone]
  }

  /** So one queue is empty, what is gone stands in order at the tail of the free queue, and no other queue
      has changed. */
  lemma EmptiedIs<T>(queues: map<QueueId, seq<T>>, k: QueueId, gone: seq<T>)
    requires FreeQ in queues && k in queues && k != FreeQ
    ensures
      var after := Emptied(queues, k, gone);
      && after.Keys == queues.Keys && after[k] == [] && after[FreeQ] == queues[FreeQ] + gone
      && forall j <- after :: j != k && j != FreeQ ==> after[j] == queues[j]
  {
  }

  lemma EmptiedLater<T>(queues: map<QueueId, seq<T>>, k: QueueId, rest: seq<T>, gone: seq<T>)
    requires FreeQ in queues && k != FreeQ
    ensures Emptied(queues[k := rest], k, gone) == Emptied(queues, k, gone)
  {
  }

  lemma EmptiedAfterFree<T>(queues: map<QueueId, seq<T>>, home: map<T, QueueId>, k: QueueId, f: T, gone: seq<T>)
    requires FreeQ in queues && f !in home && k in queues && k != FreeQ
    ensures
      var freed := Linked(Unlinked(queues, home, f), FreeQ, f);
      && FreeQ in freed && k in freed && freed[k] == queues[k]
      && Emptied(freed, k, gone) == Emptied(queues, k, [f] + gone)
  {
    Associates(queues[FreeQ], [f], gone);
  }

  /** The first `n` frames of queue `k` moved to the tail of the free queue. */
  function Moved<T>(queues: map<QueueId, seq<T>>, k: QueueId, n: nat): map<QueueId, seq<T>>
    requires k in queues && FreeQ in queues && n <= |queues[k]|
  {
    queues[k := queues[k][n..]][FreeQ := queues[FreeQ] + queues[k][..n]]
  }

  lemma MovedEnds<T>(queues: map<QueueId, seq<T>>, k: QueueId)
    requires k in queues && k != FreeQ && FreeQ in queues
    ensures Moved(queues, k, 0) == queues
    ensures Moved(queues, k, |queues[k]|) == Emptied(queues, k, queues[k])
  {
    var q := queues[k];
    assert q[0..] == q && q[..0] == [] && queues[FreeQ] + [] == queues[FreeQ] && q[|q|..] == [] && q[..|q|] == q;
  }

  lemma MovedAt<T>(queues: map<QueueId, seq<T>>, k: QueueId, n: nat)
    requires k in queues && k != FreeQ && FreeQ in queues && n <= |queues[k]|
    ensures k in Moved(queues, k, n) && Moved(queues, k, n)[k] == queues[k][n..]
  {
  }

  lemma MovedStep<T>(queues: map<QueueId, seq<T>>, k: QueueId, n: nat, home: map<T, QueueId>)
    requires k in queues && k != FreeQ && FreeQ in queues && n < |queues[k]|
    requires queues[k][n] in home && home[queues[k][n]] == k
    ensures
      var f := queues[k][n];
      Linked(Unlinked(Moved(queues, k, n), home, f), FreeQ, f) == Moved(queues, k, n + 1)
  {
    var q := queues[k];
    assert q[n..][0] == q[n] && q[n..][1..] == q[n + 1..];
    assert queues[FreeQ] + q[..n] + [q[n]] == queues[FreeQ] + q[..n + 1];
  }

  // ---------------------------------------------------------------------------
  // Frames and queues
  // ---------------------------------------------------------------------------

  /** `bytes` are those from rx_data on, hdr.len of them. */
  class RecvFrame {
    const num: FragNum
    const more: bool
    const hdrLen: nat
    const ivLen: nat
    const privacy: bool
    var icvLen: nat
    var bytes: seq<byte>

    constructor (v: Frag, privacy: bool)
      ensures Val() == v && this.privacy == privacy
    {
      num, more, hdrLen, ivLen := v.num, v.more, v.hdrLen, v.ivLen;
      icvLen, bytes, this.privacy := v.icvLen, v.bytes, privacy;
    }

    function Val(): Frag
      reads this
    {
      Frag(num, more, hdrLen, ivLen, icvLen, bytes)
    }
  }

  ghost function Vals(q: seq<RecvFrame>): (vs: seq<Frag>)
    reads q
    ensures |vs| == |q|
  {
    seq(|q|, i requires 0 <= i < |q| reads q => q[i].Val())
  }

  lemma ValsFrom(q: seq<RecvFrame>)
    requires q != []
    ensures [q[0].Val()] + Vals(q[1..]) == Vals(q) && [q[0]] + q[1..] == q
    ensures |Vals(q)| == |q| && Vals(q)[|q| - 1].icvLen == q[|q| - 1].icvLen
  {
  }

  /** The first `i` of the remaining fragments are merged into the first; the others are as they came. */
  ghost predicate Merging(first: RecvFrame, rest: seq<RecvFrame>, vals: seq<Frag>, i: nat)
    reads first, rest
  {
    && i <= |rest| && |vals| == |rest| + 1 && first !in rest && NoDup(rest)
    && Consecutive(vals[..i + 1])
    && first.bytes == Merged(vals[..i + 1]) && first.icvLen == vals[i].icvLen
    && forall j :: i <= j < |rest| ==> rest[j].Val() == vals[j + 1]
  }

  lemma StartMerging(first: RecvFrame, rest: seq<RecvFrame>)
    requires NoDup(rest) && first !in rest && first.num == 0
    ensures Merging(first, rest, [first.Val()] + Vals(rest), 0)
  {
    var vals := [first.Val()] + Vals(rest);
    assert vals[..1] == [vals[0]];
  }

  lemma NextIs(first: RecvFrame, rest: seq<RecvFrame>, vals: seq<Frag>, i: nat)
    requires Merging(first, rest, vals, i) && i < |rest|
    ensures i + 1 <= 16 && |vals| == |rest| + 1 && rest[i].num == vals[i + 1].num
    ensures rest[i].num != i + 1 ==> !Consecutive(vals)
  {
    assert vals[..i + 1][i].num == vals[i].num;
  }

  lemma AllMerged(first: RecvFrame, rest: seq<RecvFrame>, vals: seq<Frag>)
    requires Merging(first, rest, vals, |rest|)
    ensures vals != [] && Consecutive(vals) && first.bytes == Merged(vals)
    ensures first.icvLen == vals[|vals| - 1].icvLen
  {
    assert vals[..|rest| + 1] == vals;
  }

  /** One further fragment goes in: the ICV in front of it off, its header and IV off. */
  method MergeNext(first: RecvFrame, rest: seq<RecvFrame>, i: nat, ghost vals: seq<Frag>)
    requires Merging(first, rest, vals, i) && i < |rest| && rest[i].num == i + 1
    modifies first, rest[i]
    ensures Merging(first, rest, vals, i + 1)
  {
    var next := rest[i];
    MergedStep(vals, i + 1);
    hide Merged, Consecutive;
    assert next.Val() == vals[i + 1];
    next.bytes := Pull(next.bytes, next.hdrLen + next.ivLen);
    first.bytes := PullTail(first.bytes, first.icvLen);
    first.bytes := first.bytes + next.bytes;
    first.icvLen := next.icvLen;
  }

  /** The fragments of `rest` are merged into the first one, as long as they are in order. */
  method MergeFragments(first: RecvFrame, rest: seq<RecvFrame>, ghost vals: seq<Frag>) returns (whole: bool)
    requires Merging(first, rest, vals, 0)
    modifies first, rest
    ensures whole <==> Consecutive(vals)
    ensures whole ==> vals != [] && first.bytes == Merged(vals) && first.icvLen == vals[|vals| - 1].icvLen
  {
    hide Merging, Merged, Consecutive;
    var curFragNum := 1;
    var i := 0;
    while i < |rest|
      invariant 0 <= i <= |rest| && curFragNum == i + 1
      invariant Merging(first, rest, vals, i)
    {
      NextIs(first, rest, vals, i);
      if curFragNum != rest[i].num {
        return false;
      }
      curFragNum := curFragNum + 1;
      MergeNext(first, rest, i, vals);
      i := i + 1;
    }
    AllMerged(first, rest, vals);
    whole := true;
  }

  lemma MergedStep(vals: seq<Frag>, n: nat)
    requires 0 < n < |vals|
    ensures Merged(vals[..n + 1]) == PullTail(Merged(vals[..n]), vals[n - 1].icvLen) + Body(vals[n])
    ensures Consecutive(vals[..n]) && vals[n].num == n ==> Consecutive(vals[..n + 1])
  {
    hide PullTail, Body, Consecutive;
    var more := vals[..n + 1];
    assert |more| == n + 1 && more[..n] == vals[..n] && more[n] == vals[n] && more[n - 1] == vals[n - 1];
    ConsecutiveGrows(vals, n);
  }

  lemma ConsecutiveGrows(vals: seq<Frag>, n: nat)
    requires n < |vals|
    ensures Consecutive(vals[..n]) && vals[n].num == n ==> Consecutive(vals[..n + 1])
  {
  }

  /** Besides queue `k`, only the free queue differs. */
  ghost predicate OnlyChanged<T>(before: map<QueueId, seq<T>>, after: map<QueueId, seq<T>>, k: Option<QueueId>) {
    before.Keys == after.Keys && forall j <- before :: j != FreeQ && k != Some(j) ==> after[j] == before[j]
  }

  function Head<T>(q: seq<T>, other: T): T {
    if q == [] then other else q[0]
  }

  /** Frame `f` came in; `r` is handed on and every other frame is in a queue. */
  ghost predicate InHand<T>(before: set<T>, after: set<T>, f: T, r: T) {
    after == before + {f} - {r}
  }

  class RecvPriv {
    var queues: map<QueueId, seq<RecvFrame>>
    /** The list a frame's node is linked into, if any. */
    var home: map<RecvFrame, QueueId>
    var freeRecvframeCnt: int

    ghost predicate Valid()
      reads this
    {
      Sound(queues, home, freeRecvframeCnt)
    }

    /** _rtw_init_recv_priv: all frames start in the free queue. */
    constructor (frames: seq<RecvFrame>, stations: set<nat>)
      requires |frames| == NR_RECVFRAME && NoDup(frames)
      ensures Valid() && queues[FreeQ] == frames && freeRecvframeCnt == NR_RECVFRAME
      ensures forall k <- queues :: k != FreeQ ==> queues[k] == []
      ensures forall s <- stations :: DefragQ(s) in queues
    {
      queues := (map s <- stations :: DefragQ(s) := [])[PendingQ := []][BcmcDefragQ := []][FreeQ := frames];
      home := map f <- frames :: FreeQ;
      freeRecvframeCnt := NR_RECVFRAME;
    }

    /** list_del_init */
    method ListDel(f: RecvFrame)
      requires f in home ==> home[f] in queues
      modifies `queues, `home
      ensures queues == Unlinked(old(queues), old(home), f) && home == old(home) - {f}
    {
      if f in home {
        queues := queues[home[f] := Drop(queues[home[f]], f)];
      }
      home := home - {f};
    }

    /** list_add_tail */
    method ListAddTail(f: RecvFrame, k: QueueId)
      requires k in queues
      modifies `queues, `home
      ensures queues == Linked(old(queues), k, f) && home == old(home)[f := k]
    {
      queues := queues[k := queues[k] + [f]];
      home := home[f := k];
    }

    /** _rtw_alloc_recvframe */
    method AllocRecvframe(k: QueueId) returns (f: RecvFrame?)
      requires Valid() && k in queues
      modifies `queues, `home, `freeRecvframeCnt
      ensures Valid()
      ensures f == null <==> old(queues[k]) == []
      ensures f == null ==> queues == old(queues)
      ensures f != null ==> f == old(queues[k][0]) && queues == old(queues)[k := old(queues[k])[1..]] && f !in home
      ensures home.Keys == old(home.Keys) - {f}
    {
      f := null;
      if queues[k] != [] {
        f := queues[k][0];
        SoundUnlinked(queues, home, freeRecvframeCnt, f);
        ListDel(f);
        if k == FreeQ {
          freeRecvframeCnt := freeRecvframeCnt - 1;
        }
      }
    }

    /** _rtw_enqueue_recvframe: the frame leaves the list it is in, if any.  All stays in order exactly if
        it was not in the free queue, which the counter would go on counting. */
    method EnqueueRecvframe(f: RecvFrame, k: QueueId)
      requires Valid() && k in queues
      modifies `queues, `home, `freeRecvframeCnt
      ensures Valid() <==> !IsFree(old(home), f)
      ensures FreeQ in queues && freeRecvframeCnt == |queues[FreeQ]| + if IsFree(old(home), f) then 1 else 0
      ensures home == (old(home) - {f})[f := k]
      ensures queues == Linked(Unlinked(old(queues), old(home), f), k, f)
      ensures AtTail(old(queues), queues, old(home), k, f)
    {
      SoundMoved(queues, home, freeRecvframeCnt, k, f);
      LinkedAtTail(queues, home, k, f);
      hide Sound, Linked, Unlinked, AtTail;
      ListDel(f);
      ListAddTail(f, k);
      if k == FreeQ {
        freeRecvframeCnt := freeRecvframeCnt + 1;
      }
    }

    /** rtw_free_recvframe.  All stays in order exactly if the frame was not free already: it would be
        counted once more. */
    method FreeRecvframe(f: RecvFrame)
      requires Valid()
      modifies `queues, `home, `freeRecvframeCnt, f`bytes
      ensures Valid() <==> !IsFree(old(home), f)
      ensures FreeQ in queues && freeRecvframeCnt == |queues[FreeQ]| + if IsFree(old(home), f) then 1 else 0
      ensures home == (old(home) - {f})[f := FreeQ]
      ensures queues == Linked(Unlinked(old(queues), old(home), f), FreeQ, f)
      ensures AtTail(old(queues), queues, old(home), FreeQ, f)
      ensures f.bytes == []
    {
      SoundMoved(queues, home, freeRecvframeCnt, FreeQ, f);
      LinkedAtTail(queues, home, FreeQ, f);
      hide Sound, Linked, Unlinked, AtTail;
      ListDel(f);
      f.bytes := [];
      ListAddTail(f, FreeQ);
      freeRecvframeCnt := freeRecvframeCnt + 1;
    }

    /** rtw_free_recvframe_queue: a whole queue goes to the tail of the free queue, in order. */
    method FreeRecvframeQueue(k: QueueId)
      requires Valid() && k in queues && k != FreeQ
      modifies `queues, `home, `freeRecvframeCnt, queues[k]
      ensures Valid() && home.Keys == old(home.Keys)
      ensures queues == Emptied(old(queues), k, old(queues[k]))
    {
      hide Moved, Emptied, Linked, Unlinked, Drop, AtTail;
      ghost var all, q := queues, queues[k];
      ghost var n := 0;
      MovedEnds(all, k);
      while queues[k] != []
        invariant Valid() && n <= |q| && home.Keys == old(home.Keys)
        invariant k in queues && queues == Moved(all, k, n) && queues[k] == q[n..]
        decreases |q| - n
      {
        assert queues[k][0] == q[n];
        MovedStep(all, k, n, home);
        MovedAt(all, k, n + 1);
        FreeRecvframe(queues[k][0]);
        n := n + 1;
      }
    }

    /** recvframe_defrag: returns a frame exactly if the queue holds fragments 0, 1, .. in order, and then
        the first one, with everything merged into it. */
    method RecvframeDefrag(k: QueueId) returns (r: RecvFrame?)
      requires Valid() && k in queues && k != FreeQ && queues[k] != []
      modifies `queues, `home, `freeRecvframeCnt, queues[k]
      ensures Valid()
      ensures r == null <==> !Consecutive(old(Vals(queues[k])))
      ensures r == null ==>
                && queues == Emptied(old(queues), k, old(queues[k]))
                && home.Keys == old(home.Keys)
      ensures r != null ==>
                && r == old(queues[k][0]) && r.bytes == Merged(old(Vals(queues[k])))
                && r.icvLen == old(queues[k][|queues[k]| - 1].icvLen)
                && queues == Emptied(old(queues), k, old(queues[k])[1..])
                && home.Keys == old(home.Keys) - {r}
    {
      hide *;
      ghost var all, q := queues, queues[k];
      var first := queues[k][0];
      ghost var vals := Vals(queues[k]);
      ValsFrom(q);
      TakeFirst(k, first);
      EmptiedLater(all, k, q[1..], q);
      EmptiedLater(all, k, q[1..], q[1..]);
      r := DefragFrom(k, first, vals);
    }

    method DefragFrom(k: QueueId, first: RecvFrame, ghost vals: seq<Frag>) returns (r: RecvFrame?)
      requires Valid() && k in queues && k != FreeQ && NoDup(queues[k]) && first !in queues[k] && first !in home
      requires vals == [first.Val()] + Vals(queues[k])
      modifies `queues, `home, `freeRecvframeCnt, first, queues[k]
      ensures Valid() && (r == null <==> !Consecutive(vals))
      ensures r != null ==> r == first && r.bytes == Merged(vals) && r.icvLen == vals[|vals| - 1].icvLen
      ensures queues == Emptied(old(queues), k, if r == null then [first] + old(queues[k]) else old(queues[k]))
      ensures home.Keys == old(home.Keys) + if r == null then {first} else {}
    {
      hide Sound, Merging, Consecutive, Vals, Merged, Emptied, NoDup;
      NotFirst(vals);
      var whole := first.num == 0;
      if whole {
        StartMerging(first, queues[k]);
        whole := MergeFragments(first, queues[k], vals);
      }
      if whole {
        FreeRecvframeQueue(k);
        r := first;
      } else {
        GiveUp(k, first);
        r := null;
      }
    }

    /** The first fragment leaves its queue. */
    method TakeFirst(k: QueueId, first: RecvFrame)
      requires Valid() && k in queues && k != FreeQ && queues[k] != [] && first == queues[k][0]
      modifies `queues, `home
      ensures Valid() && queues == old(queues)[k := old(queues)[k][1..]] && home.Keys + {first} == old(home.Keys)
      ensures FreeQ in old(queues) && FreeQ in queues && NoDup(queues[k]) && first !in queues[k] && first !in home
    {
      SoundUnlinked(queues, home, freeRecvframeCnt, first);
      FirstLeaves(queues, home, k);
      ListDel(first);
    }

    /** The fragments do not fit together: the first one and the rest of the queue are released. */
    method GiveUp(k: QueueId, first: RecvFrame)
      requires Valid() && k in queues && k != FreeQ && first !in home
      modifies `queues, `home, `freeRecvframeCnt, first, queues[k]
      ensures Valid() && home.Keys == old(home.Keys) + {first}
      ensures queues == Emptied(old(queues), k, [first] + old(queues[k]))
    {
      EmptiedAfterFree(queues, home, k, first, queues[k]);
      hide Sound, Linked, Unlinked, Drop, Emptied, AtTail;
      FreeRecvframe(first);
      FreeRecvframeQueue(k);
    }

    /** A fragment with more behind it waits in its station's queue; a first one finds it empty. */
    method QueueFragment(k: QueueId, f: RecvFrame)
      requires Valid() && f !in home && k in queues && k != FreeQ && f.more
      modifies `queues, `home, `freeRecvframeCnt, queues[k]
      ensures Valid() && home.Keys == old(home.Keys) + {f} && OnlyChanged(old(queues), queues, Some(k))
      ensures Arrive(old(Vals(queues[k])), old(f.Val())) == (Vals(queues[k]), None)
      ensures queues[k] == (if f.num == 0 then [] else old(queues[k])) + [f]
    {
      ghost var all, vals, val := queues, Vals(queues[k]), f.Val();
      ArriveMore(vals, val);
      assert FreeQ in all && (f.num == 0 && queues[k] == [] ==> vals == []);
      assert forall q: seq<RecvFrame> :: q == [] ==> Vals(q) == [];
      hide Sound, NoDup, Emptied, Linked, OnlyChanged, Vals, Arrive;
      if f.num == 0 && queues[k] != [] {
        EmptiedOnly(all, k, queues[k], queues[k]);
        assert all[k := queues[k]] == all;
        FreeRecvframeQueue(k);
      } else {
        NothingChanged(all, Some(k));
      }
      StillOnly(all, queues, k, f);
      AppendLast(k, f);
      assert [] + [val] == [val];
    }

    /** The last fragment: the frame is put together, if the queue holds all of it. */
    method FinishFragments(k: QueueId, f: RecvFrame) returns (r: RecvFrame?)
      requires Valid() && f !in home && k in queues && k != FreeQ && !f.more && f.num != 0
      modifies `queues, `home, `freeRecvframeCnt, f, queues[k]
      ensures Valid() && OnlyChanged(old(queues), queues, Some(k))
      ensures InHand(old(home.Keys), home.Keys, f, r)
      ensures
        var (next, up) := Arrive(old(Vals(queues[k])), old(f.Val()));
        && Vals(queues[k]) == next && (r == null <==> up == None)
        && (r != null ==> old(queues[k]) != [] && r == old(queues[k][0]) && up == Some(r.bytes))
    {
      hide Sound, Vals, Consecutive, Merged, Emptied, OnlyChanged, Arrive, NoDup;
      ghost var all, q, vals, val := queues, queues[k], Vals(queues[k]), f.Val();
      ArriveLast(vals, val);
      AppendLast(k, f);
      ghost var more := q + [f];
      assert q != [] ==> more[0] == q[0];
      r := RecvframeDefrag(k);
      EmptiedOnly(all, k, more, if r == null then more else more[1..]);
    }

    /** A frame in hand is released: a fragment of a sender without a queue, or one with a wrong MIC. */
    method FreeStray(f: RecvFrame)
      requires Valid() && f !in home
      modifies `queues, `home, `freeRecvframeCnt, f`bytes
      ensures Valid() && OnlyChanged(old(queues), queues, None) && InHand(old(home.Keys), home.Keys, f, null)
      ensures forall k <- queues :: k != FreeQ ==> Vals(queues[k]) == old(Vals(queues[k]))
    {
      FreedOnly(queues, home, freeRecvframeCnt, f);
      hide Sound, Linked, Unlinked, OnlyChanged, AtTail;
      FreeRecvframe(f);
    }

    /** A frame whose MIC is wrong is released after all. */
    method DropBadMic(first: RecvFrame, micOk: bool) returns (r: RecvFrame?)
      requires Valid() && first !in home
      modifies `queues, `home, `freeRecvframeCnt, first`bytes
      ensures Valid() && OnlyChanged(old(queues), queues, None) && InHand(old(home.Keys), home.Keys, first, r)
      ensures r == if first.privacy && !micOk then null else first
      ensures r != null ==> r.bytes == old(first.bytes)
      ensures forall k <- queues :: k != FreeQ ==> Vals(queues[k]) == old(Vals(queues[k]))
    {
      NothingChanged(queues, None);
      hide Sound, Vals, OnlyChanged;
      if first.privacy && !micOk {
        FreeStray(first);
        r := null;
      } else {
        r := first;
      }
    }

    /** recvframe_chk_defrag, up to the MIC check. */
    method CollectFragments(f: RecvFrame, k: Option<QueueId>) returns (r: RecvFrame?)
      requires Valid() && f !in home && (k.Some? ==> k.value in queues && k.value != FreeQ)
      modifies `queues, `home, `freeRecvframeCnt, f, if k.Some? then queues[k.value] else []
      ensures Valid() && OnlyChanged(old(queues), queues, k) && InHand(old(home.Keys), home.Keys, f, r)
      ensures r != null ==> r == f || (k.Some? && r in old(queues[k.value]) && r in old(home))
      ensures !f.more && f.num == 0 ==> r == f && f.bytes == old(f.bytes) && queues == old(queues)
      ensures k.Some? && f.more ==> queues[k.value] == (if f.num == 0 then [] else old(queues[k.value])) + [f]
      ensures k.None? && (f.more || f.num != 0) ==> r == null
      ensures k.Some? ==>
        var (next, up) := Arrive(old(Vals(queues[k.value])), old(f.Val()));
        && Vals(queues[k.value]) == next && (r == null <==> up == None)
        && (r != null ==> up == Some(r.bytes))
        && (r != null ==> r == if IsFragment(old(f.Val())) then Head(old(queues[k.value]), f) else f)
    {
      assert k.Some? && queues[k.value] != [] ==> queues[k.value][0] in home;
      NothingChanged(queues, k);
      hide Sound, Vals, Consecutive, Merged, OnlyChanged;
      r := null;
      if !f.more && f.num == 0 {
        r := f;
      }
      if f.more {
        if k.Some? {
          QueueFragment(k.value, f);
        } else {
          FreeStray(f);
        }
      }
      if !f.more && f.num != 0 {
        if k.Some? {
          r := FinishFragments(k.value, f);
        } else {
          FreeStray(f);
        }
      }
    }

    /** recvframe_chk_defrag.  `k` is the queue of the sender, if one is found; `micOk` is the verdict of
        the TKIP MIC check.  On that queue it does what Arrive says. */
    method RecvframeChkDefrag(f: RecvFrame, k: Option<QueueId>, micOk: bool) returns (r: RecvFrame?)
      requires Valid() && f !in home && (k.Some? ==> k.value in queues && k.value != FreeQ)
      modifies `queues, `home, `freeRecvframeCnt, f, if k.Some? then queues[k.value] else []
      ensures Valid() && OnlyChanged(old(queues), queues, k) && InHand(old(home.Keys), home.Keys, f, r)
      ensures !f.more && f.num == 0 ==>
        && (r == null <==> f.privacy && !micOk) && (r != null ==> r == f && f.bytes == old(f.bytes))
        && (k.Some? ==> queues[k.value] == old(queues[k.value]))
      ensures k.Some? && f.more ==> queues[k.value] == (if f.num == 0 then [] else old(queues[k.value])) + [f]
      ensures k.None? && (f.more || f.num != 0) ==> r == null
      ensures k.Some? ==>
        var (next, up) := Arrive(old(Vals(queues[k.value])), old(f.Val()));
        var first := if IsFragment(old(f.Val())) then Head(old(queues[k.value]), f) else f;
        && Vals(queues[k.value]) == next
        && (r == null <==> up == None || (first.privacy && !micOk))
        && (r != null ==> r == first && up == Some(r.bytes))
    {
      hide Sound, Vals, Arrive, IsFragment, Head;
      r := CollectFragments(f, k);
      if r != null {
        r := DropBadMic(r, micOk);
      }
    }

    method AppendLast(k: QueueId, f: RecvFrame)
      requires Valid() && f !in home && k in queues && k != FreeQ
      modifies `queues, `home
      ensures Valid() && queues == old(queues)[k := old(queues[k]) + [f]] && home.Keys == old(home.Keys) + {f}
      ensures Vals(queues[k]) == old(Vals(queues[k])) + [old(f.Val())] && FreeQ in old(queues)
    {
      SoundLinked(queues, home, freeRecvframeCnt, k, f);
      ListAddTail(f, k);
    }
  }

  /** A frame of a fresh pool freed once more: 257 are counted, over 256. */
  method FreedTwice(frames: seq<RecvFrame>) returns (r: RecvPriv)
    requires |frames| == NR_RECVFRAME && NoDup(frames)
    modifies frames
    ensures FreeQ in r.queues && |r.queues[FreeQ]| == 256 && r.freeRecvframeCnt == 257 && !r.Valid()
  {
    r := new RecvPriv(frames, {});
    assert frames[0] in r.queues[FreeQ];
    DropOne(frames, frames[0]);
    r.FreeRecvframe(frames[0]);
  }

  lemma EmptiedOnly<T>(queues: map<QueueId, seq<T>>, k: QueueId, q: seq<T>, gone: seq<T>)
    requires FreeQ in queues && k in queues && k != FreeQ
    ensures
      var after := Emptied(queues[k := q], k, gone);
      OnlyChanged(queues, after, Some(k)) && k in after && after[k] == []
  {
  }

  lemma FreedOnly<T>(queues: map<QueueId, seq<T>>, home: map<T, QueueId>, cnt: int, f: T)
    requires Sound(queues, home, cnt) && f !in home
    ensures
      var after := Linked(Unlinked(queues, home, f), FreeQ, f);
      && OnlyChanged(queues, after, None)
      && forall k <- after :: k != FreeQ ==> after[k] == queues[k] && f !in queues[k]
  {
  }

  lemma NothingChanged<T>(queues: map<QueueId, seq<T>>, k: Option<QueueId>)
    ensures OnlyChanged(queues, queues, k)
  {
  }

  lemma StillOnly<T>(before: map<QueueId, seq<T>>, after: map<QueueId, seq<T>>, k: QueueId, f: T)
    requires OnlyChanged(before, after, Some(k)) && k in after
    ensures OnlyChanged(before, after[k := after[k] + [f]], Some(k))
  {
  }

  lemma ArriveMore(vals: seq<Frag>, val: Frag)
    requires val.more
    ensures Arrive(vals, val) == (if val.num == 0 then [val] else vals + [val], None)
  {
  }

  lemma ArriveLast(vals: seq<Frag>, val: Frag)
    requires !val.more && val.num != 0
    ensures Arrive(vals, val) == ([], if Consecutive(vals + [val]) then Some(Merged(vals + [val])) else None)
    ensures Consecutive(vals + [val]) ==> vals != []
  {
  }
}
