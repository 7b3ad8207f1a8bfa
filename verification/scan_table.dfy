/**
  The scanned queue and the pool of free entries (core/rtw_mlme.c): MAX_BSS_CNT entries, each in one of
  the two lists.  Every method is one step of ScanSpec.
 */
module ScanTable {
  import opened Bytes
  import opened Lists
  import opened ScanSpec

  class WlanNetwork {
    var network: Bss
    var fixed: bool
    var lastScanned: stamp
    var networkType: int
    var aid: int
    var joinRes: int

    function Val(): Entry
      reads this
    {
      Entry(network, fixed, lastScanned, networkType, aid, joinRes)
    }

    /** A network not seen before takes this entry. */
    method TakeNetwork(target: Bss, now: stamp)
      modifies this
      ensures Val() == Fresh(target, now)
    {
      network := target;
      fixed := false;
      lastScanned := now;
      networkType := 0;
      aid := 0;
      joinRes := 0;
      /* the signal was not received on the right channel */
      if network.quality == WRONG_CHANNEL {
        network := network.(quality := 0);
      }
    }

    /** update_network */
    method UpdateEntry(src: Bss, own: Option<Measured>, updateIe: bool)
      modifies `network
      ensures network == UpdateNetwork(old(network), src, own, updateIe)
    {
      var ssOri, sqOri, rssiOri := network.strength, network.quality, network.rssi;
      var ssFinal, sqFinal, rssiFinal;
      if own.Some? {
        ssFinal := own.value.strength;
        sqFinal := own.value.quality;
        if src.quality != WRONG_CHANNEL {
          rssiFinal := Div5(src.rssi + rssiOri * 4);
        } else {
          rssiFinal := rssiOri;
        }
      } else if src.quality != WRONG_CHANNEL {
        ssFinal := (src.strength + ssOri * 4) / 5;
        sqFinal := (src.quality + sqOri * 4) / 5;
        rssiFinal := Div5(src.rssi + rssiOri * 4);
      } else {
        ssFinal, sqFinal, rssiFinal := ssOri, sqOri, rssiOri;
      }
      if updateIe {
        network := src;
      }
      network := network.(strength := ssFinal);
      network := network.(quality := sqFinal);
      network := network.(rssi := rssiFinal);
    }

    /** The network of this entry was heard again. */
    method RefreshNetwork(target: Bss, own: Option<Measured>, now: stamp)
      modifies this
      ensures Val() == Refreshed(old(Val()), target, now, own)
    {
      lastScanned := now;
      var updateIe := true;
      if |network.ies| > |target.ies| && target.beacon {
        updateIe := false;
      }
      UpdateEntry(target, own, updateIe);
    }
  }

  ghost function Entries(q: seq<WlanNetwork>): (es: seq<Entry>)
    reads q
    ensures |es| == |q|
  {
    seq(|q|, i requires 0 <= i < |q| reads q => q[i].Val())
  }

  lemma LeaveOne(t: Table, at: nat)
    requires Sound(t) && at < |t.scanned|
    ensures Sound(Shrunk(t, t.scanned[..at] + t.scanned[at + 1..]))
  {
  }

  class MlmePriv {
    var freeBssPool: seq<WlanNetwork>
    var scannedQueue: seq<WlanNetwork>
    var numOfScanned: int
    const host: Host

    ghost function Abs(): Table
      reads this, scannedQueue
    {
      Table(Entries(scannedQueue), |freeBssPool|, numOfScanned)
    }

    ghost predicate Valid()
      reads this, scannedQueue
    {
      GoodHost(host) && NoDup(freeBssPool + scannedQueue) && Sound(Abs())
    }

    /** The entries the table owns. */
    ghost function Pool(): set<WlanNetwork>
      reads this
    {
      set n | n in freeBssPool + scannedQueue
    }

    /** _rtw_init_mlme_priv */
    constructor (host: Host, entries: seq<WlanNetwork>)
      requires GoodHost(host) && NoDup(entries) && |entries| == MAX_BSS_CNT
      ensures Valid() && freeBssPool == entries && scannedQueue == []
    {
      freeBssPool, scannedQueue, numOfScanned, this.host := entries, [], 0, host;
    }

    /** _rtw_alloc_network: the entry belongs to neither list until it is put into one. */
    method AllocNetwork(now: stamp) returns (n: WlanNetwork?)
      requires NoDup(freeBssPool)
      modifies `freeBssPool, `numOfScanned, if freeBssPool == [] then {} else {freeBssPool[0]}
      ensures n == null <==> old(freeBssPool) == []
      ensures n == null ==> freeBssPool == [] && numOfScanned == old(numOfScanned)
      ensures n != null ==>
                && n == old(freeBssPool[0]) && freeBssPool == old(freeBssPool[1..])
                && numOfScanned == old(numOfScanned) + 1
                && n.Val() == Entry(old(n.network), false, now, 0, 0, 0)
    {
      if freeBssPool == [] {
        return null;
      }
      n := freeBssPool[0];
      freeBssPool := freeBssPool[1..];
      n.networkType := 0;
      n.fixed := false;
      n.lastScanned := now;
      n.aid := 0;
      n.joinRes := 0;
      numOfScanned := numOfScanned + 1;
    }

    /** Where both ways of freeing end: back to the tail of the pool. */
    method Release(n: WlanNetwork, ghost at: nat)
      requires Valid() && at < |scannedQueue| && scannedQueue[at] == n
      modifies `freeBssPool, `scannedQueue, `numOfScanned
      ensures Valid() && Pool() == old(Pool())
      ensures scannedQueue == old(scannedQueue[..at] + scannedQueue[at + 1..])
      ensures freeBssPool == old(freeBssPool) + [n]
      ensures Abs() == Shrunk(old(Abs()), old(Abs().scanned[..at] + Abs().scanned[at + 1..]))
    {
      MoveAcross(freeBssPool, scannedQueue, at);
      DropAt(scannedQueue, at);
      LeaveOne(Abs(), at);
      ghost var es := Abs().scanned;
      scannedQueue := Drop(scannedQueue, n);
      assert Entries(scannedQueue) == es[..at] + es[at + 1..];
      freeBssPool := freeBssPool + [n];
      numOfScanned := numOfScanned - 1;
    }

    /** _rtw_free_network_nolock: whatever its age, but not if it is pinned. */
    method FreeNetworkNolock(n: WlanNetwork, ghost at: nat)
      requires Valid() && at < |scannedQueue| && scannedQueue[at] == n
      modifies `freeBssPool, `scannedQueue, `numOfScanned
      ensures Valid() && Pool() == old(Pool())
      ensures Abs() == Step(host, old(Abs()), FreeOne(at, 0, true), 0)
      ensures n in freeBssPool <==> !n.fixed
    {
      if n.fixed {
        assert n !in freeBssPool by { Apart(freeBssPool, scannedQueue); }
        return;
      }
      Release(n, at);
    }

    /** _rtw_free_network */
    method FreeNetwork(n: WlanNetwork, now: stamp, lifetime: nat, isFreeAll: bool, ghost at: nat)
      requires Valid() && at < |scannedQueue| && scannedQueue[at] == n
      modifies `freeBssPool, `scannedQueue, `numOfScanned
      ensures Valid() && Pool() == old(Pool())
      ensures Abs() == Step(host, old(Abs()), FreeOne(at, lifetime, isFreeAll), now)
      ensures scannedQueue == if Freed(host, n.Val(), now, lifetime, isFreeAll)
                              then old(scannedQueue[..at] + scannedQueue[at + 1..]) else old(scannedQueue)
      ensures freeBssPool == old(freeBssPool) + if Freed(host, n.Val(), now, lifetime, isFreeAll) then [n] else []
    {
      if n.fixed {
        return;
      }
      if !isFreeAll {
        var deltaTime := ((now - n.lastScanned) % host.word) / host.hz % U32;
        if deltaTime < lifetime {
          return;
        }
      }
      Release(n, at);
    }

    /** free_scanqueue */
    method FreeScanQueue()
      requires Valid()
      modifies `freeBssPool, `scannedQueue, `numOfScanned
      ensures Valid() && Pool() == old(Pool())
      ensures scannedQueue == [] && freeBssPool == old(freeBssPool + scannedQueue)
      ensures Abs() == Step(host, old(Abs()), Flush, 0)
    {
      while scannedQueue != []
        invariant Valid() && Pool() == old(Pool())
        invariant freeBssPool + scannedQueue == old(freeBssPool + scannedQueue)
        decreases |scannedQueue|
      {
        Release(scannedQueue[0], 0);
      }
    }

    /** _rtw_free_network_queue: every entry is looked at once; its successor is read before it goes. */
    method FreeNetworkQueue(now: stamp, lifetime: nat, isFreeAll: bool)
      requires Valid()
      modifies `freeBssPool, `scannedQueue, `numOfScanned
      ensures Valid() && Pool() == old(Pool())
      ensures Abs() == Step(host, old(Abs()), FreeAll(lifetime, isFreeAll), now)
    {
      var nodes := scannedQueue;
      ghost var t := Abs();
      ghost var kept: nat := 0;
      var j := 0;
      PassStarts(host, t, now, lifetime, isFreeAll);
      assert scannedQueue[0..] == nodes[0..];
      hide Remaining, Freed, Shrunk, Step, Sound, Passed, NoDup;
      while j < |nodes|
        invariant 0 <= j <= |nodes| && Valid() && Pool() == old(Pool())
        invariant kept <= |scannedQueue| && scannedQueue[kept..] == nodes[j..]
        invariant Passed(host, t, Abs(), now, lifetime, isFreeAll, j, kept)
      {
        kept := Visit(nodes, j, now, lifetime, isFreeAll, t, kept);
        j := j + 1;
      }
      PassEnds(host, t, Abs(), now, lifetime, isFreeAll, kept);
    }

    method Visit(nodes: seq<WlanNetwork>, j: nat, now: stamp, lifetime: nat, isFreeAll: bool,
                 ghost t: Table, ghost kept: nat) returns (ghost kept2: nat)
      requires Valid() && j < |nodes| && t.scanned == Entries(nodes)
      requires kept <= |scannedQueue| && scannedQueue[kept..] == nodes[j..]
      requires Passed(host, t, Abs(), now, lifetime, isFreeAll, j, kept)
      modifies `freeBssPool, `scannedQueue, `numOfScanned
      ensures Valid() && Pool() == old(Pool())
      ensures kept2 <= |scannedQueue| && scannedQueue[kept2..] == nodes[j + 1..]
      ensures Passed(host, t, Abs(), now, lifetime, isFreeAll, j + 1, kept2)
    {
      hide Remaining, Freed, Shrunk, Step, Sound, NoDup, Passed;
      ghost var queue := scannedQueue;
      ghost var gone := Freed(host, t.scanned[j], now, lifetime, isFreeAll);
      assert queue[kept] == nodes[j] && queue[kept + 1..] == nodes[j + 1..] by {
        assert queue[kept..][0] == nodes[j..][0] && queue[kept..][1..] == nodes[j..][1..];
      }
      PassStep(host, t, Abs(), now, lifetime, isFreeAll, j, kept);
      FreeNetwork(nodes[j], now, lifetime, isFreeAll, kept);
      kept2 := if gone then kept else kept + 1;
      assert gone ==> scannedQueue[kept..] == queue[kept + 1..];
    }

    /** A free entry is taken for a network not seen before. */
    method AddNetwork(target: Bss, now: stamp)
      requires Valid() && freeBssPool != []
      modifies `freeBssPool, `scannedQueue, `numOfScanned, freeBssPool[0]
      ensures NoDup(freeBssPool + scannedQueue) && Pool() == old(Pool())
      ensures Entries(scannedQueue) == old(Entries(scannedQueue)) + [Fresh(target, now)]
      ensures |freeBssPool| == old(|freeBssPool|) - 1 && numOfScanned == old(numOfScanned) + 1
    {
      ghost var es := Entries(scannedQueue);
      TakeAcross(freeBssPool, scannedQueue);
      var n := AllocNetwork(now);
      n.network := target;
      n.lastScanned := now;
      if n.network.quality == WRONG_CHANNEL {
        n.network := n.network.(quality := 0);
      }
      scannedQueue := scannedQueue + [n];
      assert Entries(scannedQueue) == es + [n.Val()];
    }

    /** rtw_update_scanned_network.  `own` is the receiver's measure, if this is the network in use. */
    method UpdateScannedNetwork(target: Bss, own: Option<Measured>, now: stamp)
      requires Valid()
      modifies `freeBssPool, `scannedQueue, `numOfScanned, scannedQueue, freeBssPool
      ensures Valid() && Pool() == old(Pool())
      ensures Abs() == Step(host, old(Abs()), UpdateScanned(target, own), now)
    {
      hide NoDup, Sound, Distinct, Refreshed, Fresh, Find, Oldest;
      ghost var t := Abs();
      StepKeeps(host, t, UpdateScanned(target, own), now);
      Sized();
      var i, oldest := FindScanned(target);
      EachOnce(freeBssPool, scannedQueue);
      if i == |scannedQueue| {
        if freeBssPool == [] {
          scannedQueue[oldest].TakeNetwork(target, now);
          assert Entries(scannedQueue) == t.scanned[oldest := Fresh(target, now)];
        } else {
          AddNetwork(target, now);
        }
      } else {
        scannedQueue[i].RefreshNetwork(target, own, now);
        assert Entries(scannedQueue) == t.scanned[i := Refreshed(t.scanned[i], target, now, own)];
      }
    }

    lemma Sized()
      requires Valid()
      ensures |scannedQueue| + |freeBssPool| == MAX_BSS_CNT
    {
    }

    /** The search for an entry of the same network, noting the oldest on the way. */
    method FindScanned(target: Bss) returns (i: nat, oldest: nat)
      requires Valid()
      ensures i == Find(Entries(scannedQueue), target)
      ensures i <= |scannedQueue|
      ensures i == |scannedQueue| > 0 ==>
                oldest < |scannedQueue| && oldest == Oldest(host, Entries(scannedQueue))
    {
      ghost var es := Entries(scannedQueue);
      hide SameNetwork, TimeAfter, Sound;
      i, oldest := 0, 0;
      var none := true;
      while i < |scannedQueue|
        invariant i <= |scannedQueue|
        invariant forall j :: 0 <= j < i ==> !SameNetwork(es[j].net, target)
        invariant none <==> i == 0
        invariant i > 0 ==> oldest == Oldest(host, es[..i])
      {
        var n := scannedQueue[i];
        assert n.Val() == es[i] && es[..i + 1][..i] == es[..i];
        if SameNetwork(n.network, target) {
          break;
        }
        if none || TimeAfter(host, scannedQueue[oldest].lastScanned, n.lastScanned) {
          none, oldest := false, i;
        }
        i := i + 1;
      }
      assert es[..|es|] == es;
      FirstIs(es, target, i);
    }
  }

  lemma FirstIs(es: seq<Entry>, target: Bss, i: nat)
    requires i <= |es| && (i < |es| ==> SameNetwork(es[i].net, target))
    requires forall j :: 0 <= j < i ==> !SameNetwork(es[j].net, target)
    ensures i == Find(es, target)
  {
  }

  /** The first `j` entries of table `t` are looked at, `kept` of them remain. */
  ghost predicate Passed(h: Host, t: Table, t2: Table, now: stamp, lifetime: nat, all: bool, j: nat, kept: nat)
    requires GoodHost(h)
  {
    && j <= |t.scanned|
    && var front := Remaining(h, t.scanned[..j], now, lifetime, all);
    && kept == |front| && t2 == Shrunk(t, front + t.scanned[j..])
  }

  lemma PassStarts(h: Host, t: Table, now: stamp, lifetime: nat, all: bool)
    requires GoodHost(h)
    ensures Passed(h, t, t, now, lifetime, all, 0, 0)
  {
    assert t.scanned[..0] == [] && [] + t.scanned[0..] == t.scanned;
  }

  lemma {:induction false} RemainingSnoc(h: Host, es: seq<Entry>, e: Entry, now: stamp, lifetime: nat, all: bool)
    requires GoodHost(h)
    ensures Remaining(h, es + [e], now, lifetime, all) ==
            Remaining(h, es, now, lifetime, all) + if Freed(h, e, now, lifetime, all) then [] else [e]
  {
    hide Freed;
    if es == [] {
      assert [] + [e] == [e];
    } else {
      assert (es + [e])[1..] == es[1..] + [e];
      RemainingSnoc(h, es[1..], e, now, lifetime, all);
    }
  }

  lemma PassStep(h: Host, t: Table, t2: Table, now: stamp, lifetime: nat, all: bool, j: nat, kept: nat)
    requires GoodHost(h) && Passed(h, t, t2, now, lifetime, all, j, kept) && j < |t.scanned|
    ensures
      var e := t.scanned[j];
      Passed(h, t, Step(h, t2, FreeOne(kept, lifetime, all), now), now, lifetime, all, j + 1,
             if Freed(h, e, now, lifetime, all) then kept else kept + 1)
  {
    var es, e := t.scanned, t.scanned[j];
    var front := Remaining(h, es[..j], now, lifetime, all);
    RemainingSnoc(h, es[..j], e, now, lifetime, all);
    assert es[..j] + [e] == es[..j + 1];
    hide Remaining, Freed;
    SpliceAt(front, es, j);
  }

  lemma SpliceAt<T>(front: seq<T>, es: seq<T>, j: nat)
    requires j < |es|
    ensures
      var s, k := front + es[j..], |front|;
      && s[k] == es[j] && s[..k] + s[k + 1..] == front + es[j + 1..]
      && front + [es[j]] + es[j + 1..] == s && front + [] == front
  {
  }

  lemma PassEnds(h: Host, t: Table, t2: Table, now: stamp, lifetime: nat, all: bool, kept: nat)
    requires GoodHost(h) && Passed(h, t, t2, now, lifetime, all, |t.scanned|, kept)
    ensures t2 == Step(h, t, FreeAll(lifetime, all), now)
  {
    var es := t.scanned;
    var left := Remaining(h, es, now, lifetime, all);
    assert es[..|es|] == es && left + es[|es|..] == left;
  }
}
