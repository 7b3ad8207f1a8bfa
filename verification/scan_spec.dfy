/**
  The table of scanned networks (core/rtw_mlme.c) on values: which entry a beacon updates, which one it
  evicts, and what frees and flushes leave.
 */
module ScanSpec {
  import opened Bytes

  const MAX_BSS_CNT := 128
  const U32 := 0x1_0000_0000

  /** `word` is the range of an unsigned long on the machine, in which time_after compares; the stamps
      themselves come from a 32-bit clock of `hz` ticks a second. */
  datatype Host = Host(word: nat, hz: nat)

  predicate GoodHost(h: Host) {
    (h.word == U32 || h.word == U32 * U32) && h.hz > 0
  }

  type stamp = t: nat | t < U32

  /** What a beacon or probe response says; `cap` is its capability field, `ies` its elements. */
  datatype Bss = Bss(mac: seq<byte>, ssid: seq<byte>, cap: nat, ies: seq<byte>, beacon: bool,
                     strength: nat, quality: nat, rssi: int)

  datatype Entry = Entry(net: Bss, fixed: bool, lastScanned: stamp, networkType: int, aid: int, joinRes: int)

  predicate SameNetwork(a: Bss, b: Bss) {
    && |a.ssid| == |b.ssid| && a.mac == b.mac && a.ssid == b.ssid
    && a.cap / 2 % 2 == b.cap / 2 % 2 && a.cap % 2 == b.cap % 2
  }

  ghost predicate Distinct(es: seq<Entry>) {
    forall i, j :: 0 <= i < j < |es| ==> !SameNetwork(es[i].net, es[j].net)
  }

  predicate TimeAfter(h: Host, a: stamp, b: stamp)
    requires GoodHost(h)
  {
    (b - a) % h.word >= h.word / 2
  }

  /** On a 32-bit machine time_after is right about two times up to half the clock's range apart. */
  lemma TimeAfterIs(h: Host, x: int, y: int)
    requires GoodHost(h) && h.word == U32 && -(U32 / 2) <= y - x < U32 / 2
    ensures TimeAfter(h, x % U32, y % U32) <==> y < x
  {
    var turns := x / U32 - y / U32;
    assert y % U32 - x % U32 == y - x + U32 * turns;
    ModShift(y - x, turns);
    if y < x {
      ModShift(y - x, 1);
    }
  }

  // ---------------------------------------------------------------------------
  // Refreshing an entry
  // ---------------------------------------------------------------------------

  /** C division rounds toward zero. */
  function Div5(x: int): int {
    if x >= 0 then x / 5 else -(-x / 5)
  }

  const WRONG_CHANNEL := 101

  /** The receiver's own measure of the network it is connected to, if that is the one. */
  datatype Measured = Measured(strength: nat, quality: nat)

  /** update_network: signals are smoothed, one part new to four parts old. */
  function UpdateNetwork(dst: Bss, src: Bss, own: Option<Measured>, updateIe: bool): Bss {
    var right := src.quality != WRONG_CHANNEL;
    var strength := if own.Some? then own.value.strength
                    else if right then (src.strength + dst.strength * 4) / 5 else dst.strength;
    var quality := if own.Some? then own.value.quality
                   else if right then (src.quality + dst.quality * 4) / 5 else dst.quality;
    var rssi := if right then Div5(src.rssi + dst.rssi * 4) else dst.rssi;
    (if updateIe then src else dst).(strength := strength, quality := quality, rssi := rssi)
  }

  predicate Between(x: int, a: int, b: int) {
    (a <= x <= b) || (b <= x <= a)
  }

  /** Smoothing never leaves the range between what was known and what was heard. */
  lemma SmoothedBetween(dst: Bss, src: Bss, own: Option<Measured>, updateIe: bool)
    ensures
      var n := UpdateNetwork(dst, src, own, updateIe);
      && Between(n.rssi, dst.rssi, src.rssi)
      && (own.None? ==> Between(n.strength, dst.strength, src.strength))
      && (own.None? ==> Between(n.quality, dst.quality, src.quality))
  {
  }

  /** A fifth of the way, rounded toward zero: five times the new value is the sum of one part heard and four
      parts known, less than five short of it. */
  predicate FifthOfTheWay(x: int, known: int, heard: int) {
    var sum := heard + 4 * known;
    if sum >= 0 then 5 * x <= sum < 5 * x + 5 else 5 * x - 5 < sum <= 5 * x
  }

  /** What each signal becomes: with a measure of its own the driver takes that for strength and quality; what
      was heard on the wrong channel counts for nothing; else it is a fifth of the way. */
  lemma SmoothedExactly(dst: Bss, src: Bss, own: Option<Measured>, updateIe: bool)
    ensures
      var n, right := UpdateNetwork(dst, src, own, updateIe), src.quality != WRONG_CHANNEL;
      && (own.Some? ==> n.strength == own.value.strength && n.quality == own.value.quality)
      && (own.None? && right ==> FifthOfTheWay(n.strength, dst.strength, src.strength)
                                 && FifthOfTheWay(n.quality, dst.quality, src.quality))
      && (own.None? && !right ==> n.strength == dst.strength && n.quality == dst.quality)
      && (if right then FifthOfTheWay(n.rssi, dst.rssi, src.rssi) else n.rssi == dst.rssi)
      && n == (if updateIe then src else dst).(strength := n.strength, quality := n.quality, rssi := n.rssi)
  {
  }

  function Refreshed(e: Entry, target: Bss, now: stamp, own: Option<Measured>): Entry {
    var updateIe := !(|e.net.ies| > |target.ies| && target.beacon);
    e.(net := UpdateNetwork(e.net, target, own, updateIe), lastScanned := now)
  }

  function Fresh(target: Bss, now: stamp): Entry {
    Entry(if target.quality == WRONG_CHANNEL then target.(quality := 0) else target, false, now, 0, 0, 0)
  }

  lemma RefreshKeepsNetwork(e: Entry, target: Bss, now: stamp, own: Option<Measured>)
    requires SameNetwork(e.net, target)
    ensures SameNetwork(Refreshed(e, target, now, own).net, target)
  {
  }

  /** A network heard again stays itself: identity, pinning and association data stay, the stamp is now,
      the signals move toward what was heard, and the elements are the ones heard, unless a
      beacon carries fewer than are known. */
  lemma RefreshEffect(e: Entry, target: Bss, now: stamp, own: Option<Measured>)
    requires SameNetwork(e.net, target)
    ensures
      var r := Refreshed(e, target, now, own);
      && SameNetwork(r.net, e.net) && r.lastScanned == now
      && r.fixed == e.fixed && r.networkType == e.networkType && r.aid == e.aid && r.joinRes == e.joinRes
      && r.net.ies == (if target.beacon && |e.net.ies| > |target.ies| then e.net.ies else target.ies)
      && Between(r.net.rssi, e.net.rssi, target.rssi)
      && (own.None? ==> Between(r.net.strength, e.net.strength, target.strength))
      && (own.None? ==> Between(r.net.quality, e.net.quality, target.quality))
      && (own.Some? ==> r.net.strength == own.value.strength && r.net.quality == own.value.quality)
  {
    SmoothedBetween(e.net, target, own, !(|e.net.ies| > |target.ies| && target.beacon));
    hide Between;
  }

  /** What identifies a network: its address, its name, and the two lowest capability bits, ESS and IBSS. */
  function Identity(b: Bss): (seq<byte>, seq<byte>, nat) {
    (b.mac, b.ssid, b.cap % 4)
  }

  lemma SameIsIdentity(a: Bss, b: Bss)
    ensures SameNetwork(a, b) <==> Identity(a) == Identity(b)
  {
    assert a.cap % 4 == a.cap / 2 % 2 * 2 + a.cap % 2 && b.cap % 4 == b.cap / 2 % 2 * 2 + b.cap % 2;
  }

  /** Being the same network is an equivalence. */
  lemma SameIsEquivalence(a: Bss, b: Bss, c: Bss)
    ensures SameNetwork(a, a) && (SameNetwork(a, b) ==> SameNetwork(b, a))
    ensures SameNetwork(a, b) && SameNetwork(b, c) ==> SameNetwork(a, c)
  {
  }

  // ---------------------------------------------------------------------------
  // The victim
  // ---------------------------------------------------------------------------

  /** The search keeps the first entry no later one is stamped before. */
  function Oldest(h: Host, es: seq<Entry>): (v: nat)
    requires GoodHost(h) && es != []
    ensures v < |es|
  {
    var n := |es| - 1;
    if n == 0 then 0
    else
      var v := Oldest(h, es[..n]);
      if TimeAfter(h, es[v].lastScanned, es[n].lastScanned) then n else v
  }

  /** Ticks since an entry was stamped, the clock wrapping. */
  function Age(now: stamp, t: stamp): nat {
    (now - t) % U32
  }

  /** On a 32-bit machine stamps compare circularly: right within half the range of the clock. */
  lemma CircularOrder(h: Host, now: stamp, a: stamp, b: stamp)
    requires GoodHost(h) && h.word == U32 && Age(now, a) < U32 / 2 && Age(now, b) < U32 / 2
    ensures TimeAfter(h, a, b) <==> Age(now, a) < Age(now, b)
  {
    var x, y := Age(now, a), Age(now, b);
    assert (b - a) % U32 == (x - y) % U32 by {
      assert exists k: int :: b - a == x - y + U32 * k by {
        assert b - a == x - y + U32 * ((now - a) / U32 - (now - b) / U32);
      }
      ModShift(x - y, (now - a) / U32 - (now - b) / U32);
    }
  }

  lemma ModShift(x: int, k: int)
    ensures (x + U32 * k) % U32 == x % U32
  {
  }

  /** On a 64-bit machine they compare as numbers. */
  lemma PlainOrder(h: Host, a: stamp, b: stamp)
    requires GoodHost(h) && h.word == U32 * U32
    ensures TimeAfter(h, a, b) <==> b < a
  {
  }

  /** Within half the clock range, on a 32-bit machine, an eviction takes a stalest entry. */
  lemma {:induction false} OldestCircular(h: Host, es: seq<Entry>, now: stamp)
    requires GoodHost(h) && h.word == U32 && es != []
    requires forall e <- es :: Age(now, e.lastScanned) < U32 / 2
    ensures
      var v := es[Oldest(h, es)].lastScanned;
      forall e <- es :: Age(now, e.lastScanned) <= Age(now, v)
  {
    hide Age, TimeAfter;
    var n := |es| - 1;
    if n > 0 {
      OldestCircular(h, es[..n], now);
      var v := Oldest(h, es[..n]);
      assert es[..n][v] == es[v] && es[v] in es && es[n] in es;
      CircularOrder(h, now, es[v].lastScanned, es[n].lastScanned);
      assert forall e <- es :: e in es[..n] || e == es[n];
    }
  }

  /** On a 64-bit machine the victim is the entry with the least number. */
  lemma {:induction false} OldestPlain(h: Host, es: seq<Entry>)
    requires GoodHost(h) && h.word == U32 * U32 && es != []
    ensures
      var v := es[Oldest(h, es)].lastScanned;
      forall e <- es :: v <= e.lastScanned
  {
    hide TimeAfter;
    var n := |es| - 1;
    if n > 0 {
      OldestPlain(h, es[..n]);
      var v := Oldest(h, es[..n]);
      PlainOrder(h, es[v].lastScanned, es[n].lastScanned);
      assert forall e <- es :: e in es[..n] || e == es[n];
    }
  }

  /** Of entries stamped alike it is the first. */
  lemma {:induction false} OldestIsFirst(h: Host, es: seq<Entry>)
    requires GoodHost(h) && h.word == U32 * U32 && es != []
    ensures forall j :: 0 <= j < Oldest(h, es) ==> es[Oldest(h, es)].lastScanned < es[j].lastScanned
  {
    hide TimeAfter;
    var n := |es| - 1;
    if n > 0 {
      var front := es[..n];
      var v := Oldest(h, front);
      PlainOrder(h, es[v].lastScanned, es[n].lastScanned);
      OldestPlain(h, front);
      OldestIsFirst(h, front);
      assert forall j :: 0 <= j < n ==> front[j] == es[j];
      forall j | 0 <= j < n ensures es[v].lastScanned <= es[j].lastScanned {
        assert es[j] in front;
      }
      hide Oldest;
    }
  }

  /** That is a stalest entry exactly when the clock has not wrapped between two of the stamps. */
  lemma StalestUnlessWrapped(h: Host, es: seq<Entry>, now: stamp)
    requires GoodHost(h) && h.word == U32 * U32 && es != []
    ensures
      var v := es[Oldest(h, es)].lastScanned;
      (forall e <- es :: Age(now, e.lastScanned) <= Age(now, v))
      <==> (forall e <- es :: e.lastScanned <= now) || (forall e <- es :: e.lastScanned > now)
  {
    OldestPlain(h, es);
    var v := es[Oldest(h, es)];
    assert v in es;
    forall e <- es
      ensures Age(now, e.lastScanned) ==
              if e.lastScanned <= now then now - e.lastScanned else now - e.lastScanned + U32
    {
      ModShift(now - e.lastScanned, 1);
    }
    hide Age, Oldest;
    if d :| d in es && d.lastScanned <= now {
      if e :| e in es && e.lastScanned > now {
        assert v.lastScanned <= d.lastScanned <= now;
        assert Age(now, e.lastScanned) > Age(now, v.lastScanned);
      }
    }
  }

  // ---------------------------------------------------------------------------
  // The table over time
  // ---------------------------------------------------------------------------

  /** The scanned queue in order, the size of the pool of free entries, and num_of_scanned. */
  datatype Table = Table(scanned: seq<Entry>, free: nat, num: int)

  ghost predicate Sound(t: Table) {
    t.num == |t.scanned| && |t.scanned| + t.free == MAX_BSS_CNT && Distinct(t.scanned)
  }

  /** The first entry of the same network, or the length. */
  function Find(es: seq<Entry>, target: Bss): (i: nat)
    ensures i <= |es|
    ensures i < |es| ==> SameNetwork(es[i].net, target)
    ensures forall j :: 0 <= j < i ==> !SameNetwork(es[j].net, target)
  {
    if es == [] then 0
    else if SameNetwork(es[0].net, target) then 0
    else 1 + Find(es[1..], target)
  }

  /** rtw_update_scanned_network */
  function Update(h: Host, es: seq<Entry>, free: nat, target: Bss, now: stamp, own: Option<Measured>): seq<Entry>
    requires GoodHost(h) && |es| + free > 0
  {
    var i := Find(es, target);
    if i < |es| then es[i := Refreshed(es[i], target, now, own)]
    else if free == 0 then es[Oldest(h, es) := Fresh(target, now)]
    else es + [Fresh(target, now)]
  }

  /** How long an entry lives since its last stamp; computed in the machine's words, then cut to 32 bits. */
  predicate Expired(h: Host, e: Entry, now: stamp, lifetime: nat)
    requires GoodHost(h)
  {
    ((now - e.lastScanned) % h.word) / h.hz % U32 >= lifetime
  }

  predicate Freed(h: Host, e: Entry, now: stamp, lifetime: nat, all: bool)
    requires GoodHost(h)
  {
    !e.fixed && (all || Expired(h, e, now, lifetime))
  }

  /** What a pass over the scanned queue keeps. */
  function Remaining(h: Host, es: seq<Entry>, now: stamp, lifetime: nat, all: bool): (r: seq<Entry>)
    requires GoodHost(h)
    ensures |r| <= |es|
  {
    if es == [] then []
    else (if Freed(h, es[0], now, lifetime, all) then [] else [es[0]]) + Remaining(h, es[1..], now, lifetime, all)
  }

  datatype Op =
    | UpdateScanned(target: Bss, own: Option<Measured>)
    | FreeOne(at: nat, lifetime: nat, all: bool)
    | FreeAll(lifetime: nat, all: bool)
    | Flush
    | Fix(at: nat, fixed: bool)

  function Shrunk(t: Table, es: seq<Entry>): Table
    requires |es| <= |t.scanned|
  {
    var gone := |t.scanned| - |es|;
    Table(es, t.free + gone, t.num - gone)
  }

  function Step(h: Host, t: Table, op: Op, now: stamp): Table
    requires GoodHost(h)
  {
    match op
    case UpdateScanned(target, own) =>
      if |t.scanned| + t.free == 0 then t
      else
        var es := Update(h, t.scanned, t.free, target, now, own);
        if |es| > |t.scanned| && t.free > 0 then Table(es, t.free - 1, t.num + 1) else t.(scanned := es)
    case FreeOne(at, lifetime, all) =>
      if at < |t.scanned| && Freed(h, t.scanned[at], now, lifetime, all)
      then Shrunk(t, t.scanned[..at] + t.scanned[at + 1..]) else t
    case FreeAll(lifetime, all) => Shrunk(t, Remaining(h, t.scanned, now, lifetime, all))
    case Flush => Shrunk(t, [])
    case Fix(at, fixed) =>
      if at < |t.scanned| then t.(scanned := t.scanned[at := t.scanned[at].(fixed := fixed)]) else t
  }

  function Run(h: Host, t: Table, ops: seq<(Op, stamp)>): Table
    requires GoodHost(h)
    decreases |ops|
  {
    if ops == [] then t else Run(h, Step(h, t, ops[0].0, ops[0].1), ops[1..])
  }

  lemma UpdateKeepsDistinct(h: Host, es: seq<Entry>, free: nat, target: Bss, now: stamp, own: Option<Measured>)
    requires GoodHost(h) && |es| + free > 0 && Distinct(es)
    ensures Distinct(Update(h, es, free, target, now, own))
  {
    var i := Find(es, target);
    var after := Update(h, es, free, target, now, own);
    forall a, b | 0 <= a < b < |after| ensures !SameNetwork(after[a].net, after[b].net) {
      hide Oldest, Find;
      if i < |es| {
        assert a < |es| && b < |es| && !SameNetwork(es[a].net, es[b].net);
        RefreshKeepsNetwork(es[i], target, now, own);
      }
      hide Refreshed, UpdateNetwork;
    }
  }

  /** A pass frees exactly the entries that are not pinned and too old, and lists none twice. */
  lemma {:induction false} RemainingIs(h: Host, es: seq<Entry>, now: stamp, lifetime: nat, all: bool)
    requires GoodHost(h)
    ensures forall e :: e in Remaining(h, es, now, lifetime, all) <==> e in es && !Freed(h, e, now, lifetime, all)
    ensures Distinct(es) ==> Distinct(Remaining(h, es, now, lifetime, all))
  {
    hide Freed, SameNetwork;
    if es != [] {
      var rest := Remaining(h, es[1..], now, lifetime, all);
      RemainingIs(h, es[1..], now, lifetime, all);
      assert forall e :: e in es <==> e == es[0] || e in es[1..];
      if Distinct(es) {
        forall k | 0 <= k < |rest| ensures !SameNetwork(es[0].net, rest[k].net) {
          assert rest[k] in es[1..];
        }
      }
    }
  }

  // ---------------------------------------------------------------------------
  // How old is too old
  // ---------------------------------------------------------------------------

  /** A clock of 32 bits has not come round between the two times. */
  predicate NotWrapped(stamped: int, read: int) {
    stamped / U32 == read / U32
  }

  lemma StampsApart(stamped: int, read: int)
    ensures (read % U32 - stamped % U32) % U32 == (read - stamped) % U32
    ensures NotWrapped(stamped, read) ==> read % U32 - stamped % U32 == read - stamped
  {
    assert read % U32 - stamped % U32 == read - stamped + U32 * (stamped / U32 - read / U32);
    ModShift(read - stamped, stamped / U32 - read / U32);
  }

  /** An entry stamped at one time and looked at at another has expired exactly if it is that many whole
      seconds old: on a 32-bit machine always, on a 64-bit machine while the clock has not wrapped. */
  lemma ExpiredIsOld(h: Host, e: Entry, stamped: int, read: int, lifetime: nat)
    requires GoodHost(h) && e.lastScanned == stamped % U32 && 0 <= read - stamped < U32
    requires h.word == U32 || NotWrapped(stamped, read)
    ensures Expired(h, e, read % U32, lifetime) <==> (read - stamped) / h.hz >= lifetime
  {
    WordAge(h, stamped, read);
    WholeSeconds(read - stamped, h.hz);
  }

  lemma WordAge(h: Host, stamped: int, read: int)
    requires GoodHost(h) && 0 <= read - stamped < U32 && (h.word == U32 || NotWrapped(stamped, read))
    ensures (read % U32 - stamped % U32) % h.word == read - stamped
  {
    StampsApart(stamped, read);
    hide NotWrapped;
    Below(read - stamped);
  }

  lemma Below(x: nat)
    requires x < U32
    ensures x % U32 == x && x % (U32 * U32) == x
  {
  }

  lemma WholeSeconds(x: nat, hz: nat)
    requires x < U32 && hz > 0
    ensures x / hz % U32 == x / hz
  {
    var q, r := x / hz, x % hz;
    assert x == hz * q + r;
    AtLeastOnce(q, hz);
    Below(q);
  }

  lemma AtLeastOnce(q: nat, hz: nat)
    requires hz > 0
    ensures q <= hz * q
  {
    assert hz * q == q + (hz - 1) * q;
    assert (hz - 1) * q >= 0;
  }

  /** A pass leaves exactly the entries that are pinned, or were heard less than `lifetime` seconds ago. */
  lemma PassLeaves(h: Host, t: Table, heard: map<Entry, int>, read: int, lifetime: nat)
    requires GoodHost(h) && t.scanned != []
    requires forall e <- t.scanned :: e in heard && e.lastScanned == heard[e] % U32 && 0 <= read - heard[e] < U32
    requires h.word == U32 || forall e <- t.scanned :: NotWrapped(heard[e], read)
    ensures
      var after := Step(h, t, FreeAll(lifetime, false), read % U32).scanned;
      forall e :: e in after <==> e in t.scanned && (e.fixed || (read - heard[e]) / h.hz < lifetime)
  {
    var now: stamp := read % U32;
    RemainingIs(h, t.scanned, now, lifetime, false);
    hide Remaining, Expired, NotWrapped;
    forall e <- t.scanned
      ensures Freed(h, e, now, lifetime, false) <==> !e.fixed && (read - heard[e]) / h.hz >= lifetime
    {
      ExpiredIsOld(h, e, heard[e], read, lifetime);
    }
  }

  /** On a 64-bit machine an entry heard 26 ticks ago has expired for every lifetime up to a year if the clock
      wrapped in between. */
  lemma WrapExpires(net: Bss, lifetime: nat)
    requires lifetime <= 365 * 24 * 3600
    ensures
      var h, e := Host(U32 * U32, 250), Entry(net, false, 0xFFFFFFF0, 0, 0, 0);
      Expired(h, e, 10, lifetime) && Age(10, e.lastScanned) == 26
  {
  }

  /** Pinned entries and, of one looked at alone, young ones stay where they are; a flush leaves nothing. */
  lemma FreesExactly(h: Host, t: Table, at: nat, lifetime: nat, all: bool, now: stamp)
    requires GoodHost(h)
    ensures
      var after := Step(h, t, FreeOne(at, lifetime, all), now);
      if at < |t.scanned| && !t.scanned[at].fixed && (all || Expired(h, t.scanned[at], now, lifetime))
      then after == Table(t.scanned[..at] + t.scanned[at + 1..], t.free + 1, t.num - 1)
      else after == t
    ensures Step(h, t, Flush, now) == Table([], t.free + |t.scanned|, t.num - |t.scanned|)
  {
    hide Expired;
  }

  /** Entries and free slots add up to the pool, the count is right, and no network is listed twice. */
  lemma StepKeeps(h: Host, t: Table, op: Op, now: stamp)
    requires GoodHost(h) && Sound(t)
    ensures Sound(Step(h, t, op, now))
  {
    match op {
      case UpdateScanned(target, own) =>
        UpdateKeepsDistinct(h, t.scanned, t.free, target, now, own);
        hide Distinct, Find, Oldest, Refreshed;
      case FreeOne(at, lifetime, all) =>
        hide SameNetwork, Freed;
      case FreeAll(lifetime, all) =>
        RemainingIs(h, t.scanned, now, lifetime, all);
        hide Distinct, Remaining;
      case Flush =>
      case Fix(at, fixed) =>
        hide SameNetwork;
    }
  }

  lemma {:induction false} EveryRun(h: Host, t: Table, ops: seq<(Op, stamp)>)
    requires GoodHost(h) && Sound(t)
    ensures Sound(Run(h, t, ops))
    decreases |ops|
  {
    hide Step, Sound;
    if ops != [] {
      StepKeeps(h, t, ops[0].0, ops[0].1);
      EveryRun(h, Step(h, t, ops[0].0, ops[0].1), ops[1..]);
    }
  }

  const FRESH_TABLE := Table([], MAX_BSS_CNT, 0)

  /** So for every run from the table as it is set up. */
  lemma EveryRunFromFresh(h: Host, ops: seq<(Op, stamp)>)
    requires GoodHost(h)
    ensures
      var t := Run(h, FRESH_TABLE, ops);
      t.num == |t.scanned| && |t.scanned| + t.free == 128 && Distinct(t.scanned)
  {
    EveryRun(h, FRESH_TABLE, ops);
  }

  /** What one update does: the network heard is listed, with a new stamp; of the others only the victim
      of a full table goes, pinned (`fixed`) or not, and none comes. */
  lemma UpdateEffect(h: Host, t: Table, target: Bss, now: stamp, own: Option<Measured>)
    requires GoodHost(h) && Sound(t)
    ensures
      var es, after := t.scanned, Step(h, t, UpdateScanned(target, own), now).scanned;
      && (exists e <- after :: SameNetwork(e.net, target) && e.lastScanned == now)
      && (forall e <- es :: !SameNetwork(e.net, target) ==>
            (e !in after <==> t.free == 0 && Find(es, target) == |es| && e == es[Oldest(h, es)]))
      && (forall e <- after :: !SameNetwork(e.net, target) ==> e in es)
  {
    hide *;
    var es, after := t.scanned, Step(h, t, UpdateScanned(target, own), now).scanned;
    var k, e := UpdatedAt(h, t, target, now, own);
    forall d <- es | !SameNetwork(d.net, target)
      ensures d !in after <==> t.free == 0 && Find(es, target) == |es| && d == es[Oldest(h, es)]
    {
      var j :| 0 <= j < |es| && es[j] == d;
      assert j != k ==> after[j] == d;
    }
  }

  /** What is listed of a network not seen before: all that was heard of it, but for a quality taken on the
      wrong channel, unpinned, and nothing of an association. */
  lemma FreshIs(target: Bss, now: stamp)
    ensures
      var e := Fresh(target, now);
      && SameNetwork(e.net, target) && e.lastScanned == now && !e.fixed
      && e.networkType == 0 == e.aid == e.joinRes
      && e.net == target.(quality := if target.quality == WRONG_CHANNEL then 0 else target.quality)
  {
  }

  /** Where: in the place of the network's own entry; else behind the others, if a slot is free; else in the
      place of the oldest. */
  lemma UpdateExactly(h: Host, t: Table, target: Bss, now: stamp, own: Option<Measured>, i: nat)
    requires GoodHost(h) && Sound(t) && i <= |t.scanned|
    requires i < |t.scanned| ==> SameNetwork(t.scanned[i].net, target)
    requires i == |t.scanned| ==> forall e <- t.scanned :: !SameNetwork(e.net, target)
    ensures
      var es, after := t.scanned, Step(h, t, UpdateScanned(target, own), now);
      if i < |es| then after == t.(scanned := es[i := Refreshed(es[i], target, now, own)])
      else if t.free > 0 then after == Table(es + [Fresh(target, now)], t.free - 1, t.num + 1)
      else es != [] && after == t.(scanned := es[Oldest(h, es) := Fresh(target, now)])
  {
    var es := t.scanned;
    var k := Find(es, target);
    if i < |es| && k != i {
      SameIsEquivalence(es[k].net, target, es[i].net);
      SameIsEquivalence(es[i].net, target, es[k].net);
    }
    assert k < |es| ==> es[k] in es;
    hide Refreshed, Fresh, Oldest;
  }

  /** Where an update writes: one entry of the network heard, over one of that network or over the
      victim, or behind all others. */
  lemma UpdatedAt(h: Host, t: Table, target: Bss, now: stamp, own: Option<Measured>) returns (k: nat, e: Entry)
    requires GoodHost(h) && Sound(t)
    ensures
      var es, after := t.scanned, Step(h, t, UpdateScanned(target, own), now).scanned;
      && SameNetwork(e.net, target) && e.lastScanned == now
      && k < |after| && after[k] == e && (forall j :: 0 <= j < |after| && j != k ==> j < |es| && after[j] == es[j])
      && |es| <= |after| && (k == |es| ==> t.free > 0)
      && (k < |es| && !SameNetwork(es[k].net, target) ==>
            t.free == 0 && Find(es, target) == |es| && k == Oldest(h, es) && es[k] !in after)
      && (t.free == 0 && Find(es, target) == |es| ==> es != [] && k == Oldest(h, es))
  {
    var es, after := t.scanned, Step(h, t, UpdateScanned(target, own), now).scanned;
    var i := Find(es, target);
    k := if i < |es| then i else if t.free == 0 then Oldest(h, es) else |es|;
    if i < |es| {
      RefreshKeepsNetwork(es[i], target, now, own);
    }
    e := after[k];
    hide Refreshed, Oldest, Find;
    if k < |es| && !SameNetwork(es[k].net, target) {
      VictimGone(es, k, e, target);
    }
  }

  lemma VictimGone(es: seq<Entry>, k: nat, e: Entry, target: Bss)
    requires Distinct(es) && k < |es| && SameNetwork(e.net, target) && !SameNetwork(es[k].net, target)
    ensures es[k] !in es[k := e]
  {
    forall j | 0 <= j < |es| && j != k ensures es[j] != es[k] {
      SameIsEquivalence(es[k].net, es[k].net, es[k].net);
    }
  }

  // ---------------------------------------------------------------------------
  // Two evictions
  // ---------------------------------------------------------------------------

  function Net(k: byte): Bss {
    Bss([k], [], 0, [], false, 0, 0, 0)
  }

  const NEWCOMER := Net(255)

  function StampOf(k: nat, first: stamp, others: stamp): stamp {
    if k == 0 then first else others
  }

  /** Networks with different addresses, heard one after the other. */
  function Heard(n: nat, first: stamp, others: stamp): (ops: seq<(Op, stamp)>)
    requires n <= MAX_BSS_CNT
    ensures |ops| == n
  {
    seq(n, k requires 0 <= k < n => (UpdateScanned(Net(k), None), StampOf(k, first, others)))
  }

  function Listed(n: nat, first: stamp, others: stamp): (es: seq<Entry>)
    requires n <= MAX_BSS_CNT
    ensures |es| == n
    ensures forall k :: 0 <= k < n ==> es[k] == Entry(Net(k), false, StampOf(k, first, others), 0, 0, 0)
  {
    seq(n, k requires 0 <= k < n => Entry(Net(k), false, StampOf(k, first, others), 0, 0, 0))
  }

  lemma {:induction false} RunSnoc(h: Host, t: Table, ops: seq<(Op, stamp)>, op: Op, now: stamp)
    requires GoodHost(h)
    ensures Run(h, t, ops + [(op, now)]) == Step(h, Run(h, t, ops), op, now)
    decreases |ops|
  {
    hide Step;
    var more := ops + [(op, now)];
    if ops == [] {
      assert more[1..] == [];
    } else {
      assert more[1..] == ops[1..] + [(op, now)];
      RunSnoc(h, Step(h, t, ops[0].0, ops[0].1), ops[1..], op, now);
    }
  }

  lemma OtherNet(es: seq<Entry>, j: byte)
    requires forall k :: 0 <= k < |es| ==> es[k].net.mac != [j]
    ensures Find(es, Net(j)) == |es|
  {
  }

  /** They fill the table up in that order. */
  lemma {:induction false} Fills(h: Host, n: nat, first: stamp, others: stamp)
    requires GoodHost(h) && n <= MAX_BSS_CNT
    ensures Run(h, FRESH_TABLE, Heard(n, first, others)) == Table(Listed(n, first, others), MAX_BSS_CNT - n, n)
  {
    hide Run, SameNetwork;
    if n == 0 {
      NothingRun(h, FRESH_TABLE);
      assert Heard(0, first, others) == [] && Listed(0, first, others) == [];
    } else {
      var k := n - 1;
      var es, now := Listed(k, first, others), StampOf(k, first, others);
      Fills(h, k, first, others);
      RunSnoc(h, FRESH_TABLE, Heard(k, first, others), UpdateScanned(Net(k), None), now);
      assert Heard(n, first, others) == Heard(k, first, others) + [(UpdateScanned(Net(k), None), now)];
      assert Listed(n, first, others) == es + [Entry(Net(k), false, now, 0, 0, 0)];
      OtherNet(es, k);
    }
  }

  lemma NothingRun(h: Host, t: Table)
    requires GoodHost(h)
    ensures Run(h, t, []) == t
  {
  }

  /** On a 64-bit machine, a table filled around a wrap of the clock: the first network was heard 26 ticks
      ago, the others 5.  One more network puts a younger one out, and the stalest stays. */
  lemma WrapEvictsYounger(h: Host)
    requires GoodHost(h) && h.word == U32 * U32
    ensures
      var t, now: stamp := Run(h, FRESH_TABLE, Heard(MAX_BSS_CNT, 0xFFFFFFF0, 5)), 10;
      var after := Step(h, t, UpdateScanned(NEWCOMER, None), now).scanned;
      && Sound(t) && t.free == 0
      && exists e :: e in t.scanned && e !in after && t.scanned[0] in after
                     && Age(now, e.lastScanned) == 5 && Age(now, t.scanned[0].lastScanned) == 26
  {
    Fills(h, MAX_BSS_CNT, 0xFFFFFFF0, 5);
    EveryRunFromFresh(h, Heard(MAX_BSS_CNT, 0xFFFFFFF0, 5));
    var es := Listed(MAX_BSS_CNT, 0xFFFFFFF0, 5);
    var v := Oldest(h, es);
    OldestPlain(h, es);
    assert es[1] in es && es[v].lastScanned == 5 && v != 0;
    hide Run, Step, Listed, Oldest, SameNetwork, Distinct;
    Evicts(h, es, v, 10);
    assert es[v] in es;
  }

  /** What hearing the newcomer does to a full table. */
  lemma Evicts(h: Host, es: seq<Entry>, v: nat, now: stamp)
    requires GoodHost(h) && |es| == MAX_BSS_CNT && Distinct(es) && v == Oldest(h, es)
    requires forall k :: 0 <= k < |es| ==> es[k].net == Net(k)
    ensures v < |es|
    ensures
      var after := Step(h, Table(es, 0, MAX_BSS_CNT), UpdateScanned(NEWCOMER, None), now).scanned;
      forall k :: 0 <= k < |es| ==> (es[k] in after <==> k != v)
  {
    var t := Table(es, 0, MAX_BSS_CNT);
    OtherNet(es, 255);
    forall k | 0 <= k < |es| ensures es[k] in es && !SameNetwork(es[k].net, NEWCOMER) {
      assert es[k].net.mac[0] != NEWCOMER.mac[0];
    }
    hide Step, Oldest, SameNetwork, Distinct, Find;
    UpdateEffect(h, t, NEWCOMER, now, None);
    forall k | 0 <= k < |es| ensures es[k] == es[v] <==> k == v {
      assert es[k].net.mac[0] == k && es[v].net.mac[0] == v;
    }
  }

  /** A full table whose first entry, the oldest, has been pinned: one more network puts it out. */
  lemma PinnedEvicted(h: Host, pinned: stamp, now: stamp)
    requires GoodHost(h) && h.word == U32 * U32
    ensures
      var t := Run(h, FRESH_TABLE, Heard(MAX_BSS_CNT, 0, 1) + [(Fix(0, true), pinned)]);
      Sound(t) && t.free == 0 && t.scanned[0].fixed
      && t.scanned[0] !in Step(h, t, UpdateScanned(NEWCOMER, None), now).scanned
  {
    var ops := Heard(MAX_BSS_CNT, 0, 1);
    Fills(h, MAX_BSS_CNT, 0, 1);
    RunSnoc(h, FRESH_TABLE, ops, Fix(0, true), pinned);
    EveryRunFromFresh(h, ops + [(Fix(0, true), pinned)]);
    var es := Listed(MAX_BSS_CNT, 0, 1);
    var fixed := es[0 := es[0].(fixed := true)];
    var v := Oldest(h, fixed);
    OldestPlain(h, fixed);
    assert fixed[0] in fixed && fixed[v].lastScanned == 0 && v == 0;
    hide Run, Listed, Oldest, SameNetwork, Distinct;
    Evicts(h, fixed, v, now);
  }
}
