/**
  What the NAT2.5 bridge database of core/rtw_br_ext.c is for: a map from network
  addresses to MAC addresses, with a time and a use count for ageing.
 */
module Nat25Spec {

  const HASH_SIZE := 16
  const NETWORK_ADDR_LEN := 17

  const IPV4: bv8 := 1
  const IPV6: bv8 := 2
  const IPX: bv8 := 3
  const APPLE: bv8 := 4
  const PPPOE: bv8 := 5

  type NetAddr = s: seq<bv8> | |s| == NETWORK_ADDR_LEN witness seq(NETWORK_ADDR_LEN, _ => 0)
  type Mac = seq<bv8>

  function Xor(x: bv8, y: bv8): bv8 {
    x ^ y
  }

  function Fold(s: seq<bv8>): bv8 {
    if s == [] then 0 else Xor(s[0], Fold(s[1..]))
  }

  function Mixed(a: NetAddr): bv8 {
    if a[0] == IPV4 then Fold(a[7..11])
    else if a[0] == IPX then Fold(a[1..11])
    else if a[0] == APPLE then Fold(a[1..4])
    else if a[0] == PPPOE then Fold(a[0..9])
    else if a[0] == IPV6 then Fold(a[1..17])
    else Fold(a)
  }

  /** __nat25_network_hash. */
  function Hash(a: NetAddr): (h: nat)
    ensures h < HASH_SIZE
  {
    (Mixed(a) & 0x0F) as nat
  }

  /** The bytes of an address that decide its bucket. */
  predicate Decides(kind: bv8, k: nat) {
    if kind == IPV4 then 7 <= k < 11
    else if kind == IPX then k < 11
    else if kind == APPLE then k < 4
    else if kind == PPPOE then k < 9
    else k < NETWORK_ADDR_LEN
  }

  lemma FoldCons(s: seq<bv8>)
    requires s != []
    ensures Fold(s) == Xor(s[0], Fold(s[1..]))
  {
  }

  lemma Moves(x: bv8, y: bv8, d: bv8)
    ensures Xor(Xor(x, d), y) == Xor(Xor(x, y), d) && Xor(x, Xor(y, d)) == Xor(Xor(x, y), d)
  {
  }

  lemma {:induction false} FoldMoves(s: seq<bv8>, k: nat, d: bv8)
    requires k < |s|
    ensures Fold(s[k := Xor(s[k], d)]) == Xor(Fold(s), d)
  {
    hide Fold, Xor;
    var s2 := s[k := Xor(s[k], d)];
    FoldCons(s);
    FoldCons(s2);
    Moves(s[0], Fold(s[1..]), d);
    if k == 0 {
      assert s2[1..] == s[1..];
    } else {
      assert s2[1..] == s[1..][k - 1 := Xor(s[1..][k - 1], d)];
      FoldMoves(s[1..], k - 1, d);
    }
  }

  lemma FoldPart(s: seq<bv8>, lo: nat, hi: nat, k: nat, d: bv8)
    requires lo <= hi <= |s| && k < |s|
    ensures Fold(s[k := Xor(s[k], d)][lo..hi]) == if lo <= k < hi then Xor(Fold(s[lo..hi]), d) else Fold(s[lo..hi])
  {
    hide Fold, Xor;
    var s2 := s[k := Xor(s[k], d)];
    if lo <= k < hi {
      var part := s[lo..hi];
      assert s2[lo..hi] == part[k - lo := Xor(part[k - lo], d)];
      FoldMoves(part, k - lo, d);
    } else {
      assert s2[lo..hi] == s[lo..hi];
    }
  }

  /** An address of one kind with another byte: what decides the bucket moves by the same bits if the byte is one
      that counts, and stays otherwise. */
  lemma MixedMoves(a: NetAddr, k: nat, d: bv8)
    requires 0 < k < NETWORK_ADDR_LEN
    ensures Mixed(a[k := Xor(a[k], d)]) == if Decides(a[0], k) then Xor(Mixed(a), d) else Mixed(a)
  {
    hide Fold, Xor;
    FoldPart(a, 7, 11, k, d);
    FoldPart(a, 1, 11, k, d);
    FoldPart(a, 1, 4, k, d);
    FoldPart(a, 0, 9, k, d);
    FoldPart(a, 1, 17, k, d);
    FoldPart(a, 0, 17, k, d);
    assert a[0..17] == a && a[k := Xor(a[k], d)][0..17] == a[k := Xor(a[k], d)];
  }

  /** And the address of a kind that is otherwise all zeros. */
  lemma MixedOfZeros(kind: bv8)
    ensures Mixed([kind] + seq(16, _ => 0)) == if kind in {IPV4, IPX, APPLE, IPV6} then 0 else kind
  {
    var a: NetAddr := [kind] + seq(16, _ => 0);
    hide Mixed;
    FoldOfZeros(a[7..11]);
    FoldOfZeros(a[1..11]);
    FoldOfZeros(a[1..4]);
    FoldOfZeros(a[1..9]);
    FoldOfZeros(a[1..17]);
    FoldCons(a);
    FoldCons(a[0..9]);
    assert a[0..9][1..] == a[1..9] && a[1..] == a[1..17];
    hide Fold, Xor;
    MixedIs(a);
    NoBits(kind);
  }

  lemma MixedIs(a: NetAddr)
    ensures Mixed(a) ==
      if a[0] == IPV4 then Fold(a[7..11])
      else if a[0] == IPX then Fold(a[1..11])
      else if a[0] == APPLE then Fold(a[1..4])
      else if a[0] == PPPOE then Fold(a[0..9])
      else if a[0] == IPV6 then Fold(a[1..17])
      else Fold(a)
  {
  }

  lemma NoBits(x: bv8)
    ensures Xor(x, 0) == x
  {
  }

  lemma {:induction false} FoldOfZeros(s: seq<bv8>)
    requires forall k :: 0 <= k < |s| ==> s[k] == 0
    ensures Fold(s) == 0
  {
    if s != [] {
      FoldOfZeros(s[1..]);
    }
  }

  /** NAT25_AGEING_TIME in ticks, and the width of jiffies, an unsigned long. */
  datatype Ageing = Ageing(ticks: nat, wide: bool)

  function Clock(age: Ageing): (c: nat)
    ensures c > 0 && c % 2 == 0
  {
    if age.wide then 0x1_0000_0000_0000_0000 else 0x1_0000_0000
  }

  /** time_before_eq on the wrapping clock, against the time of the ageing limit before `now`. */
  predicate Expired(time: nat, now: nat, age: Ageing) {
    (now - age.ticks - time) % Clock(age) < Clock(age) / 2
  }

  /** On entries stamped within half the clock's range, that is being so many ticks old or more. */
  lemma ExpiredIsOld(stamped: int, read: int, age: Ageing)
    requires -(Clock(age) / 2) <= read - stamped - age.ticks < Clock(age) / 2
    ensures Expired(stamped % Clock(age), read % Clock(age), age) <==> read - stamped >= age.ticks
  {
    if age.wide {
      WrapsWide(stamped, read, age.ticks);
      HalfWide(read - age.ticks - stamped);
    } else {
      WrapsNarrow(stamped, read, age.ticks);
      HalfNarrow(read - age.ticks - stamped);
    }
  }

  lemma WrapsWide(stamped: int, read: int, ticks: nat)
    ensures (read % 0x1_0000_0000_0000_0000 - ticks - stamped % 0x1_0000_0000_0000_0000) % 0x1_0000_0000_0000_0000
         == (read - ticks - stamped) % 0x1_0000_0000_0000_0000
  {
    var k := stamped / 0x1_0000_0000_0000_0000 - read / 0x1_0000_0000_0000_0000;
    assert read % 0x1_0000_0000_0000_0000 - ticks - stamped % 0x1_0000_0000_0000_0000
        == read - ticks - stamped + 0x1_0000_0000_0000_0000 * k;
    TurnsWide(read - ticks - stamped, k);
  }

  lemma HalfWide(x: int)
    requires -0x1_0000_0000_0000_0000 <= 2 * x < 0x1_0000_0000_0000_0000
    ensures x % 0x1_0000_0000_0000_0000 < 0x1_0000_0000_0000_0000 / 2 <==> x >= 0
  {
    if x < 0 {
      TurnsWide(x, 1);
    }
  }

  lemma TurnsWide(x: int, k: int)
    ensures (x + 0x1_0000_0000_0000_0000 * k) % 0x1_0000_0000_0000_0000 == x % 0x1_0000_0000_0000_0000
  {
  }

  lemma WrapsNarrow(stamped: int, read: int, ticks: nat)
    ensures (read % 0x1_0000_0000 - ticks - stamped % 0x1_0000_0000) % 0x1_0000_0000
         == (read - ticks - stamped) % 0x1_0000_0000
  {
    var k := stamped / 0x1_0000_0000 - read / 0x1_0000_0000;
    assert read % 0x1_0000_0000 - ticks - stamped % 0x1_0000_0000 == read - ticks - stamped + 0x1_0000_0000 * k;
    TurnsNarrow(read - ticks - stamped, k);
  }

  lemma HalfNarrow(x: int)
    requires -0x1_0000_0000 <= 2 * x < 0x1_0000_0000
    ensures x % 0x1_0000_0000 < 0x1_0000_0000 / 2 <==> x >= 0
  {
    if x < 0 {
      TurnsNarrow(x, 1);
    }
  }

  lemma TurnsNarrow(x: int, k: int)
    ensures (x + 0x1_0000_0000 * k) % 0x1_0000_0000 == x % 0x1_0000_0000
  {
  }

  datatype Record = Record(mac: Mac, time: nat, uses: nat)

  type Db = map<NetAddr, Record>

  /** A fresh entry gives its MAC address and is used once more; an expired one is found all the
      same, but left alone. */
  function Lookup(db: Db, a: NetAddr, now: nat, age: Ageing): (Db, bool, seq<Mac>) {
    if a !in db then (db, false, [])
    else if Expired(db[a].time, now, age) then (db, true, [])
    else (db[a := db[a].(uses := db[a].uses + 1)], true, [db[a].mac])
  }

  function Insert(db: Db, a: NetAddr, mac: Mac, now: nat): Db {
    if a in db then db[a := db[a].(mac := mac, time := now)] else db[a := Record(mac, now, 1)]
  }

  /** One expiry pass over the addresses for which `due` holds: an expired entry loses one use,
      and goes with its last. */
  ghost function ExpireAmong(db: Db, due: set<NetAddr>, now: nat, age: Ageing): Db {
    map a | a in db && !(a in due && Expired(db[a].time, now, age) && db[a].uses == 1) ::
      if a in due && Expired(db[a].time, now, age) && db[a].uses > 0 then db[a].(uses := db[a].uses - 1) else db[a]
  }

  ghost function Expire(db: Db, now: nat, age: Ageing): Db {
    ExpireAmong(db, db.Keys, now, age)
  }

  /** A pass may be made a few addresses at a time. */
  lemma PassesCompose(db: Db, d1: set<NetAddr>, d2: set<NetAddr>, now: nat, age: Ageing)
    requires d1 !! d2
    ensures ExpireAmong(ExpireAmong(db, d1, now, age), d2, now, age) == ExpireAmong(db, d1 + d2, now, age)
  {
  }

  lemma PassOverAll(db: Db, due: set<NetAddr>, now: nat, age: Ageing)
    requires db.Keys <= due
    ensures ExpireAmong(db, due, now, age) == Expire(db, now, age)
  {
  }

  ghost predicate Live(db: Db) {
    forall a :: a in db ==> db[a].uses >= 1
  }

  // ---------------------------------------------------------------------------
  // Over histories
  // ---------------------------------------------------------------------------

  datatype Event =
    | Learn(a: NetAddr, mac: Mac, now: nat)
    | Use(a: NetAddr, now: nat)
    | Pass(now: nat)
    | Flush

  ghost function Step(db: Db, e: Event, age: Ageing): Db {
    match e
    case Learn(a, mac, now) => Insert(db, a, mac, now)
    case Use(a, now) => Lookup(db, a, now, age).0
    case Pass(now) => Expire(db, now, age)
    case Flush => map[]
  }

  ghost function Run(db: Db, es: seq<Event>, age: Ageing): Db
    decreases |es|
  {
    if es == [] then db else Run(Step(db, es[0], age), es[1..], age)
  }

  /** How much the events change the use count of `a`, while it stays in the database. */
  ghost function Balance(db: Db, es: seq<Event>, a: NetAddr, age: Ageing): int
    requires Kept(db, es, a, age)
    decreases |es|
  {
    if es == [] then 0
    else
      (match es[0]
       case Use(b, now) => if b == a && !Expired(db[a].time, now, age) then 1 else 0
       case Pass(now) => if Expired(db[a].time, now, age) then -1 else 0
       case _ => 0)
      + Balance(Step(db, es[0], age), es[1..], a, age)
  }

  /** The address is in the database all along. */
  ghost predicate Kept(db: Db, es: seq<Event>, a: NetAddr, age: Ageing)
    decreases |es|
  {
    a in db && (es != [] ==> Kept(Step(db, es[0], age), es[1..], a, age))
  }

  lemma {:induction false} RunLive(db: Db, es: seq<Event>, age: Ageing)
    requires Live(db)
    ensures Live(Run(db, es, age))
    decreases |es|
  {
    if es != [] {
      RunLive(Step(db, es[0], age), es[1..], age);
    }
  }

  /** An entry's use count is what it was created with, plus the fresh lookups, minus the expiry
      passes that found it expired. */
  lemma {:induction false} UsesBalance(db: Db, es: seq<Event>, a: NetAddr, age: Ageing)
    requires Live(db) && Kept(db, es, a, age)
    ensures a in Run(db, es, age) && Run(db, es, age)[a].uses == db[a].uses + Balance(db, es, a, age)
    decreases |es|
  {
    if es != [] {
      UsesBalance(Step(db, es[0], age), es[1..], a, age);
    }
  }

  // ---------------------------------------------------------------------------
  // What is in the database, by the history
  // ---------------------------------------------------------------------------

  /** A lookup finds every address in the database, fresh or not, and answers with its MAC address exactly if
      it is fresh; only then is it used once more. */
  lemma LookupExactly(db: Db, a: NetAddr, now: nat, age: Ageing)
    ensures
      var (after, found, mac) := Lookup(db, a, now, age);
      && (found <==> a in db)
      && (mac != [] <==> a in db && !Expired(db[a].time, now, age))
      && (mac != [] ==> mac == [db[a].mac] && after == db[a := db[a].(uses := db[a].uses + 1)])
      && (mac == [] ==> after == db)
  {
    hide Expired;
  }

  predicate LearnedAt(es: seq<Event>, i: nat, a: NetAddr) {
    i < |es| && es[i].Learn? && es[i].a == a
  }

  /** Event `j` takes the address out: a flush, or a pass that expires its last use. */
  ghost predicate RemovedAt(es: seq<Event>, j: nat, a: NetAddr, age: Ageing)
    requires j < |es|
  {
    es[j].Flush? ||
    (es[j].Pass? &&
     var db := Run(map[], es[..j], age);
     a in db && Expired(db[a].time, es[j].now, age) && db[a].uses == 1)
  }

  /** It was learned, and not taken out since. */
  ghost predicate Known(es: seq<Event>, a: NetAddr, age: Ageing) {
    exists i: nat :: LearnedAt(es, i, a) && forall j :: i < j < |es| ==> !RemovedAt(es, j, a, age)
  }

  lemma {:induction false} RunSnoc(db: Db, es: seq<Event>, e: Event, age: Ageing)
    ensures Run(db, es + [e], age) == Step(Run(db, es, age), e, age)
    decreases |es|
  {
    hide Step;
    var more := es + [e];
    if es == [] {
      assert more[1..] == [];
    } else {
      assert more[1..] == es[1..] + [e];
      RunSnoc(Step(db, es[0], age), es[1..], e, age);
    }
  }

  lemma StepKnows(db: Db, e: Event, a: NetAddr, age: Ageing)
    ensures a in Step(db, e, age) <==>
            || (e.Learn? && e.a == a)
            || (a in db && !e.Flush? && !(e.Pass? && Expired(db[a].time, e.now, age) && db[a].uses == 1))
  {
    hide Expired;
  }

  lemma KnownSnoc(es: seq<Event>, e: Event, a: NetAddr, age: Ageing)
    ensures Known(es + [e], a, age) <==>
            (e.Learn? && e.a == a) || (Known(es, a, age) && !RemovedAt(es + [e], |es|, a, age))
  {
    hide Run, Expired;
    var more := es + [e];
    assert more[|es|] == e && forall i :: 0 <= i < |es| ==> more[i] == es[i] && more[..i] == es[..i];
    assert more[..|es|] == es;
    forall i: nat ensures LearnedAt(more, i, a) <==> if i == |es| then e.Learn? && e.a == a else LearnedAt(es, i, a) {}
    forall j: nat | j < |es| ensures RemovedAt(more, j, a, age) <==> RemovedAt(es, j, a, age) {}
    hide LearnedAt, RemovedAt;
    if Known(es, a, age) && !RemovedAt(more, |es|, a, age) {
      var i: nat :| LearnedAt(es, i, a) && forall j :: i < j < |es| ==> !RemovedAt(es, j, a, age);
      assert LearnedAt(more, i, a) by { LearnedInside(es, i, a); }
    }
    if Known(more, a, age) && !(e.Learn? && e.a == a) {
      var i: nat :| LearnedAt(more, i, a) && forall j :: i < j < |more| ==> !RemovedAt(more, j, a, age);
      LearnedInside(more, i, a);
      assert LearnedAt(es, i, a);
    }
    if e.Learn? && e.a == a {
      assert LearnedAt(more, |es|, a);
    }
  }

  lemma LearnedInside(es: seq<Event>, i: nat, a: NetAddr)
    requires LearnedAt(es, i, a)
    ensures i < |es|
  {
  }

  /** Over every run from the empty database, a lookup finds an address exactly if it was learned and no flush
      and no pass that expired its last use came since. */
  lemma {:induction false} FindsExactly(es: seq<Event>, a: NetAddr, now: nat, age: Ageing)
    ensures Lookup(Run(map[], es, age), a, now, age).1 <==> Known(es, a, age)
    decreases |es|
  {
    LookupExactly(Run(map[], es, age), a, now, age);
    if es != [] {
      hide Lookup, Known, Step, Expired;
      var front, e := es[..|es| - 1], es[|es| - 1];
      FindsExactly(front, a, now, age);
      LookupExactly(Run(map[], front, age), a, now, age);
      assert front + [e] == es;
      RunSnoc(map[], front, e, age);
      StepKnows(Run(map[], front, age), e, a, age);
      KnownSnoc(front, e, a, age);
    }
  }

  /** Over every run, a record carries the MAC address and the time it was last learned with. */
  lemma {:induction false} RecordIsLastLearned(es: seq<Event>, a: NetAddr, age: Ageing) returns (i: nat)
    requires a in Run(map[], es, age)
    ensures LearnedAt(es, i, a) && forall j :: i < j < |es| ==> !LearnedAt(es, j, a)
    ensures
      var rec := Run(map[], es, age)[a];
      rec.mac == es[i].mac && rec.time == es[i].now
    decreases |es|
  {
    var front, e := es[..|es| - 1], es[|es| - 1];
    assert front + [e] == es;
    RunSnoc(map[], front, e, age);
    hide Run, Expired;
    if e.Learn? && e.a == a {
      i := |es| - 1;
    } else {
      i := RecordIsLastLearned(front, a, age);
      forall j | i < j < |es| ensures !LearnedAt(es, j, a) {
        assert j < |front| ==> es[j] == front[j] && !LearnedAt(front, j, a);
      }
    }
  }

  /** An entry's use count, from its birth on: one, and one more for each fresh lookup, and one less for each
      pass that found it expired. */
  lemma UsesSinceBirth(es: seq<Event>, i: nat, a: NetAddr, age: Ageing)
    requires LearnedAt(es, i, a) && a !in Run(map[], es[..i], age)
    requires Kept(Run(map[], es[..i + 1], age), es[i + 1..], a, age)
    ensures
      var born := Run(map[], es[..i + 1], age);
      var t := Run(born, es[i + 1..], age);
      a in t && t[a].uses == 1 + Balance(born, es[i + 1..], a, age)
  {
    assert es[..i] + [es[i]] == es[..i + 1];
    RunSnoc(map[], es[..i], es[i], age);
    RunLive(map[], es[..i + 1], age);
    UsesBalance(Run(map[], es[..i + 1], age), es[i + 1..], a, age);
    hide Run, Balance, Kept;
  }

  ghost predicate AllPassesExpire(rec: Record, passes: seq<nat>, age: Ageing) {
    forall i :: 0 <= i < |passes| ==> Expired(rec.time, passes[i], age)
  }

  function Passes(times: seq<nat>): seq<Event> {
    if times == [] then [] else [Pass(times[0])] + Passes(times[1..])
  }

  /** Left alone, an expired entry with `uses` uses is there for uses - 1 passes and gone at the
      next: that is how long a lookup prolongs its life. */
  lemma {:induction false} LastsAsLongAsUsed(db: Db, a: NetAddr, times: seq<nat>, age: Ageing)
    requires a in db && Live(db) && AllPassesExpire(db[a], times, age)
    ensures a in Run(db, Passes(times), age) <==> |times| < db[a].uses
    decreases |times|
  {
    if times != [] {
      var next := Expire(db, times[0], age);
      assert Passes(times)[1..] == Passes(times[1..]);
      if a in next {
        forall i | 0 <= i < |times[1..]| ensures Expired(next[a].time, times[1..][i], age) {
          assert times[1..][i] == times[i + 1];
        }
        LastsAsLongAsUsed(next, a, times[1..], age);
      } else {
        StaysGone(next, a, times[1..], age);
      }
    }
  }

  lemma {:induction false} StaysGone(db: Db, a: NetAddr, times: seq<nat>, age: Ageing)
    requires a !in db
    ensures a !in Run(db, Passes(times), age)
    decreases |times|
  {
    if times != [] {
      assert Passes(times)[1..] == Passes(times[1..]);
      StaysGone(Expire(db, times[0], age), a, times[1..], age);
    }
  }
}
