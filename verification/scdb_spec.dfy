/**
  The shortcut around the NAT2.5 database (core/rtw_xmit.c, core/rtw_br_ext.c): the transmit path
  remembers the MAC and IP address of one sender and refreshes its entry without a search; the receive
  path sends what is for that IP address to that MAC address without a lookup.
 */
module ScdbSpec {
  import opened Nat25Spec

  type Ip = s: seq<bv8> | |s| == 4 witness [0, 0, 0, 0]

  const NO_MAC: Mac := [0, 0, 0, 0, 0, 0]
  const NO_IP: Ip := [0, 0, 0, 0]

  /** __nat25_generate_ipv4_network_addr. */
  function Ipv4Addr(ip: Ip): NetAddr {
    [IPV4] + seq(6, _ => 0) + ip + seq(6, _ => 0)
  }

  lemma Ipv4AddrTells(a: Ip, b: Ip)
    ensures Ipv4Addr(a) == Ipv4Addr(b) <==> a == b
  {
    assert Ipv4Addr(a)[7..11] == a && Ipv4Addr(b)[7..11] == b;
  }

  /** The database beside scdb_mac and scdb_ip; `known` says that scdb_entry is not NULL. */
  datatype Scdb = Scdb(db: Db, known: bool, mac: Mac, ip: Ip)

  const FRESH := Scdb(map[], false, NO_MAC, NO_IP)

  /** What is remembered is in the database. */
  ghost predicate Sound(s: Scdb) {
    Live(s.db) && (s.known ==> Ipv4Addr(s.ip) in s.db)
  }

  function Stamped(db: Db, a: NetAddr, now: nat): Db {
    if a in db then db[a := db[a].(time := now)] else db
  }

  /** The database changes; an entry that goes is forgotten. */
  function Forget(s: Scdb, db: Db): Scdb {
    if s.known && Ipv4Addr(s.ip) !in db then Scdb(db, false, NO_MAC, NO_IP) else s.(db := db)
  }

  /** An IP packet to send. */
  function Send(s: Scdb, mac: Mac, ip: Ip, now: nat): Scdb {
    if mac == s.mac then
      if s.known then s.(db := Stamped(s.db, Ipv4Addr(s.ip), now)) else s.(mac := NO_MAC, ip := NO_IP)
    else if Ipv4Addr(ip) in s.db then Scdb(Stamped(s.db, Ipv4Addr(ip), now), true, mac, ip)
    else s.(known := false)
  }

  /** An IP packet received: whether its address is found, and the MAC address it is given, if any. */
  function Deliver(s: Scdb, ip: Ip, now: nat, age: Ageing): (Scdb, bool, seq<Mac>) {
    if ip == s.ip then (s, true, [s.mac])
    else
      var (db, found, mac) := Lookup(s.db, Ipv4Addr(ip), now, age);
      (s.(db := db), found, mac)
  }

  datatype Event =
    | Other(e: Nat25Spec.Event)
    | Sent(mac: Mac, ip: Ip, now: nat, direct: bool)
    | Received(ip: Ip, now: nat)

  ghost function Step(s: Scdb, e: Event, age: Ageing): Scdb {
    match e
    case Other(d) => Forget(s, Nat25Spec.Step(s.db, d, age))
    case Sent(mac, ip, now, _) => Send(s, mac, ip, now)
    case Received(ip, now) => Deliver(s, ip, now, age).0
  }

  ghost function Run(s: Scdb, es: seq<Event>, age: Ageing): Scdb
    decreases |es|
  {
    if es == [] then s else Step(Run(s, es[..|es| - 1], age), es[|es| - 1], age)
  }

  lemma RunSnoc(s: Scdb, es: seq<Event>, e: Event, age: Ageing)
    ensures Run(s, es + [e], age) == Step(Run(s, es, age), e, age)
  {
    assert (es + [e])[..|es|] == es;
  }

  lemma StepKeeps(s: Scdb, e: Event, age: Ageing)
    requires Sound(s)
    ensures Sound(Step(s, e, age))
  {
    hide Ipv4Addr, Expired;
  }

  lemma {:induction false} EveryRun(s: Scdb, es: seq<Event>, age: Ageing)
    requires Sound(s)
    ensures Sound(Run(s, es, age))
    decreases |es|
  {
    hide Sound, Step;
    if es != [] {
      EveryRun(s, es[..|es| - 1], age);
      StepKeeps(Run(s, es[..|es| - 1], age), es[|es| - 1], age);
    }
  }

  /** What a packet sent leaves remembered, and the one record it stamps. */
  lemma SendExactly(s: Scdb, mac: Mac, ip: Ip, now: nat)
    requires Sound(s)
    ensures
      var t := Send(s, mac, ip, now);
      && (t.known <==> if mac == s.mac then s.known else Ipv4Addr(ip) in s.db)
      && (t.known ==> t.mac == mac && t.ip == if mac == s.mac then s.ip else ip)
      && (!t.known && mac == s.mac ==> t.mac == NO_MAC && t.ip == NO_IP)
      && (!t.known && mac != s.mac ==> t.mac == s.mac && t.ip == s.ip)
      && t.db.Keys == s.db.Keys
      && forall c :: c in s.db ==>
           t.db[c] == if t.known && c == Ipv4Addr(t.ip) then s.db[c].(time := now) else s.db[c]
  {
    hide Ipv4Addr;
  }

  /** What is remembered is forgotten exactly when its entry goes, and then altogether. */
  lemma ForgetsExactly(s: Scdb, d: Nat25Spec.Event, age: Ageing)
    ensures
      var t := Step(s, Other(d), age);
      && t.db == Nat25Spec.Step(s.db, d, age)
      && (t.known <==> s.known && Ipv4Addr(s.ip) in t.db)
      && (t.mac, t.ip) == if s.known && !t.known then (NO_MAC, NO_IP) else (s.mac, s.ip)
  {
    hide Ipv4Addr;
  }

  // ---------------------------------------------------------------------------
  // What a packet of the remembered sender refreshes
  // ---------------------------------------------------------------------------

  /** The sender is told by its MAC address alone: its own IP address is refreshed if and only if it is the
      remembered one, and of all others only that one is. */
  lemma RefreshesOwnExactly(s: Scdb, mac: Mac, ip: Ip, now: nat)
    requires Sound(s) && s.known && mac == s.mac
    requires Ipv4Addr(ip) in s.db && s.db[Ipv4Addr(ip)].time != now
    ensures
      var t, a, b := Send(s, mac, ip, now), Ipv4Addr(ip), Ipv4Addr(s.ip);
      && t == s.(db := t.db) && t.db.Keys == s.db.Keys
      && (t.db[a].time == now <==> ip == s.ip)
      && t.db[b] == s.db[b].(time := now)
      && forall c :: c in s.db && c != b ==> t.db[c] == s.db[c]
  {
    Ipv4AddrTells(ip, s.ip);
    hide Ipv4Addr;
  }

  ghost predicate AllSentBy(es: seq<Event>, mac: Mac) {
    forall i :: 0 <= i < |es| ==> es[i].Sent? && es[i].mac == mac
  }

  /** As long as only the remembered sender sends, from whatever IP addresses, only the remembered entry is
      refreshed: every other record stays, however old it gets. */
  lemma {:induction false} OthersStay(s: Scdb, es: seq<Event>, age: Ageing)
    requires Sound(s) && s.known && AllSentBy(es, s.mac)
    ensures
      var t := Run(s, es, age);
      && t == s.(db := t.db) && t.db.Keys == s.db.Keys
      && (forall c :: c in s.db ==> t.db[c] == s.db[c].(time := t.db[c].time))
      && forall c :: c in s.db && c != Ipv4Addr(s.ip) ==> t.db[c] == s.db[c]
    decreases |es|
  {
    hide Ipv4Addr;
    if es != [] {
      OthersStay(s, es[..|es| - 1], age);
    }
  }

  /** A station known under two IP addresses, which sends from the first and then from the second. */
  function TwoAddresses(mac: Mac, one: Ip, two: Ip): seq<Event> {
    [Other(Learn(Ipv4Addr(one), mac, 1)), Other(Learn(Ipv4Addr(two), mac, 2)),
     Sent(mac, one, 3, true), Sent(mac, two, 4, true)]
  }

  /** The second packet refreshes the entry of the first address, and that of its own keeps its time. */
  lemma SecondAddressStays(mac: Mac, one: Ip, two: Ip, age: Ageing)
    requires one != two && mac != NO_MAC
    ensures
      Run(FRESH, TwoAddresses(mac, one, two), age) ==
      Scdb(map[Ipv4Addr(one) := Record(mac, 4, 1), Ipv4Addr(two) := Record(mac, 2, 1)], true, mac, one)
  {
    hide Ipv4Addr, Run;
    Ipv4AddrTells(one, two);
    var a, b, es := Ipv4Addr(one), Ipv4Addr(two), TwoAddresses(mac, one, two);
    FrontOf(es[0], es[1], es[2], es[3]);
    NothingRun(FRESH, age);
    RunSnoc(FRESH, [], es[0], age);
    RunSnoc(FRESH, [es[0]], es[1], age);
    RunSnoc(FRESH, [es[0], es[1]], es[2], age);
    RunSnoc(FRESH, [es[0], es[1], es[2]], es[3], age);
    assert Run(FRESH, [es[0]], age) == Scdb(map[a := Record(mac, 1, 1)], false, NO_MAC, NO_IP);
    assert Run(FRESH, [es[0], es[1]], age) ==
           Scdb(map[a := Record(mac, 1, 1), b := Record(mac, 2, 1)], false, NO_MAC, NO_IP);
    assert Run(FRESH, [es[0], es[1], es[2]], age) ==
           Scdb(map[a := Record(mac, 3, 1), b := Record(mac, 2, 1)], true, mac, one);
  }

  lemma FrontOf(e1: Event, e2: Event, e3: Event, e4: Event)
    ensures [] + [e1] == [e1] && [e1] + [e2] == [e1, e2] && [e1, e2] + [e3] == [e1, e2, e3]
    ensures [e1, e2, e3] + [e4] == [e1, e2, e3, e4]
  {
  }

  lemma NothingRun(s: Scdb, age: Ageing)
    ensures Run(s, [], age) == s
  {
  }

  // ---------------------------------------------------------------------------
  // What the receive path answers
  // ---------------------------------------------------------------------------

  /** The shortcut answers as the lookup would, exactly if that finds a fresh entry with the remembered
      MAC address. */
  lemma ShortcutAgrees(s: Scdb, ip: Ip, now: nat, age: Ageing)
    ensures
      var (_, found, mac) := Deliver(s, ip, now, age);
      var (_, found0, mac0) := Lookup(s.db, Ipv4Addr(ip), now, age);
      found == found0 && mac == mac0 <==>
      ip == s.ip ==> && Ipv4Addr(ip) in s.db && !Expired(s.db[Ipv4Addr(ip)].time, now, age)
                     && s.db[Ipv4Addr(ip)].mac == s.mac
  {
    hide Ipv4Addr, Expired;
  }

  /** The MAC address last learned for an address. */
  function LastTaught(es: seq<Event>, a: NetAddr): seq<Mac>
    decreases |es|
  {
    if es == [] then []
    else
      var e := es[|es| - 1];
      if e.Other? && e.e.Learn? && e.e.a == a then [e.e.mac] else LastTaught(es[..|es| - 1], a)
  }

  /** Over every run, a record carries the MAC address last learned for it. */
  lemma {:induction false} RecordIsLastTaught(es: seq<Event>, a: NetAddr, age: Ageing)
    ensures
      var s := Run(FRESH, es, age);
      a in s.db ==> LastTaught(es, a) == [s.db[a].mac]
    decreases |es|
  {
    hide Ipv4Addr, Expired;
    if es != [] {
      RecordIsLastTaught(es[..|es| - 1], a, age);
    }
  }

  /** What is remembered was sent by that station from that address, at some point. */
  ghost predicate WasSent(es: seq<Event>, mac: Mac, ip: Ip) {
    exists i :: 0 <= i < |es| && es[i].Sent? && es[i].mac == mac && es[i].ip == ip
  }

  lemma WasSentSnoc(es: seq<Event>, e: Event, mac: Mac, ip: Ip)
    ensures WasSent(es, mac, ip) ==> WasSent(es + [e], mac, ip)
    ensures e.Sent? && e.mac == mac && e.ip == ip ==> WasSent(es + [e], mac, ip)
  {
    var more := es + [e];
    assert more[|es|] == e;
    if i :| 0 <= i < |es| && es[i].Sent? && es[i].mac == mac && es[i].ip == ip {
      assert more[i] == es[i];
    }
  }

  lemma {:induction false} RememberedWasSent(es: seq<Event>, age: Ageing)
    ensures
      var s := Run(FRESH, es, age);
      (s.mac == NO_MAC && s.ip == NO_IP) || WasSent(es, s.mac, s.ip)
    decreases |es|
  {
    hide Ipv4Addr, Expired, WasSent;
    if es != [] {
      var n := |es| - 1;
      var s, t := Run(FRESH, es[..n], age), Run(FRESH, es, age);
      RememberedWasSent(es[..n], age);
      assert es[..n] + [es[n]] == es;
      WasSentSnoc(es[..n], es[n], t.mac, t.ip);
    }
  }

  /** Every IP address is used by one station only, by what is learned and by what is sent. */
  ghost predicate OneOwner(es: seq<Event>, owner: map<Ip, Mac>) {
    forall i :: 0 <= i < |es| ==>
      && (es[i].Sent? ==> es[i].ip in owner && owner[es[i].ip] == es[i].mac)
      && (es[i].Other? && es[i].e.Learn? ==>
            forall ip: Ip :: es[i].e.a == Ipv4Addr(ip) ==> ip in owner && owner[ip] == es[i].e.mac)
  }

  lemma {:induction false} TaughtByOwner(es: seq<Event>, owner: map<Ip, Mac>, ip: Ip)
    requires OneOwner(es, owner) && LastTaught(es, Ipv4Addr(ip)) != []
    ensures ip in owner && LastTaught(es, Ipv4Addr(ip)) == [owner[ip]]
    decreases |es|
  {
    hide Ipv4Addr;
    var n := |es| - 1;
    var e := es[n];
    if !(e.Other? && e.e.Learn? && e.e.a == Ipv4Addr(ip)) {
      TaughtByOwner(es[..n], owner, ip);
    }
  }

  /** Then, over every run, the shortcut and the lookup never give a packet another MAC address than that
      of its owner. */
  lemma OwnerIsAnswered(es: seq<Event>, owner: map<Ip, Mac>, ip: Ip, now: nat, age: Ageing)
    requires OneOwner(es, owner) && ip != NO_IP
    ensures
      var (_, _, mac) := Deliver(Run(FRESH, es, age), ip, now, age);
      mac == [] || (ip in owner && mac == [owner[ip]])
  {
    var s := Run(FRESH, es, age);
    RecordIsLastTaught(es, Ipv4Addr(ip), age);
    if Ipv4Addr(ip) in s.db {
      TaughtByOwner(es, owner, ip);
    }
    RememberedWasSent(es, age);
    hide Ipv4Addr, Expired, Run;
  }

  /** Over every run, shortcut and database name the same station for the remembered address if and only if
      the last one learned for it is the one remembered. */
  lemma NamesAgreeExactly(es: seq<Event>, age: Ageing)
    ensures
      var s := Run(FRESH, es, age);
      s.known ==> && Ipv4Addr(s.ip) in s.db
                  && (s.db[Ipv4Addr(s.ip)].mac == s.mac <==> LastTaught(es, Ipv4Addr(s.ip)) == [s.mac])
  {
    EveryRun(FRESH, es, age);
    RecordIsLastTaught(es, Ipv4Addr(Run(FRESH, es, age).ip), age);
    hide Ipv4Addr, Run;
  }

  /** Another station takes over an IP address: the shortcut follows it, the database does not, and goes on
      not following it however much that station sends. */
  lemma TakenOver(first: Mac, second: Mac, ip: Ip, more: seq<Event>, age: Ageing)
    requires first != second && second != NO_MAC && AllSentBy(more, second)
    ensures
      var s := Run(Run(FRESH, [Other(Learn(Ipv4Addr(ip), first, 1)), Sent(second, ip, 2, true)], age), more, age);
      && s.known && s.ip == ip && s.mac == second && Ipv4Addr(ip) in s.db && s.db[Ipv4Addr(ip)].mac == first
  {
    hide Ipv4Addr;
    var e1, e2 := Other(Learn(Ipv4Addr(ip), first, 1)), Sent(second, ip, 2, true);
    RunSnoc(FRESH, [], e1, age);
    RunSnoc(FRESH, [e1], e2, age);
    assert [] + [e1] == [e1] && [e1] + [e2] == [e1, e2];
    OthersStay(Run(FRESH, [e1, e2], age), more, age);
  }

  /** A sender the database does not know leaves what was remembered in place but for the entry, so that
      the shortcut outlives the database. */
  lemma ShortcutOutlives(mac: Mac, other: Mac, one: Ip, two: Ip, now: nat, age: Ageing)
    requires one != two && mac != NO_MAC && other != mac
    ensures
      var s := Run(FRESH, [Other(Learn(Ipv4Addr(one), mac, 1)), Sent(mac, one, 2, true),
                           Sent(other, two, 3, true), Other(Flush)], age);
      s.db == map[] && Deliver(s, one, now, age) == (s, true, [mac])
  {
    Ipv4AddrTells(one, two);
    hide Ipv4Addr;
    var e1, e2 := Other(Learn(Ipv4Addr(one), mac, 1)), Sent(mac, one, 2, true);
    var e3, e4 := Sent(other, two, 3, true), Other(Flush);
    RunSnoc(FRESH, [], e1, age);
    RunSnoc(FRESH, [e1], e2, age);
    RunSnoc(FRESH, [e1, e2], e3, age);
    RunSnoc(FRESH, [e1, e2, e3], e4, age);
    FrontOf(e1, e2, e3, e4);
  }
}
