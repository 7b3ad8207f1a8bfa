/**
  The database itself: sixteen hash chains of heap entries.  Each entry knows, beside its
  successor, where the pointer to itself is stored, so that it can be unlinked without a
  search.
 */
module Nat25 {
  import opened Lists
  import opened Nat25Spec
  import opened ScdbSpec

  /** A value of pprev_hash: which pointer points here. */
  datatype Back = Nowhere | Head(h: nat) | NextOf(e: Entry)

  class Entry {
    const networkAddr: NetAddr
    var macAddr: Mac
    var ageingTimer: nat
    var useCount: nat
    var nextHash: Entry?
    var pprevHash: Back

    constructor (networkAddr: NetAddr, macAddr: Mac, now: nat)
      ensures this.networkAddr == networkAddr
      ensures Rec() == Record(macAddr, now, 1)
    {
      this.networkAddr := networkAddr;
      this.macAddr := macAddr;
      ageingTimer := now;
      useCount := 1;
      nextHash := null;
      pprevHash := Nowhere;
    }

    function Rec(): Record
      reads this`macAddr, this`ageingTimer, this`useCount
    {
      Record(macAddr, ageingTimer, useCount)
    }
  }

  // ---------------------------------------------------------------------------
  // Chains as sequences of entries
  // ---------------------------------------------------------------------------

  /** A chain holds each of its addresses once, all in the right bucket. */
  ghost predicate Keyed(h: nat, c: seq<Entry>) {
    && (forall e :: e in c ==> Hash(e.networkAddr) == h)
    && (forall i, j :: 0 <= i < j < |c| ==> c[i].networkAddr != c[j].networkAddr)
  }

  ghost predicate AllKeyed(chains: seq<seq<Entry>>) {
    forall h :: 0 <= h < |chains| ==> Keyed(h, chains[h])
  }

  ghost function Without(c: seq<Entry>, i: nat): (r: seq<Entry>)
    requires i < |c|
    ensures forall x :: x in r ==> x in c
  {
    c[..i] + c[i + 1..]
  }

  lemma WithoutAt(c: seq<Entry>, i: nat)
    requires i < |c|
    ensures |Without(c, i)| == |c| - 1
    ensures forall j :: 0 <= j < |c| - 1 ==> Without(c, i)[j] == c[if j < i then j else j + 1]
  {
  }

  /** Forward and backward links of one chain are exact; `head` is what its bucket holds. */
  ghost predicate Linked(head: Entry?, h: nat, c: seq<Entry>)
    reads c`nextHash, c`pprevHash
  {
    && (c == [] ==> head == null)
    && (c != [] ==> head == c[0] && c[0].pprevHash == Head(h) && c[|c| - 1].nextHash == null)
    && (forall i {:trigger c[i].nextHash} :: 0 <= i < |c| - 1 ==> c[i].nextHash == c[i + 1])
    && (forall i {:trigger c[i].pprevHash} :: 0 < i < |c| ==> c[i].pprevHash == NextOf(c[i - 1]))
  }

  /** The entries of all chains but one. */
  ghost function Others(chains: seq<seq<Entry>>, h: nat): set<Entry> {
    set k, e | 0 <= k < |chains| && k != h && e in chains[k] :: e
  }

  ghost predicate OthersLinked(heads: seq<Entry?>, chains: seq<seq<Entry>>, h: nat)
    requires |heads| == |chains|
    reads Others(chains, h)`nextHash, Others(chains, h)`pprevHash
  {
    forall k :: 0 <= k < |chains| && k != h ==>
                  (forall e :: e in chains[k] ==> e in Others(chains, h)) && Linked(heads[k], k, chains[k])
  }

  /** `nodes` names exactly the chained entries. */
  ghost predicate Indexed(chains: seq<seq<Entry>>, nodes: map<NetAddr, Entry>) {
    && |chains| == HASH_SIZE
    && (forall h, e :: 0 <= h < HASH_SIZE && e in chains[h] ==> e.networkAddr in nodes && nodes[e.networkAddr] == e)
    && (forall a :: a in nodes ==> nodes[a].networkAddr == a && nodes[a] in chains[Hash(a)])
  }

  /** Implied by Indexed; said apart so that predicates over a chain know what they read. */
  ghost predicate InNodes(c: seq<Entry>, nodes: map<NetAddr, Entry>) {
    forall e :: e in c ==> e in nodes.Values
  }

  lemma NoChainsNoNodes(chains: seq<seq<Entry>>, nodes: map<NetAddr, Entry>)
    requires Indexed(chains, nodes) && forall h :: 0 <= h < HASH_SIZE ==> chains[h] == []
    ensures nodes == map[]
  {
    hide Hash;
    assert forall a :: a in nodes ==> nodes[a] in chains[Hash(a)];
    assert forall a: NetAddr :: a !in nodes;
  }

  lemma IndexedInNodes(chains: seq<seq<Entry>>, nodes: map<NetAddr, Entry>, h: nat)
    requires Indexed(chains, nodes) && h < HASH_SIZE
    ensures InNodes(chains[h], nodes)
  {
    forall e | e in chains[h] ensures e in nodes.Values {
      assert nodes[e.networkAddr] == e;
    }
  }

  lemma PushKeeps(chains: seq<seq<Entry>>, nodes: map<NetAddr, Entry>, e: Entry)
    requires Indexed(chains, nodes) && AllKeyed(chains) && e.networkAddr !in nodes
    ensures
      var h := Hash(e.networkAddr);
      var chains' := chains[h := [e] + chains[h]];
      Indexed(chains', nodes[e.networkAddr := e]) && AllKeyed(chains')
  {
    var h := Hash(e.networkAddr);
    var c := [e] + chains[h];
    assert forall x :: x in c <==> x == e || x in chains[h];
    assert e in c;
    forall i, j | 0 <= i < j < |c| ensures c[i].networkAddr != c[j].networkAddr {
      assert c[j] in chains[h];
    }
    assert Keyed(h, c);
  }

  lemma WithoutKeyed(h: nat, c: seq<Entry>, i: nat)
    requires Keyed(h, c) && i < |c|
    ensures Keyed(h, Without(c, i))
    ensures forall x :: x in Without(c, i) <==> x in c && x.networkAddr != c[i].networkAddr
  {
    hide Hash;
    var c' := Without(c, i);
    assert c[i] in c && forall x :: x in c' ==> x in c;
    forall x | x in c && x.networkAddr != c[i].networkAddr ensures x in c' {
      var j :| 0 <= j < |c| && c[j] == x;
      assert c'[if j < i then j else j - 1] == x;
    }
  }

  lemma DropKeeps(chains: seq<seq<Entry>>, nodes: map<NetAddr, Entry>, h: nat, i: nat)
    requires Indexed(chains, nodes) && AllKeyed(chains)
    requires h < |chains| && i < |chains[h]|
    ensures
      var chains' := chains[h := Without(chains[h], i)];
      Indexed(chains', nodes - {chains[h][i].networkAddr}) && AllKeyed(chains')
  {
    hide Hash, Without;
    var e := chains[h][i];
    WithoutKeyed(h, chains[h], i);
    assert e in chains[h] && Keyed(h, chains[h]);
    forall k, x | 0 <= k < HASH_SIZE && x in chains[k] && k != h ensures x.networkAddr != e.networkAddr {
      assert Keyed(k, chains[k]);
    }
    var chains', nodes' := chains[h := Without(chains[h], i)], nodes - {e.networkAddr};
    forall k | 0 <= k < HASH_SIZE ensures Keyed(k, chains'[k]) {
      assert k != h ==> chains'[k] == chains[k] && Keyed(k, chains[k]);
    }
    forall k, x: Entry | 0 <= k < HASH_SIZE && x in chains'[k]
      ensures x.networkAddr in nodes' && nodes'[x.networkAddr] == x
    {
      assert k == h ==> chains'[k] == Without(chains[h], i);
      assert x in chains[k];
    }
    forall a | a in nodes' ensures nodes'[a].networkAddr == a && nodes'[a] in chains'[Hash(a)] {
      assert nodes[a] in chains[Hash(a)];
    }
  }

  class Bridge {
    const nethash: array<Entry?>
    const age: Ageing
    var scdbEntry: Entry?
    var scdbMac: seq<bv8>
    var scdbIp: Ip
    ghost var chains: seq<seq<Entry>>              // bucket by bucket, first entry first
    ghost var nodes: map<NetAddr, Entry>           // the entry of each address

    constructor (age: Ageing)
      ensures Valid() && this.age == age && View() == map[] && Cache() == FRESH && nodes == map[]
      ensures fresh(nethash) && scdbEntry == null
    {
      nethash := new Entry?[HASH_SIZE](_ => null);
      this.age := age;
      scdbEntry := null;
      scdbMac, scdbIp := NO_MAC, NO_IP;
      chains := seq(HASH_SIZE, _ => []);
      nodes := map[];
    }

    // -------------------------------------------------------------------------
    // The shape of the structure
    // -------------------------------------------------------------------------

    ghost predicate Shape()
      reads this`chains, this`nodes, nethash, nodes.Values`nextHash, nodes.Values`pprevHash
    {
      && nethash.Length == HASH_SIZE
      && Indexed(chains, nodes) && AllKeyed(chains)
      && forall h :: 0 <= h < HASH_SIZE ==> InNodes(chains[h], nodes) && Linked(nethash[h], h, chains[h])
    }

    ghost predicate Valid()
      reads this, nethash, nodes.Values
    {
      && Shape()
      && Live(View())
      && Remembers()
    }

    /** The remembered entry is that of the remembered IP address. */
    ghost predicate Remembers()
      reads this`scdbEntry, this`scdbIp, this`nodes
    {
      scdbEntry != null ==> Ipv4Addr(scdbIp) in nodes && nodes[Ipv4Addr(scdbIp)] == scdbEntry
    }

    ghost function Cache(): Scdb
      reads this`nodes, this`scdbEntry, this`scdbMac, this`scdbIp
      reads nodes.Values`macAddr, nodes.Values`ageingTimer, nodes.Values`useCount
    {
      Scdb(View(), scdbEntry != null, scdbMac, scdbIp)
    }

    ghost function View(): Db
      reads this`nodes, nodes.Values`macAddr, nodes.Values`ageingTimer, nodes.Values`useCount
    {
      map a | a in nodes :: nodes[a].Rec()
    }

    // -------------------------------------------------------------------------
    // Linking and unlinking
    // -------------------------------------------------------------------------

    /** __network_hash_link: push onto the front of a chain. */
    method PushLinks(ent: Entry, h: nat, ghost c: seq<Entry>)
      requires h < nethash.Length && Linked(nethash[h], h, c) && NoDup(c) && ent !in c
      modifies nethash, ent`nextHash, ent`pprevHash, c`pprevHash
      ensures Linked(nethash[h], h, [ent] + c)
      ensures forall k :: 0 <= k < nethash.Length && k != h ==> nethash[k] == old(nethash[k])
    {
      ent.nextHash := nethash[h];
      if ent.nextHash != null {
        ent.nextHash.pprevHash := NextOf(ent);
      }
      nethash[h] := ent;
      ent.pprevHash := Head(h);
      ghost var c' := [ent] + c;
      forall i | 0 <= i < |c'| - 1 ensures c'[i].nextHash == c'[i + 1] {
        assert i > 0 ==> c'[i] == c[i - 1] && c'[i + 1] == c[i];
      }
      forall i | 0 < i < |c'| ensures c'[i].pprevHash == NextOf(c'[i - 1]) {
        assert c'[i] == c[i - 1];
      }
    }

    /** __network_hash_unlink: through the back pointer, without a search. */
    method DropLinks(ent: Entry, ghost h: nat, ghost c: seq<Entry>, ghost i: nat)
      requires h < nethash.Length && Linked(nethash[h], h, c) && NoDup(c)
      requires i < |c| && c[i] == ent
      modifies nethash, c`nextHash, c`pprevHash
      ensures Linked(nethash[h], h, Without(c, i)) && ent.nextHash == null && ent.pprevHash == Nowhere
      ensures forall k :: 0 <= k < nethash.Length && k != h ==> nethash[k] == old(nethash[k])
    {
      match ent.pprevHash {
        case Head(k) => nethash[k] := ent.nextHash;
        case NextOf(p) => p.nextHash := ent.nextHash;
        case Nowhere => assert false;
      }
      if ent.nextHash != null {
        ent.nextHash.pprevHash := ent.pprevHash;
      }
      ent.nextHash := null;
      ent.pprevHash := Nowhere;
      ghost var c' := Without(c, i);
      WithoutAt(c, i);
      hide Without;
      assert forall j {:trigger c'[j].nextHash} :: 0 <= j < |c'| - 1 ==> c'[j].nextHash == c'[j + 1];
      assert forall j {:trigger c'[j].pprevHash} :: 0 < j < |c'| ==> c'[j].pprevHash == NextOf(c'[j - 1]);
    }

    /** Pushing onto one chain leaves the others linked. */
    method PushOntoChains(ent: Entry, h: nat, ghost cs: seq<seq<Entry>>, ghost heads: seq<Entry?>)
      requires h < nethash.Length == |cs| == |heads|
      requires Linked(nethash[h], h, cs[h]) && NoDup(cs[h]) && ent !in cs[h]
      requires OthersLinked(heads, cs, h) && ent !in Others(cs, h)
      requires forall e :: e in Others(cs, h) ==> e !in cs[h]
      modifies nethash, ent`nextHash, ent`pprevHash, cs[h]`pprevHash
      ensures Linked(nethash[h], h, [ent] + cs[h]) && OthersLinked(heads, cs, h)
      ensures forall k :: 0 <= k < nethash.Length && k != h ==> nethash[k] == old(nethash[k])
    {
      hide Linked, OthersLinked, NoDup;
      PushLinks(ent, h, cs[h]);
      assert forall e :: e in Others(cs, h) ==> unchanged(e);
    }

    method DropFromChains(ent: Entry, ghost h: nat, ghost cs: seq<seq<Entry>>, ghost heads: seq<Entry?>, ghost i: nat)
      requires h < nethash.Length == |cs| == |heads|
      requires Linked(nethash[h], h, cs[h]) && NoDup(cs[h]) && i < |cs[h]| && cs[h][i] == ent
      requires OthersLinked(heads, cs, h)
      requires forall e :: e in Others(cs, h) ==> e !in cs[h]
      modifies nethash, cs[h]`nextHash, cs[h]`pprevHash
      ensures Linked(nethash[h], h, Without(cs[h], i)) && OthersLinked(heads, cs, h)
      ensures ent.nextHash == null && ent.pprevHash == Nowhere
      ensures forall k :: 0 <= k < nethash.Length && k != h ==> nethash[k] == old(nethash[k])
    {
      hide Linked, OthersLinked, NoDup, Without;
      DropLinks(ent, h, cs[h], i);
      assert forall e :: e in Others(cs, h) ==> unchanged(e);
    }

    method Link(ent: Entry, h: nat)
      requires Shape() && ent !in nodes.Values
      requires |chains| == HASH_SIZE && h == Hash(ent.networkAddr) && ent.networkAddr !in nodes
      modifies this`chains, this`nodes, nethash, chains[h]`pprevHash, ent`nextHash, ent`pprevHash
      ensures Shape()
      ensures nodes == old(nodes)[ent.networkAddr := ent]
      ensures chains == old(chains)[h := [ent] + old(chains)[h]]
    {
      hide Hash;
      ghost var cs := chains;
      ghost var cs', nodes' := cs[h := [ent] + cs[h]], nodes[ent.networkAddr := ent];
      assert Indexed(cs', nodes') && AllKeyed(cs') by { PushKeeps(chains, nodes, ent); }
      ghost var heads := Focus(h);
      hide *;
      PushOntoChains(ent, h, cs, heads);
      chains, nodes := cs', nodes';
      Unfocus(h, cs, heads);
    }

    method Unlink(ent: Entry, ghost h: nat, ghost i: nat)
      requires Shape() && h < |chains| && i < |chains[h]| && chains[h][i] == ent
      modifies this`chains, this`nodes, nethash, chains[h]`nextHash, chains[h]`pprevHash
      ensures Shape()
      ensures nodes == old(nodes) - {ent.networkAddr}
      ensures chains == old(chains)[h := Without(old(chains)[h], i)]
      ensures ent.nextHash == null && ent.pprevHash == Nowhere
    {
      hide Hash;
      ghost var cs := chains;
      ghost var cs', nodes' := cs[h := Without(cs[h], i)], nodes - {ent.networkAddr};
      assert Indexed(cs', nodes') && AllKeyed(cs') by { DropKeeps(chains, nodes, h, i); }
      ghost var heads := Focus(h);
      hide *;
      DropFromChains(ent, h, cs, heads, i);
      chains, nodes := cs', nodes';
      Unfocus(h, cs, heads);
    }

    /** What a change to chain `h` has to know. */
    lemma Focus(h: nat) returns (heads: seq<Entry?>)
      requires Shape() && h < HASH_SIZE
      ensures |chains| == nethash.Length == HASH_SIZE
      ensures Linked(nethash[h], h, chains[h]) && NoDup(chains[h]) && InNodes(chains[h], nodes)
      ensures |heads| == HASH_SIZE && (forall k :: 0 <= k < HASH_SIZE ==> heads[k] == nethash[k])
      ensures OthersLinked(heads, chains, h)
      ensures forall e :: e in chains[h] ==> e in nodes.Values
      ensures forall e :: e in Others(chains, h) ==> e in nodes.Values && e !in chains[h]
    {
      heads := nethash[..];
      KeyedNoDup(h, chains[h]);
      forall e | e in Others(chains, h) ensures e in nodes.Values && e !in chains[h] {
        var k :| 0 <= k < |chains| && k != h && e in chains[k];
        assert Keyed(k, chains[k]) && Keyed(h, chains[h]) && InNodes(chains[k], nodes);
      }
    }

    /** What it has to leave behind. */
    lemma Unfocus(h: nat, cs: seq<seq<Entry>>, heads: seq<Entry?>)
      requires nethash.Length == HASH_SIZE == |cs| && h < HASH_SIZE
      requires Indexed(chains, nodes) && AllKeyed(chains)
      requires chains == cs[h := chains[h]]
      requires |heads| == HASH_SIZE && (forall k :: 0 <= k < HASH_SIZE && k != h ==> heads[k] == nethash[k])
      requires Linked(nethash[h], h, chains[h]) && OthersLinked(heads, cs, h)
      ensures Shape()
    {
      hide Keyed, Linked, Hash;
      forall k | 0 <= k < HASH_SIZE ensures InNodes(chains[k], nodes) && Linked(nethash[k], k, chains[k]) {
        IndexedInNodes(chains, nodes, k);
        if k != h {
          assert chains[k] == cs[k] && heads[k] == nethash[k];
        }
      }
    }

    // -------------------------------------------------------------------------
    // The operations
    // -------------------------------------------------------------------------

    /** Changing one entry's record changes the view at its address alone. */
    lemma RecordsApart(a: NetAddr)
      requires Shape() && a in nodes
      ensures forall b :: b in nodes && b != a ==> nodes[b] != nodes[a]
    {
      hide Hash, Linked;
      forall b | b in nodes && b != a ensures nodes[b] != nodes[a] {
        assert nodes[b].networkAddr == b;
      }
    }

    /** What the walk down a chain relies on. */
    lemma ChainOf(a: NetAddr)
      requires Shape()
      ensures
        var h := Hash(a);
        && |chains| == HASH_SIZE == nethash.Length && Linked(nethash[h], h, chains[h])
        && (a in nodes ==> nodes[a] in chains[h] && nodes[a].networkAddr == a)
        && forall e :: e in chains[h] ==> e.networkAddr in nodes && nodes[e.networkAddr] == e && e in nodes.Values
    {
      hide Hash, Linked;
      forall e | e in chains[Hash(a)] ensures e in nodes.Values {
        assert nodes[e.networkAddr] == e;
      }
    }

    /** The walk down one chain that lookup, insertion and scdb_findEntry share. */
    method Find(a: NetAddr) returns (db: Entry?)
      requires Shape()
      ensures db == null <==> a !in nodes
      ensures db != null ==> nodes[a] == db
    {
      hide Hash, Shape;
      ChainOf(a);
      var h := Hash(a);
      ghost var c, i := chains[h], 0;
      db := nethash[h];
      while db != null
        invariant 0 <= i <= |c| && db == if i < |c| then c[i] else null
        invariant forall j :: 0 <= j < i ==> c[j].networkAddr != a
        decreases |c| - i
      {
        assert c[i] in c;
        if db.networkAddr == a {
          return;
        }
        db := db.nextHash;
        i := i + 1;
      }
    }

    /** __nat25_db_network_lookup_and_replace; `mac` holds the address copied into the packet, if
        one was. */
    method LookupAndReplace(a: NetAddr, now: nat) returns (found: bool, mac: seq<Mac>)
      requires Valid()
      modifies nodes.Values`useCount
      ensures Valid()
      ensures (View(), found, mac) == Lookup(old(View()), a, now, age)
      ensures found <==> a in old(nodes)
      ensures mac != [] <==> a in old(nodes) && !Expired(old(nodes[a].ageingTimer), now, age)
      ensures mac != [] ==> mac == [old(nodes[a].macAddr)]
    {
      hide Shape, Expired;
      found, mac := false, [];
      var db := Find(a);
      if db != null {
        RecordsApart(a);
        found := true;
        if !Expired(db.ageingTimer, now, age) {
          mac := [db.macAddr];
          db.useCount := db.useCount + 1;
        }
      }
      assert View() == Lookup(old(View()), a, now, age).0;
    }

    /** __nat25_db_network_insert; `room` tells whether an allocation would succeed. */
    method InsertEntry(a: NetAddr, mac: Mac, now: nat, room: bool)
      requires Valid()
      modifies this`chains, this`nodes, nethash, nodes.Values
      ensures Valid() && fresh(nodes.Values - old(nodes.Values))
      ensures View() == if a in old(nodes) || room then Insert(old(View()), a, mac, now) else old(View())
    {
      hide Shape, Hash, Live, Insert, View;
      InsertIs(View(), a, mac, now);
      ViewOf(a);
      var db := Find(a);
      if db != null {
        Overwrite(a, db, mac, now);
      } else if room {
        AddEntry(a, mac, now);
      }
    }

    lemma ViewOf(a: NetAddr)
      ensures a in View() <==> a in nodes
      ensures a in nodes ==> View()[a] == nodes[a].Rec()
    {
    }

    /** The entry of a known address takes a MAC address and a time. */
    method Overwrite(a: NetAddr, db: Entry, mac: Mac, now: nat)
      requires Valid() && a in nodes && nodes[a] == db
      modifies db`macAddr, db`ageingTimer
      ensures Valid() && a in old(View())
      ensures View() == old(View())[a := old(View())[a].(mac := mac, time := now)]
    {
      hide Shape, Hash;
      RecordsApart(a);
      db.macAddr := mac;
      db.ageingTimer := now;
      assert View() == old(View())[a := old(View())[a].(mac := mac, time := now)];
    }

    /** The entry of a known address takes the time. */
    method Refresh(a: NetAddr, db: Entry, now: nat)
      requires Valid() && a in nodes && nodes[a] == db
      modifies db`ageingTimer
      ensures Valid() && a in old(View())
      ensures View() == old(View())[a := old(View())[a].(time := now)]
    {
      hide Shape, Hash;
      RecordsApart(a);
      db.ageingTimer := now;
      assert View() == old(View())[a := old(View())[a].(time := now)];
    }

    method AddEntry(a: NetAddr, mac: Mac, now: nat)
      requires Valid() && a !in nodes
      modifies this`chains, this`nodes, nethash, nodes.Values`pprevHash
      ensures Valid() && fresh(nodes.Values - old(nodes.Values))
      ensures View() == old(View())[a := Record(mac, now, 1)]
    {
      hide Shape, Hash, Linked;
      var ent := new Entry(a, mac, now);
      var h := Hash(a);
      ChainOf(a);
      Link(ent, h);
      forall e | e in old(nodes).Values ensures e in nodes.Values {
        var b :| b in old(nodes) && old(nodes)[b] == e;
        assert nodes[b] == e;
      }
      assert View() == old(View())[a := Record(mac, now, 1)];
    }

    method ForgetScdb()
      modifies this`scdbEntry, this`scdbMac, this`scdbIp
      ensures scdbEntry == null && scdbMac == NO_MAC && scdbIp == NO_IP
    {
      scdbMac, scdbIp := NO_MAC, NO_IP;
      scdbEntry := null;
    }

    /** Takes an entry out of the database, the cached one included. */
    method Remove(f: Entry, ghost h: nat, ghost i: nat)
      requires Shape() && h < |chains| && i < |chains[h]| && chains[h][i] == f
      requires Remembers()
      modifies this`chains, this`nodes, this`scdbEntry, this`scdbMac, this`scdbIp
      modifies nethash, chains[h]`nextHash, chains[h]`pprevHash
      ensures Shape() && Remembers()
      ensures nodes == old(nodes) - {f.networkAddr} && View() == old(View()) - {f.networkAddr}
      ensures Cache() == Forget(old(Cache()), View())
      ensures chains == old(chains)[h := Without(old(chains)[h], i)]
      ensures f.nextHash == null
    {
      hide Shape, Hash, Linked, Ipv4Addr;
      NamedByAddress(f, h, i);
      if scdbEntry != null {
        OwnAddress(Ipv4Addr(scdbIp));
      }
      if scdbEntry == f {
        ForgetScdb();
      }
      Unlink(f, h, i);
      assert View() == old(View()) - {f.networkAddr};
    }

    lemma OwnAddress(a: NetAddr)
      requires Shape() && a in nodes
      ensures nodes[a].networkAddr == a
    {
      hide Linked, Hash;
    }

    lemma NamedByAddress(f: Entry, h: nat, i: nat)
      requires Shape() && h < |chains| && i < |chains[h]| && chains[h][i] == f
      ensures f.networkAddr in nodes && nodes[f.networkAddr] == f
      ensures h == Hash(f.networkAddr)
    {
      hide Hash;
      assert f in chains[h];
    }

    /** What nat25_db_expire does to one entry. */
    method ExpireOne(f: Entry, now: nat, ghost h: nat, ghost i: nat, ghost own: set<Entry>) returns (ghost gone: bool)
      requires Valid() && h < |chains| && i < |chains[h]| && chains[h][i] == f
      requires f in own && forall e :: e in chains[h] ==> e in own
      modifies this`chains, this`nodes, this`scdbEntry, this`scdbMac, this`scdbIp
      modifies nethash, own`nextHash, own`pprevHash, own`useCount
      ensures Valid()
      ensures View() == ExpireAmong(old(View()), {f.networkAddr}, now, age)
      ensures Cache() == Forget(old(Cache()), View())
      ensures nodes == if gone then old(nodes) - {f.networkAddr} else old(nodes)
      ensures chains == if gone then old(chains)[h := Without(old(chains)[h], i)] else old(chains)
    {
      hide Shape, Hash, Linked, Expired, Ipv4Addr, ExpireAmong;
      NamedByAddress(f, h, i);
      ViewOf(f.networkAddr);
      ghost var a, s := f.networkAddr, Cache();
      ExpireOnly(s.db, a, now, age);
      NothingForgotten();
      gone := false;
      if Expired(f.ageingTimer, now, age) {
        CountDown(f);
        if f.useCount == 0 {
          Remove(f, h, i);
          gone := true;
          assert View() == s.db - {a};
        }
      }
    }

    method CountDown(f: Entry)
      requires Valid() && f.networkAddr in nodes && nodes[f.networkAddr] == f
      modifies f`useCount
      ensures Shape() && Remembers() && f.useCount == old(f.useCount) - 1
      ensures
        var a, db := f.networkAddr, old(View());
        a in db && db[a].uses >= 1 && View() == db[a := db[a].(uses := db[a].uses - 1)]
    {
      hide Shape, Hash, Ipv4Addr;
      ghost var a, db := f.networkAddr, View();
      RecordsApart(a);
      f.useCount := f.useCount - 1;
      assert View() == db[a := db[a].(uses := db[a].uses - 1)];
    }

    /** How far a pass over bucket `h` has come: `k` entries of the chain `c0` it started from are
        behind it, `i` of which are still there. */
    ghost predicate Progress(h: nat, c0: seq<Entry>, k: nat, i: nat,
                             s0: Scdb, n0: map<NetAddr, Entry>, cs0: seq<seq<Entry>>, now: nat)
      reads this, nethash, nodes.Values
    {
      && Valid() && |chains| == HASH_SIZE == |cs0| && h < HASH_SIZE && k <= |c0|
      && i <= |chains[h]| && chains[h][i..] == c0[k..]
      && (forall e :: e in chains[h] ==> e in c0)
      && (forall a :: a in nodes ==> a in n0 && nodes[a] == n0[a])
      && View() == ExpireAmong(s0.db, Addresses(c0[..k]), now, age) && Cache() == Forget(s0, View())
      && chains == cs0[h := chains[h]]
    }

    method ExpireNext(f: Entry, now: nat, ghost h: nat, ghost c0: seq<Entry>, ghost k: nat, ghost i: nat,
                      ghost s0: Scdb, ghost n0: map<NetAddr, Entry>, ghost cs0: seq<seq<Entry>>, ghost own: set<Entry>)
      returns (g: Entry?, ghost i': nat)
      requires Progress(h, c0, k, i, s0, n0, cs0, now) && Keyed(h, c0) && k < |c0| && f == c0[k]
      requires forall e :: e in c0 ==> e in own
      modifies this`chains, this`nodes, this`scdbEntry, this`scdbMac, this`scdbIp
      modifies nethash, own`nextHash, own`pprevHash, own`useCount
      ensures Progress(h, c0, k + 1, i', s0, n0, cs0, now)
      ensures g == if k + 1 < |c0| then c0[k + 1] else null
    {
      hide Shape, Linked, Keyed, Without, ExpireAmong, Addresses;
      NextInChain(h, i, c0, k);
      ghost var c := chains[h];
      AddressesGrow(h, c0, k);
      PassesCompose(s0.db, Addresses(c0[..k]), {f.networkAddr}, now, age);
      WithoutFacts(c, i);
      assert c[i..][1..] == c[i + 1..] == c0[k + 1..];
      g := f.nextHash;
      ghost var gone := ExpireOne(f, now, h, i, own);
      i' := if gone then i else i + 1;
    }

    /** The walk of nat25_db_expire down one bucket. */
    method ExpireChain(h: nat, now: nat, ghost c0: seq<Entry>, ghost s0: Scdb, ghost n0: map<NetAddr, Entry>,
                       ghost cs0: seq<seq<Entry>>, ghost own: set<Entry>)
      returns (ghost left: nat)
      requires h < nethash.Length && Progress(h, c0, 0, 0, s0, n0, cs0, now) && Keyed(h, c0)
      requires nethash[h] == if c0 == [] then null else c0[0]
      requires forall e :: e in c0 ==> e in own
      modifies this`chains, this`nodes, this`scdbEntry, this`scdbMac, this`scdbIp
      modifies nethash, own`nextHash, own`pprevHash, own`useCount
      ensures Progress(h, c0, |c0|, left, s0, n0, cs0, now)
    {
      hide *;
      ghost var k := 0;
      left := 0;
      var f := nethash[h];
      while f != null
        invariant 0 <= k <= |c0| && f == if k < |c0| then c0[k] else null
        invariant Progress(h, c0, k, left, s0, n0, cs0, now)
        decreases |c0| - k
      {
        f, left := ExpireNext(f, now, h, c0, k, left, s0, n0, cs0, own);
        k := k + 1;
      }
    }

    /** nat25_db_expire over one bucket. */
    method ExpireBucket(h: nat, now: nat, ghost own: set<Entry>)
      requires Valid() && h < HASH_SIZE == nethash.Length && |chains| == HASH_SIZE
      requires forall e :: e in chains[h] ==> e in own
      modifies this`chains, this`nodes, this`scdbEntry, this`scdbMac, this`scdbIp
      modifies nethash, own`nextHash, own`pprevHash, own`useCount
      ensures Valid() && |chains| == HASH_SIZE
      ensures forall a :: a in nodes ==> a in old(nodes) && nodes[a] == old(nodes)[a]
      ensures View() == ExpireAmong(old(View()), Addresses(old(chains)[h]), now, age)
      ensures Cache() == Forget(old(Cache()), View())
      ensures chains == old(chains)[h := chains[h]]
      ensures forall e :: e in chains[h] ==> e in old(chains)[h]
    {
      ghost var c0, s0, n0, cs0 := chains[h], Cache(), nodes, chains;
      StartPass(h, now);
      hide Shape, Linked, Keyed, ExpireAmong, Addresses, Valid;
      ghost var left := ExpireChain(h, now, c0, s0, n0, cs0, own);
      assert c0[..|c0|] == c0;
    }

    lemma StartPass(h: nat, now: nat)
      requires Valid() && h < HASH_SIZE == nethash.Length && |chains| == HASH_SIZE
      ensures Keyed(h, chains[h])
      ensures nethash[h] == if chains[h] == [] then null else chains[h][0]
      ensures Progress(h, chains[h], 0, 0, Cache(), nodes, chains, now)
    {
      HeadOfChain(h);
      ChainKeyed(h);
      hide *;
      NothingPassed(chains[h], now);
      ProgressAtStart(h, now);
    }

    /** How far a pass over the table has come: the first `b` buckets are behind it. */
    ghost predicate Swept(b: nat, s0: Scdb, n0: map<NetAddr, Entry>, cs0: seq<seq<Entry>>, now: nat)
      reads this, nethash, nodes.Values
    {
      && Valid() && |chains| == HASH_SIZE == |cs0| == nethash.Length && b <= HASH_SIZE
      && (forall a :: a in nodes ==> a in n0 && nodes[a] == n0[a])
      && (forall h :: b <= h < HASH_SIZE ==> chains[h] == cs0[h])
      && (forall h, e :: 0 <= h < HASH_SIZE && e in cs0[h] ==> e in n0.Values && Hash(e.networkAddr) == h)
      && View() == ExpireAmong(s0.db, AddressesBelow(cs0, b), now, age) && Cache() == Forget(s0, View())
    }

    method ExpireNextBucket(b: nat, now: nat, ghost s0: Scdb, ghost n0: map<NetAddr, Entry>, ghost cs0: seq<seq<Entry>>)
      requires b < HASH_SIZE && Swept(b, s0, n0, cs0, now)
      modifies this`chains, this`nodes, this`scdbEntry, this`scdbMac, this`scdbIp
      modifies nethash, n0.Values`nextHash, n0.Values`pprevHash, n0.Values`useCount
      ensures Swept(b + 1, s0, n0, cs0, now)
    {
      hide Valid, Hash, ExpireAmong, Addresses, AddressesBelow;
      assert chains[b] == cs0[b];
      BelowGrows(cs0, b);
      PassesCompose(s0.db, AddressesBelow(cs0, b), Addresses(cs0[b]), now, age);
      assert Valid();
      ExpireBucket(b, now, n0.Values);
    }

    /** nat25_db_expire. */
    method ExpireAll(now: nat)
      requires Valid()
      modifies this`chains, this`nodes, this`scdbEntry, this`scdbMac, this`scdbIp
      modifies nethash, nodes.Values`nextHash, nodes.Values`pprevHash, nodes.Values`useCount
      ensures Valid() && View() == Expire(old(View()), now, age)
      ensures Cache() == Forget(old(Cache()), View())
      ensures nodes.Values <= old(nodes.Values)
    {
      ghost var s0, n0, cs0 := Cache(), nodes, chains;
      StartSweep(now);
      ExpireBuckets(now, s0, n0, cs0);
      hide Valid, ExpireAmong, Hash;
      assert s0.db.Keys <= AddressesBelow(cs0, HASH_SIZE);
      PassOverAll(s0.db, AddressesBelow(cs0, HASH_SIZE), now, age);
    }

    method ExpireBuckets(now: nat, ghost s0: Scdb, ghost n0: map<NetAddr, Entry>, ghost cs0: seq<seq<Entry>>)
      requires Swept(0, s0, n0, cs0, now)
      modifies this`chains, this`nodes, this`scdbEntry, this`scdbMac, this`scdbIp
      modifies nethash, n0.Values`nextHash, n0.Values`pprevHash, n0.Values`useCount
      ensures Swept(HASH_SIZE, s0, n0, cs0, now)
    {
      hide Swept;
      for h := 0 to HASH_SIZE
        invariant Swept(h, s0, n0, cs0, now)
      {
        ExpireNextBucket(h, now, s0, n0, cs0);
      }
    }

    lemma StartSweep(now: nat)
      requires Valid()
      ensures Swept(0, Cache(), nodes, chains, now)
      ensures View().Keys <= AddressesBelow(chains, HASH_SIZE)
    {
      hide Linked, Hash, Expired;
      ExpireNone(View(), now);
      assert AddressesBelow(chains, 0) == {};
      forall h, e | 0 <= h < HASH_SIZE && e in chains[h] ensures e in nodes.Values && Hash(e.networkAddr) == h {
        assert InNodes(chains[h], nodes) && Keyed(h, chains[h]);
      }
      forall a | a in nodes ensures a in AddressesBelow(chains, HASH_SIZE) {
        assert nodes[a] in chains[Hash(a)];
      }
    }

    lemma ExpireNone(db: Db, now: nat)
      ensures ExpireAmong(db, {}, now, age) == db
    {
    }

    lemma HeadOfChain(h: nat)
      requires Shape() && h < HASH_SIZE
      ensures nethash[h] == if chains[h] == [] then null else chains[h][0]
    {
      hide Hash, Indexed, AllKeyed;
    }

    lemma NothingPassed(c: seq<Entry>, now: nat)
      ensures View() == ExpireAmong(View(), Addresses(c[..0]), now, age)
    {
      assert Addresses(c[..0]) == {};
      ExpireNone(View(), now);
    }

    lemma ProgressAtStart(h: nat, now: nat)
      requires Valid() && h < HASH_SIZE == |chains|
      requires View() == ExpireAmong(View(), Addresses(chains[h][..0]), now, age)
      ensures Progress(h, chains[h], 0, 0, Cache(), nodes, chains, now)
    {
      NothingForgotten();
      hide Shape, Live, View, ExpireAmong, Addresses;
      assert chains == chains[h := chains[h]];
    }

    lemma NothingForgotten()
      requires Valid()
      ensures Cache() == Forget(Cache(), View())
    {
      hide Shape, Ipv4Addr;
    }

    lemma ChainKeyed(h: nat)
      requires Shape() && h < HASH_SIZE == |chains|
      ensures Keyed(h, chains[h])
    {
      hide Hash, Indexed;
    }

    lemma NextInChain(h: nat, i: nat, c0: seq<Entry>, k: nat)
      requires Shape() && h < HASH_SIZE == |chains| && i <= |chains[h]| && k < |c0| && chains[h][i..] == c0[k..]
      ensures i < |chains[h]| && chains[h][i] == c0[k]
      ensures c0[k].nextHash == if k + 1 < |c0| then c0[k + 1] else null
    {
      hide Hash, Indexed, AllKeyed;
      var c := chains[h];
      assert |c[i..]| == |c0[k..]|;
      assert c[i] == c[i..][0] == c0[k..][0] == c0[k];
      assert Linked(nethash[h], h, c);
      if k + 1 < |c0| {
        assert c[i + 1] == c[i..][1] == c0[k..][1] == c0[k + 1];
        assert c[i].nextHash == c[i + 1];
      } else {
        assert i == |c| - 1;
      }
    }

    /** Bucket `h` is being emptied from the front; the first `h` are empty. */
    ghost predicate Flushing(h: nat, n0: map<NetAddr, Entry>, s0: Scdb)
      reads this, nethash, nodes.Values
    {
      && Valid() && |chains| == HASH_SIZE == nethash.Length && h <= HASH_SIZE
      && (forall a :: a in nodes ==> a in n0 && nodes[a] == n0[a])
      && (forall k :: 0 <= k < h ==> chains[k] == [])
      && (forall k, e :: 0 <= k < HASH_SIZE && e in chains[k] ==> e in n0.Values)
      && Cache() == Forget(s0, View()) && View().Keys <= s0.db.Keys
    }

    method FlushHead(f: Entry, ghost h: nat, ghost n0: map<NetAddr, Entry>, ghost s0: Scdb) returns (g: Entry?)
      requires Flushing(h, n0, s0) && h < HASH_SIZE && chains[h] != [] && f == chains[h][0]
      modifies this`chains, this`nodes, this`scdbEntry, this`scdbMac, this`scdbIp
      modifies nethash, n0.Values`nextHash, n0.Values`pprevHash
      ensures Flushing(h, n0, s0) && chains[h] == old(chains[h])[1..]
      ensures g == if chains[h] == [] then null else chains[h][0]
    {
      hide Shape, Linked, Without;
      ghost var c := chains[h];
      assert c[0..] == c;
      NextInChain(h, 0, c, 0);
      WithoutFacts(c, 0);
      g := f.nextHash;
      Remove(f, h, 0);
      assert chains[h] == c[1..] by { assert Without(c, 0)[0..] == Without(c, 0); }
    }

    method FlushBucket(h: nat, ghost n0: map<NetAddr, Entry>, ghost s0: Scdb)
      requires Flushing(h, n0, s0) && h < HASH_SIZE
      modifies this`chains, this`nodes, this`scdbEntry, this`scdbMac, this`scdbIp
      modifies nethash, n0.Values`nextHash, n0.Values`pprevHash
      ensures Flushing(h + 1, n0, s0)
    {
      hide Valid, Shape;
      assert Shape() by { ValidShape(); }
      HeadOfChain(h);
      var f := nethash[h];
      while f != null
        invariant Flushing(h, n0, s0) && f == if chains[h] == [] then null else chains[h][0]
        decreases |chains[h]|
      {
        f := FlushHead(f, h, n0, s0);
      }
    }

    lemma ValidShape()
      requires Valid()
      ensures Shape()
    {
    }

    /** nat25_db_cleanup. */
    method CleanUp()
      requires Valid()
      modifies this`chains, this`nodes, this`scdbEntry, this`scdbMac, this`scdbIp
      modifies nethash, nodes.Values`nextHash, nodes.Values`pprevHash
      ensures Valid() && View() == map[] && scdbEntry == null && nodes == map[]
      ensures Cache() == Forget(old(Cache()), map[])
    {
      ghost var n0, s0 := nodes, Cache();
      StartFlush();
      FlushBuckets(n0, s0);
      hide Linked, Hash;
      NoChainsNoNodes(chains, nodes);
    }

    method FlushBuckets(ghost n0: map<NetAddr, Entry>, ghost s0: Scdb)
      requires Flushing(0, n0, s0)
      modifies this`chains, this`nodes, this`scdbEntry, this`scdbMac, this`scdbIp
      modifies nethash, n0.Values`nextHash, n0.Values`pprevHash
      ensures Flushing(HASH_SIZE, n0, s0)
    {
      hide Flushing;
      for h := 0 to HASH_SIZE
        invariant Flushing(h, n0, s0)
      {
        FlushBucket(h, n0, s0);
      }
    }

    lemma StartFlush()
      requires Valid()
      ensures Flushing(0, nodes, Cache())
    {
      hide Linked, Hash;
      forall k, e | 0 <= k < HASH_SIZE && e in chains[k] ensures e in nodes.Values {
        assert InNodes(chains[k], nodes);
      }
    }

    // -------------------------------------------------------------------------
    // The cached entry
    // -------------------------------------------------------------------------

    /** The address bridge on an IP packet to send: the remembered entry is looked at before any
        search.  `direct` is the part of the first test that is about the packet's addresses and the
        bridge port alone.  `known` says that the NAT handling is skipped. */
    method CheckSender(mac: Mac, ip: Ip, now: nat, direct: bool) returns (known: bool)
      requires Valid()
      modifies this`scdbEntry, this`scdbMac, this`scdbIp, nodes.Values`ageingTimer
      ensures Valid() && (known <==> scdbEntry != null)
      ensures Cache() == Send(old(Cache()), mac, ip, now)
    {
      hide Shape, Hash, Live, View, Ipv4Addr, Stamped, Remembers;
      ViewOf(Ipv4Addr(ip));
      RememberedIsListed();
      if direct && scdbMac == mac && scdbEntry != null {
        RefreshCached(now);
      } else if scdbMac != mac {
        CacheSender(mac, ip, now);
      } else if scdbEntry != null {
        RefreshCached(now);
      } else {
        ForgetScdb();
        NothingRemembered();
      }
      known := scdbEntry != null;
    }

    lemma RememberedIsListed()
      requires Valid()
      ensures scdbEntry != null ==> scdbEntry in nodes.Values
    {
      hide Shape, Ipv4Addr;
    }

    lemma NothingRemembered()
      requires scdbEntry == null
      ensures Remembers()
    {
    }

    /** A sender that is not the remembered one is looked up with scdb_findEntry and, if it is there,
        remembered. */
    method CacheSender(mac: Mac, ip: Ip, now: nat)
      requires Valid()
      modifies this`scdbEntry, this`scdbMac, this`scdbIp, nodes.Values`ageingTimer
      ensures Valid()
      ensures
        var a := Ipv4Addr(ip);
        if a in nodes then
          && scdbEntry == nodes[a] && scdbMac == mac && scdbIp == ip
          && View() == Stamped(old(View()), a, now)
        else scdbEntry == null && scdbMac == old(scdbMac) && scdbIp == old(scdbIp) && View() == old(View())
    {
      hide Shape, Hash, Live, View, Ipv4Addr;
      var a := Ipv4Addr(ip);
      scdbEntry := Find(a);
      if scdbEntry != null {
        scdbMac, scdbIp := mac, ip;
        Refresh(a, scdbEntry, now);
      }
    }

    /** The remembered entry is refreshed without a search.  That is sound only because it is still
        linked; it may be the entry of another address of the same sender. */
    method RefreshCached(now: nat)
      requires Valid() && scdbEntry != null
      modifies scdbEntry`ageingTimer
      ensures Valid() && scdbEntry in nodes.Values
      ensures View() == Stamped(old(View()), Ipv4Addr(scdbIp), now)
      ensures Ipv4Addr(scdbIp) in nodes && nodes[Ipv4Addr(scdbIp)] == scdbEntry
    {
      hide Shape, Hash, Live, View, Ipv4Addr;
      Refresh(Ipv4Addr(scdbIp), scdbEntry, now);
    }

    /** The bridge on an IP packet received: what is for the remembered IP address goes to the remembered
        MAC address. */
    method FindReceiver(ip: Ip, now: nat) returns (found: bool, mac: seq<Mac>)
      requires Valid()
      modifies nodes.Values`useCount
      ensures Valid()
      ensures (Cache(), found, mac) == Deliver(old(Cache()), ip, now, age)
    {
      hide Shape, Hash, Live, View, Ipv4Addr, Lookup;
      if scdbIp == ip {
        return true, [scdbMac];
      }
      found, mac := LookupAndReplace(Ipv4Addr(ip), now);
    }

    /** One event, memory to be had. */
    method Perform(e: ScdbSpec.Event)
      requires Valid()
      modifies this`chains, this`nodes, this`scdbEntry, this`scdbMac, this`scdbIp, nethash, nodes.Values
      ensures Valid() && fresh(nodes.Values - old(nodes.Values))
      ensures Cache() == ScdbSpec.Step(old(Cache()), e, age)
    {
      hide Shape, Hash, Live, View, Ipv4Addr, Lookup, Insert, Expire, Remembers;
      match e {
        case Sent(mac, ip, now, direct) =>
          var _ := CheckSender(mac, ip, now, direct);
        case Received(ip, now) =>
          var _, _ := FindReceiver(ip, now);
        case Other(d) =>
          CacheKeeps(d);
          match d {
            case Learn(a, mac, now) => InsertEntry(a, mac, now, true);
            case Use(a, now) => var _, _ := LookupAndReplace(a, now);
            case Pass(now) => ExpireAll(now);
            case Flush => CleanUp();
          }
      }
    }

    /** Nothing that is learned or looked up makes the bridge forget. */
    lemma CacheKeeps(d: Nat25Spec.Event)
      requires Valid()
      ensures
        var s := Cache();
        !d.Pass? && !d.Flush? ==> Forget(s, Nat25Spec.Step(s.db, d, age)) == s.(db := Nat25Spec.Step(s.db, d, age))
    {
      hide Shape, Hash, Ipv4Addr, Expired;
    }
  }

  /** The bridge, driven through any events, ends where the model does; what is remembered is in the
      database, and the receive path answers as the model. */
  method Replay(age: Ageing, events: seq<ScdbSpec.Event>) returns (b: Bridge)
    ensures b.Valid() && b.age == age && b.Cache() == ScdbSpec.Run(FRESH, events, age)
  {
    hide *;
    b := new Bridge(age);
    var i := 0;
    NothingRun(FRESH, age);
    assert events[..0] == [];
    while i < |events|
      invariant 0 <= i <= |events| && b.Valid() && b.age == age
      invariant fresh(b) && fresh(b.nethash) && fresh(b.nodes.Values)
      invariant b.Cache() == ScdbSpec.Run(FRESH, events[..i], age)
    {
      ScdbSpec.RunSnoc(FRESH, events[..i], events[i], age);
      assert events[..i] + [events[i]] == events[..i + 1];
      b.Perform(events[i]);
      i := i + 1;
    }
    assert events[..i] == events;
  }


  lemma ExpireOnly(db: Db, a: NetAddr, now: nat, age: Ageing)
    requires a in db && Live(db)
    ensures
      ExpireAmong(db, {a}, now, age) ==
      if !Expired(db[a].time, now, age) then db
      else if db[a].uses == 1 then db - {a}
      else db[a := db[a].(uses := db[a].uses - 1)]
  {
    hide Expired;
  }

  lemma InsertIs(db: Db, a: NetAddr, mac: Mac, now: nat)
    ensures Insert(db, a, mac, now) == db[a := if a in db then db[a].(mac := mac, time := now) else Record(mac, now, 1)]
  {
  }

  ghost function Addresses(c: seq<Entry>): set<NetAddr> {
    set e | e in c :: e.networkAddr
  }

  ghost function AddressesBelow(chains: seq<seq<Entry>>, b: nat): set<NetAddr>
    requires b <= |chains|
  {
    set h, e | 0 <= h < b && e in chains[h] :: e.networkAddr
  }

  lemma BelowGrows(chains: seq<seq<Entry>>, b: nat)
    requires b < |chains|
    requires forall h, e :: 0 <= h < |chains| && e in chains[h] ==> Hash(e.networkAddr) == h
    ensures AddressesBelow(chains, b + 1) == AddressesBelow(chains, b) + Addresses(chains[b])
    ensures AddressesBelow(chains, b) !! Addresses(chains[b])
  {
    hide Hash;
  }

  lemma AddressesGrow(h: nat, c: seq<Entry>, k: nat)
    requires Keyed(h, c) && k < |c|
    ensures c[k].networkAddr !in Addresses(c[..k])
    ensures Addresses(c[..k + 1]) == Addresses(c[..k]) + {c[k].networkAddr}
  {
    assert c[..k + 1] == c[..k] + [c[k]];
  }

  lemma WithoutFacts(c: seq<Entry>, i: nat)
    requires i < |c|
    ensures |Without(c, i)| == |c| - 1 && Without(c, i)[i..] == c[i..][1..]
    ensures forall e :: e in Without(c, i) ==> e in c
  {
  }

  lemma KeyedNoDup(h: nat, c: seq<Entry>)
    requires Keyed(h, c)
    ensures NoDup(c)
  {
  }
}
