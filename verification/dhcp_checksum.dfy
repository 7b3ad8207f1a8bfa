/**
  dhcp_flag_bcast (core/rtw_br_ext.c): sets the broadcast flag of a DHCP request in flight and
  repairs the UDP checksum without summing the packet again (section 3 of RFC 1624).
  A packet is the sequence of the 16-bit words its checksum covers, pseudo header included.
 */
module DhcpChecksum {

  type word = x: nat | x < 0x10000

  function Sum(ws: seq<word>): nat {
    if ws == [] then 0 else ws[0] as nat + Sum(ws[1..])
  }

  /** Carries are added back in until none is left: the ones' complement sum of section 1 of RFC 1071. */
  function Fold(sum: nat): word {
    if sum < 0x10000 then sum else Fold(sum % 0x10000 + sum / 0x10000)
  }

  /** A receiver accepts a packet without a checksum, and one whose words sum to all ones (RFC 768). */
  predicate Verifies(ws: seq<word>) {
    Fold(Sum(ws)) == 0xffff
  }

  predicate Accepts(ws: seq<word>, check: nat)
    requires check < |ws|
  {
    ws[check] == 0 || Verifies(ws)
  }

  lemma {:induction false} FoldKeepsResidue(sum: nat)
    ensures Fold(sum) % 0xffff == sum % 0xffff
    ensures Fold(sum) == 0 <==> sum == 0
  {
    if sum >= 0x10000 {
      var lo, hi := sum % 0x10000, sum / 0x10000;
      FoldKeepsResidue(lo + hi);
      assert sum == lo + hi + 0xffff * hi;
      MultipleDropsOut(lo + hi, hi);
    }
  }

  lemma MultipleDropsOut(a: nat, k: nat)
    ensures (a + 0xffff * k) % 0xffff == a % 0xffff
  {
  }

  lemma {:induction false} FoldDropsMultiple(sum: nat) returns (k: nat)
    ensures sum == Fold(sum) as nat + 0xffff * k
  {
    k := 0;
    if sum >= 0x10000 {
      k := FoldDropsMultiple(sum % 0x10000 + sum / 0x10000);
      k := k + sum / 0x10000;
    }
  }

  lemma VerifiesIffMultiple(ws: seq<word>)
    ensures Verifies(ws) <==> Sum(ws) > 0 && Sum(ws) % 0xffff == 0
  {
    FoldKeepsResidue(Sum(ws));
  }

  lemma {:induction false} SumUpdated(ws: seq<word>, i: nat, w: word)
    requires i < |ws|
    ensures Sum(ws[i := w]) == Sum(ws) - ws[i] as int + w as int
  {
    var ws2 := ws[i := w];
    if i == 0 {
      assert ws2[1..] == ws[1..];
    } else {
      assert ws2[1..] == ws[1..][i - 1 := w];
      SumUpdated(ws[1..], i - 1, w);
    }
  }

  lemma {:induction false} SumCovers(ws: seq<word>, i: nat)
    requires i < |ws|
    ensures Sum(ws) >= ws[i] as nat
  {
    if i > 0 {
      SumCovers(ws[1..], i - 1);
    }
  }

  /** The broadcast flag in the machine's byte order. */
  predicate BroadcastFlag(bit: nat) {
    bit == 0x8000 || bit == 0x0080
  }

  predicate HasFlag(w: word, bit: nat)
    requires BroadcastFlag(bit)
  {
    w / bit % 2 == 1
  }

  lemma FlagFits(w: word, bit: nat)
    requires BroadcastFlag(bit) && !HasFlag(w, bit)
    ensures w as nat + bit < 0x10000 && (w as nat != 0 ==> 0 < w as nat < 0xffff)
  {
    if bit == 0x80 {
      assert w / 0x80 <= 510;
    }
  }

  /** The packet with the flag set and the repaired checksum. */
  function Marked(ws: seq<word>, check: nat, flags: nat, bit: nat): seq<word>
    requires check < |ws| && flags < |ws| && check != flags && BroadcastFlag(bit) && !HasFlag(ws[flags], bit)
  {
    FlagFits(ws[flags], bit);
    var f: word := ws[flags] as nat + bit;
    ws[flags := f][check := 0xffff - Fold(0xffff - ws[check] as int + f as int) as int]
  }

  lemma SumMarkedBy(ws: seq<word>, check: nat, flags: nat, bit: nat) returns (k: nat)
    requires check < |ws| && flags < |ws| && check != flags && BroadcastFlag(bit) && !HasFlag(ws[flags], bit)
    ensures
      var ws2 := Marked(ws, check, flags, bit);
      && Sum(ws2) > 0 && Sum(ws2) + ws[flags] as int == Sum(ws) + 0xffff * k
      && Sum(ws2) == Sum(ws) + bit - ws[check] as int + ws2[check] as int
  {
    FlagFits(ws[flags], bit);
    hide HasFlag, Fold;
    var f: word := ws[flags] as nat + bit;
    var s: nat := 0xffff - ws[check] as int + f as int;
    var ws2 := Marked(ws, check, flags, bit);
    var c := ws2[check];
    assert ws2 == ws[flags := f][check := c] && c as int == 0xffff - Fold(s) as int;
    hide Sum, Marked;
    SumUpdated(ws, flags, f);
    SumUpdated(ws[flags := f], check, c);
    SumCovers(ws2, flags);
    k := FoldDropsMultiple(s);
  }

  lemma SumMarked(ws: seq<word>, check: nat, flags: nat, bit: nat)
    requires check < |ws| && flags < |ws| && check != flags && BroadcastFlag(bit) && !HasFlag(ws[flags], bit)
    ensures
      var sum := Sum(Marked(ws, check, flags, bit));
      sum > 0 && (sum + ws[flags] as int) % 0xffff == Sum(ws) % 0xffff
  {
    hide HasFlag, Fold, Sum, Marked;
    var k := SumMarkedBy(ws, check, flags, bit);
    MultipleDropsOut(Sum(ws), k);
  }

  /** The new checksum word is 0, which means none, exactly when the old one equalled the new flags. */
  lemma MarkedCheckIsZero(ws: seq<word>, check: nat, flags: nat, bit: nat)
    requires check < |ws| && flags < |ws| && check != flags && BroadcastFlag(bit) && !HasFlag(ws[flags], bit)
    ensures
      var ws2 := Marked(ws, check, flags, bit);
      ws2[check] == 0 <==> ws[check] == ws2[flags] || (ws[check] == 0 && ws2[flags] == 0xffff)
  {
    var s: nat := 0xffff - ws[check] as int + (ws[flags] as nat + bit);
    assert s <= 0x1fffe;
    assert Fold(s) == if s < 0x10000 then s else s - 0xffff;
  }

  /** A request with a valid checksum and no flag set before stays valid. */
  lemma MarkedVerifies(ws: seq<word>, check: nat, flags: nat, bit: nat)
    requires check < |ws| && flags < |ws| && check != flags && BroadcastFlag(bit) && ws[flags] == 0
    requires Verifies(ws)
    ensures Verifies(Marked(ws, check, flags, bit))
  {
    SumMarked(ws, check, flags, bit);
    VerifiesIffMultiple(ws);
    VerifiesIffMultiple(Marked(ws, check, flags, bit));
  }

  /** The repair adds the whole new flags word, not the bit that changed: it is right exactly when no
      other flag was set, or when it happens to leave the packet without a checksum. */
  lemma AcceptedExactly(ws: seq<word>, check: nat, flags: nat, bit: nat)
    requires check < |ws| && flags < |ws| && check != flags && BroadcastFlag(bit) && !HasFlag(ws[flags], bit)
    requires Verifies(ws) && ws[check] != 0
    ensures Accepts(Marked(ws, check, flags, bit), check) <==>
            ws[flags] == 0 || ws[check] as nat == ws[flags] as nat + bit
  {
    hide HasFlag, Marked, Sum, Fold, Verifies;
    var ws2 := Marked(ws, check, flags, bit);
    FlagFits(ws[flags], bit);
    MarkedFlags(ws, check, flags, bit);
    SumMarked(ws, check, flags, bit);
    MarkedCheckIsZero(ws, check, flags, bit);
    VerifiesIffMultiple(ws);
    VerifiesIffMultiple(ws2);
    ResidueOfPart(Sum(ws2), ws[flags]);
  }

  lemma ResidueOfPart(a: nat, f: nat)
    requires (a + f) % 0xffff == 0 && f < 0xffff
    ensures a % 0xffff == 0 <==> f == 0
  {
  }

  lemma MarkedFlags(ws: seq<word>, check: nat, flags: nat, bit: nat)
    requires check < |ws| && flags < |ws| && check != flags && BroadcastFlag(bit) && !HasFlag(ws[flags], bit)
    ensures |Marked(ws, check, flags, bit)| == |ws|
    ensures Marked(ws, check, flags, bit)[flags] as nat == ws[flags] as nat + bit
  {
    FlagFits(ws[flags], bit);
  }

  lemma {:induction false} SumOfZeros(ws: seq<word>)
    requires forall k :: 0 <= k < |ws| ==> ws[k] == 0
    ensures Sum(ws) == 0
  {
    if ws != [] {
      SumOfZeros(ws[1..]);
    }
  }

  /** A valid request of any length with flag bit 0 set, rejected after the broadcast flag is. */
  lemma OtherFlagRejected(rest: seq<word>)
    requires forall k :: 0 <= k < |rest| ==> rest[k] == 0
    ensures
      var ws: seq<word> := [0xfff0, 1, 0xe] + rest;
      Verifies(ws) && !HasFlag(ws[1], 0x8000) && !Accepts(Marked(ws, 0, 1, 0x8000), 0)
  {
    var ws: seq<word> := [0xfff0, 1, 0xe] + rest;
    SumOfZeros(rest);
    assert ws[1..] == [1, 0xe] + rest && ws[1..][1..] == [0xe] + rest && ws[1..][1..][1..] == rest;
    assert Sum(ws[1..][1..]) == 0xe && Sum(ws[1..]) == 0xf;
    assert Sum(ws) == 0xffff;
    hide Sum, Marked;
    AcceptedExactly(ws, 0, 1, 0x8000);
  }

  lemma MarkedWords(ws: seq<word>, check: nat, flags: nat, bit: nat)
    requires check < |ws| && flags < |ws| && check != flags && BroadcastFlag(bit) && !HasFlag(ws[flags], bit)
    requires ws[check] == 0
    ensures
      var ws2 := Marked(ws, check, flags, bit);
      |ws2| == |ws| && ws2[flags] as nat == ws[flags] as nat + bit && ws2[check] as int == 0xffff - ws2[flags] as int
  {
    FlagFits(ws[flags], bit);
    var f := ws[flags] as nat + bit;
    assert Fold(0xffff + f) == f;
    hide Fold, HasFlag;
  }

  /** A request sent without a checksum gets one, that of a packet whose other words sum to nothing. */
  lemma WithoutChecksum(ws: seq<word>, check: nat, flags: nat, bit: nat)
    requires check < |ws| && flags < |ws| && check != flags && BroadcastFlag(bit) && !HasFlag(ws[flags], bit)
    requires ws[check] == 0
    ensures
      var ws2 := Marked(ws, check, flags, bit);
      && ws2[check] as int == 0xffff - ws2[flags] as int
      && (Accepts(ws2, check) <==> ws2[flags] == 0xffff || Sum(ws[flags := 0]) % 0xffff == 0)
  {
    hide HasFlag, Marked, Sum, Fold, Verifies;
    var ws2 := Marked(ws, check, flags, bit);
    MarkedWords(ws, check, flags, bit);
    var k := SumMarkedBy(ws, check, flags, bit);
    SumUpdated(ws, flags, 0);
    VerifiesIffMultiple(ws2);
    MultipleDropsOut(Sum(ws[flags := 0]), 1);
  }

  /** The flag is set in place and the checksum repaired; the other words stay. */
  method DhcpFlagBcast(packet: array<word>, check: nat, flags: nat, bit: nat)
    requires check < packet.Length && flags < packet.Length && check != flags && BroadcastFlag(bit)
    modifies packet
    ensures HasFlag(old(packet[flags]), bit) ==> packet[..] == old(packet[..])
    ensures !HasFlag(old(packet[flags]), bit) ==> packet[..] == Marked(old(packet[..]), check, flags, bit)
  {
    if !HasFlag(packet[flags], bit) {
      FlagFits(packet[flags], bit);
      ghost var ws := packet[..];
      packet[flags] := packet[flags] as nat + bit;
      var sum: nat := 0xffff - packet[check] as int;
      sum := sum + packet[flags] as nat;
      ghost var start := sum;
      while sum / 0x10000 != 0
        invariant Fold(sum) == Fold(start)
        decreases sum
      {
        sum := sum % 0x10000 + sum / 0x10000;
      }
      packet[check] := 0xffff - sum;
      assert packet[..] == Marked(ws, check, flags, bit);
    }
  }
}
