/**
  amsdu_to_msdu (core/rtw_recv.c): takes the subframes of an A-MSDU apart.  Each is 12 bytes of
  addresses, a big-endian length, the payload, and padding to a multiple of four
  (section 8.3.2.2 of IEEE Std 802.11-2012).
 */
module Amsdu {
  import opened Bytes

  const ETH_HLEN := 14
  const MAX_SUBFRAME_COUNT := 64

  datatype Subframe = Subframe(addrs: seq<byte>, payload: seq<byte>, pad: seq<byte>)

  function PadLen(n: nat): (p: nat)
    ensures p < 4 && (ETH_HLEN + n + p) % 4 == 0
  {
    var p := 4 - (n + ETH_HLEN) % 4;
    if p == 4 then 0 else p
  }

  function ReadBE16(b: seq<byte>, at: nat): nat
    requires at + 2 <= |b|
  {
    b[at] as nat * 256 + b[at + 1] as nat
  }

  predicate Sized(s: Subframe) {
    |s.addrs| == 12 && |s.payload| < 0x10000
  }

  function Encode(s: Subframe): (b: seq<byte>)
    requires Sized(s)
    ensures |b| == ETH_HLEN + |s.payload| + |s.pad| && ReadBE16(b, 12) == |s.payload|
  {
    s.addrs + [|s.payload| / 256, |s.payload| % 256] + s.payload + s.pad
  }

  /** All but the last subframe are padded; the last may be. */
  ghost predicate WellLaid(subs: seq<Subframe>) {
    forall k :: 0 <= k < |subs| ==>
      && Sized(subs[k])
      && (|subs[k].pad| == PadLen(|subs[k].payload|) || (k == |subs| - 1 && subs[k].pad == []))
  }

  ghost function Layout(subs: seq<Subframe>): seq<byte>
    requires WellLaid(subs)
  {
    if subs == [] then [] else Encode(subs[0]) + Layout(subs[1..])
  }

  lemma LayoutCons(s: Subframe, more: seq<Subframe>)
    requires WellLaid(more) && Sized(s)
    requires |s.pad| == PadLen(|s.payload|) || (more == [] && s.pad == [])
    ensures WellLaid([s] + more) && Layout([s] + more) == Encode(s) + Layout(more)
    ensures more != [] ==> |Layout(more)| >= ETH_HLEN
  {
    assert ([s] + more)[1..] == more;
  }

  ghost function Payloads(subs: seq<Subframe>): (ps: seq<seq<byte>>)
    ensures |ps| == |subs| && forall k :: 0 <= k < |ps| ==> ps[k] == subs[k].payload
  {
    seq(|subs|, k requires 0 <= k < |subs| => subs[k].payload)
  }

  /** What the driver hands up of the bytes `b` when it has `count` subframes already and `avail` more
      buffers can be had; None if it drops everything. */
  function Split(b: seq<byte>, count: nat, avail: nat): Option<seq<seq<byte>>>
    decreases |b|
  {
    if |b| <= ETH_HLEN then Some([])
    else
      var n := ReadBE16(b, 12);
      if |b| < ETH_HLEN + n then None
      else if avail == 0 then Some([])
      else
        var payload := b[ETH_HLEN..ETH_HLEN + n];
        var rest := b[ETH_HLEN + n..];
        if count + 1 >= MAX_SUBFRAME_COUNT || rest == [] then Some([payload])
        else if |rest| < PadLen(n) then None
        else Before(payload, Split(rest[PadLen(n)..], count + 1, avail - 1))
  }

  function Before(p: seq<byte>, r: Option<seq<seq<byte>>>): Option<seq<seq<byte>>> {
    match r case None => None case Some(ps) => Some([p] + ps)
  }

  /** The last subframe is a bare header: the loop takes it for a remainder. */
  ghost predicate BareTail(subs: seq<Subframe>) {
    subs != [] && subs[|subs| - 1].payload == [] && subs[|subs| - 1].pad == []
  }

  function Min(a: nat, b: nat): nat {
    if a < b then a else b
  }

  /** The subframes handed up of a well laid out A-MSDU. */
  ghost function HandedUp(subs: seq<Subframe>, count: nat, avail: nat): (k: nat)
    ensures k <= |subs|
  {
    Min(if BareTail(subs) then |subs| - 1 else |subs|,
        Min(avail, if count < MAX_SUBFRAME_COUNT then MAX_SUBFRAME_COUNT - count else 0))
  }

  /** Their payloads. */
  ghost function Up(subs: seq<Subframe>, count: nat, avail: nat): seq<seq<byte>> {
    Payloads(subs)[..HandedUp(subs, count, avail)]
  }

  lemma SplitFirst(s: Subframe, rest: seq<byte>, count: nat, avail: nat)
    requires Sized(s) && count < MAX_SUBFRAME_COUNT && avail > 0
    requires |s.pad| == PadLen(|s.payload|) || (s.pad == rest == [])
    requires s.payload != [] || s.pad != [] || rest != []
    ensures Split(Encode(s) + rest, count, avail) ==
            if rest == [] || count + 1 >= MAX_SUBFRAME_COUNT then Some([s.payload])
            else Before(s.payload, Split(rest, count + 1, avail - 1))
  {
    var b, n := Encode(s) + rest, |s.payload|;
    assert ReadBE16(b, 12) == ReadBE16(Encode(s), 12) == n;
    var tail := b[ETH_HLEN + n..];
    assert b[ETH_HLEN..ETH_HLEN + n] == s.payload && tail == s.pad + rest;
    if rest != [] {
      assert tail[|s.pad|..] == rest;
    } else if s.pad != [] {
      assert tail[|s.pad|..] == [];
      assert Split([], count + 1, avail - 1) == Some([]);
      assert [s.payload] + [] == [s.payload];
    }
  }

  lemma SplitStops(s: Subframe, rest: seq<byte>, count: nat, avail: nat)
    requires Sized(s) && (avail == 0 || (s.payload == s.pad == rest == []))
    ensures Split(Encode(s) + rest, count, avail) == Some([])
  {
    assert ReadBE16(Encode(s) + rest, 12) == ReadBE16(Encode(s), 12);
  }

  lemma CountCons(subs: seq<Subframe>, count: nat, avail: nat)
    requires subs != [] && count < MAX_SUBFRAME_COUNT
    ensures
      var more, k := subs[1..], HandedUp(subs, count, avail);
      if avail == 0 || (more == [] && BareTail(subs)) then k == 0
      else if more == [] || count + 1 == MAX_SUBFRAME_COUNT then k == 1
      else k == 1 + HandedUp(more, count + 1, avail - 1)
  {
  }

  lemma UpCons(subs: seq<Subframe>, count: nat, avail: nat)
    requires subs != [] && count < MAX_SUBFRAME_COUNT
    ensures
      var s, more := subs[0], subs[1..];
      Up(subs, count, avail) ==
        if avail == 0 || (more == [] && BareTail(subs)) then []
        else if more == [] || count + 1 == MAX_SUBFRAME_COUNT then [s.payload]
        else [s.payload] + Up(more, count + 1, avail - 1)
  {
    CountCons(subs, count, avail);
    hide HandedUp, BareTail;
    assert Payloads(subs) == [subs[0].payload] + Payloads(subs[1..]);
  }

  lemma SplitCons(subs: seq<Subframe>, count: nat, avail: nat)
    requires WellLaid(subs) && subs != [] && count < MAX_SUBFRAME_COUNT
    ensures WellLaid(subs[1..])
    ensures
      var s, more := subs[0], subs[1..];
      Split(Layout(subs), count, avail) ==
        if avail == 0 || (more == [] && BareTail(subs)) then Some([])
        else if more == [] || count + 1 == MAX_SUBFRAME_COUNT then Some([s.payload])
        else Before(s.payload, Split(Layout(more), count + 1, avail - 1))
  {
    var s, more := subs[0], subs[1..];
    var rest := Layout(more);
    LayoutCons(s, more);
    assert [s] + more == subs;
    assert more == [] ==> rest == [];
    hide Layout, Encode, PadLen, Split, WellLaid;
    if avail == 0 || (more == [] && BareTail(subs)) {
      SplitStops(s, rest, count, avail);
    } else {
      SplitFirst(s, rest, count, avail);
    }
  }

  lemma SplitNothing(count: nat, avail: nat)
    ensures Split(Layout([]), count, avail) == Some(Up([], count, avail))
  {
  }

  lemma BeforeIs(p: seq<byte>, ps: seq<seq<byte>>)
    ensures Before(p, Some(ps)) == Some([p] + ps)
  {
  }

  /** Splitting hands up the payloads of what was laid out, in order, up to the limits. */
  lemma {:induction false} SplitLayout(subs: seq<Subframe>, count: nat, avail: nat)
    requires WellLaid(subs) && count < MAX_SUBFRAME_COUNT
    ensures Split(Layout(subs), count, avail) == Some(Up(subs, count, avail))
  {
    hide *;
    if subs == [] {
      SplitNothing(count, avail);
      return;
    }
    SplitCons(subs, count, avail);
    UpCons(subs, count, avail);
    BeforeIs(subs[0].payload, Up(subs[1..], count + 1, if avail > 0 then avail - 1 else 0));
    if avail > 0 && subs[1..] != [] && count + 1 < MAX_SUBFRAME_COUNT {
      SplitLayout(subs[1..], count + 1, avail - 1);
    }
  }

  /** Every subframe comes out, exactly when there is room for all and the last is not a bare header. */
  lemma RecoversExactly(subs: seq<Subframe>, avail: nat)
    requires WellLaid(subs)
    ensures Split(Layout(subs), 0, avail) == Some(Payloads(subs)) <==>
            |subs| <= 64 && |subs| <= avail && !BareTail(subs)
  {
    SplitLayout(subs, 0, avail);
    hide Split, Layout, WellLaid, Payloads, BareTail;
    var k := HandedUp(subs, 0, avail);
    assert k == |subs| ==> Payloads(subs)[..k] == Payloads(subs);
    assert |Up(subs, 0, avail)| == k;
  }

  /** An aggregate whose last subframe is a bare header: only the first one is handed up. */
  lemma BareHeaderLost(addrs: seq<byte>)
    requires |addrs| == 12
    ensures
      var subs := [Subframe(addrs, [1], [0]), Subframe(addrs, [], [])];
      WellLaid(subs) && Split(Layout(subs), 0, 2) == Some([[1]])
  {
    var subs := [Subframe(addrs, [1], [0]), Subframe(addrs, [], [])];
    assert PadLen(1) == 1;
    SplitLayout(subs, 0, 2);
    hide Split, Layout;
    assert HandedUp(subs, 0, 2) == 1 && Payloads(subs)[..1] == [[1]];
  }

  lemma EncodeRead(b: seq<byte>, pad: nat)
    requires |b| >= ETH_HLEN && |b| >= ETH_HLEN + ReadBE16(b, 12) + pad
    ensures
      var end := ETH_HLEN + ReadBE16(b, 12);
      b == Encode(Subframe(b[..12], b[ETH_HLEN..end], b[end..][..pad])) + b[end..][pad..]
  {
    var end := ETH_HLEN + ReadBE16(b, 12);
    assert b[..end] == b[..12] + [b[12], b[13]] + b[ETH_HLEN..end];
    assert b[end..] == b[end..][..pad] + b[end..][pad..];
  }

  lemma NoneRead()
    ensures WellLaid([]) && Payloads([]) == [] && Layout([]) == []
  {
  }

  /** The subframe that can be read off the front of some bytes, put in front of subframes read off
      behind it. */
  lemma FrontRead(b: seq<byte>, rest: seq<byte>, pad: nat, next: seq<Subframe>) returns (subs: seq<Subframe>)
    requires |b| >= ETH_HLEN && |b| >= ETH_HLEN + ReadBE16(b, 12) && WellLaid(next)
    requires rest == b[ETH_HLEN + ReadBE16(b, 12)..] && pad <= |rest| && Layout(next) <= rest[pad..]
    requires pad == PadLen(ReadBE16(b, 12)) || (pad == 0 && next == [])
    ensures WellLaid(subs) && Layout(subs) <= b
    ensures Payloads(subs) == [b[ETH_HLEN..ETH_HLEN + ReadBE16(b, 12)]] + Payloads(next)
  {
    EncodeRead(b, pad);
    var end := ETH_HLEN + ReadBE16(b, 12);
    hide *;
    var s := Subframe(b[..12], b[ETH_HLEN..end], rest[..pad]);
    LayoutCons(s, next);
    FirstOf(s, next);
    assert Encode(s) + Layout(next) <= Encode(s) + rest[pad..];
    subs := [s] + next;
  }

  lemma FirstOf(s: Subframe, next: seq<Subframe>)
    ensures Payloads([s] + next) == [s.payload] + Payloads(next)
  {
  }

  /** What is handed up are the payloads of subframes the bytes begin with. */
  ghost predicate Explains(subs: seq<Subframe>, b: seq<byte>, up: Option<seq<seq<byte>>>) {
    WellLaid(subs) && Layout(subs) <= b && up == Some(Payloads(subs))
  }

  lemma ExplainLast(b: seq<byte>) returns (subs: seq<Subframe>)
    requires |b| >= ETH_HLEN && |b| >= ETH_HLEN + ReadBE16(b, 12)
    ensures Explains(subs, b, Some([b[ETH_HLEN..ETH_HLEN + ReadBE16(b, 12)]]))
  {
    NoneRead();
    hide WellLaid, Payloads, Layout, ReadBE16;
    var rest := b[ETH_HLEN + ReadBE16(b, 12)..];
    assert [] <= rest[0..];
    subs := FrontRead(b, rest, 0, []);
    var p := b[ETH_HLEN..ETH_HLEN + ReadBE16(b, 12)];
    assert [p] + [] == [p];
  }

  lemma ExplainMore(b: seq<byte>, rest: seq<byte>, up: Option<seq<seq<byte>>>, next: seq<Subframe>)
    returns (subs: seq<Subframe>)
    requires |b| >= ETH_HLEN && |b| >= ETH_HLEN + ReadBE16(b, 12)
    requires rest == b[ETH_HLEN + ReadBE16(b, 12)..] && PadLen(ReadBE16(b, 12)) <= |rest|
    requires Explains(next, rest[PadLen(ReadBE16(b, 12))..], up)
    ensures Explains(subs, b, Before(b[ETH_HLEN..ETH_HLEN + ReadBE16(b, 12)], up))
  {
    hide WellLaid, Payloads, Layout, ReadBE16, PadLen;
    subs := FrontRead(b, rest, PadLen(ReadBE16(b, 12)), next);
  }

  /** Nothing is invented: whatever the bytes are, what is handed up of them are the payloads of
      subframes they begin with. */
  lemma {:induction false} SplitSound(b: seq<byte>, count: nat, avail: nat) returns (subs: seq<Subframe>)
    requires Split(b, count, avail).Some?
    ensures Explains(subs, b, Split(b, count, avail))
    decreases |b|
  {
    SplitUnfolds(b, count, avail);
    hide Split, Explains, ReadBE16, PadLen, Before, WellLaid, Layout, Payloads, Encode;
    if |b| <= ETH_HLEN || avail == 0 {
      ExplainNone(b);
      return [];
    }
    var n := ReadBE16(b, 12);
    var rest := b[ETH_HLEN + n..];
    if count + 1 >= MAX_SUBFRAME_COUNT || rest == [] {
      subs := ExplainLast(b);
    } else {
      var up := Split(rest[PadLen(n)..], count + 1, avail - 1);
      NotNone(b[ETH_HLEN..ETH_HLEN + n], up);
      var next := SplitSound(rest[PadLen(n)..], count + 1, avail - 1);
      subs := ExplainMore(b, rest, up, next);
    }
  }

  lemma ExplainNone(b: seq<byte>)
    ensures Explains([], b, Some([]))
  {
    NoneRead();
  }

  lemma NotNone(p: seq<byte>, r: Option<seq<seq<byte>>>)
    ensures Before(p, r).Some? <==> r.Some?
  {
  }

  // ---------------------------------------------------------------------------
  // When everything is dropped
  // ---------------------------------------------------------------------------

  ghost predicate Padded(subs: seq<Subframe>) {
    forall k :: 0 <= k < |subs| ==> Sized(subs[k]) && |subs[k].pad| == PadLen(|subs[k].payload|)
  }

  /** The bytes begin with a subframe that ends behind them; or with one whose padding does, if the loop is
      to go on to a next one. */
  predicate Truncated(b: seq<byte>, count: nat, avail: nat) {
    && |b| > ETH_HLEN
    && var end := ETH_HLEN + ReadBE16(b, 12);
       || |b| < end
       || (avail > 0 && count + 1 < MAX_SUBFRAME_COUNT && end < |b| < end + PadLen(ReadBE16(b, 12)))
  }

  /** Whole subframes up to a truncated one, within the limits. */
  ghost predicate RunsInto(b: seq<byte>, subs: seq<Subframe>, rest: seq<byte>, count: nat, avail: nat) {
    && Padded(subs) && WellLaid(subs) && b == Layout(subs) + rest
    && count + |subs| < MAX_SUBFRAME_COUNT && |subs| <= avail
    && Truncated(rest, count + |subs|, avail - |subs|)
  }

  /** All is dropped, the whole subframes in front included, exactly if the bytes run into a truncated
      subframe. */
  lemma {:induction false} DropsIf(b: seq<byte>, subs: seq<Subframe>, rest: seq<byte>, count: nat, avail: nat)
    requires RunsInto(b, subs, rest, count, avail)
    ensures Split(b, count, avail) == None
    decreases |subs|
  {
    hide *;
    if subs == [] {
      RunsHere(b, rest, count, avail);
    } else {
      RunsOn(b, subs, rest, count, avail);
      var more := Layout(subs[1..]) + rest;
      DropsIf(more, subs[1..], rest, count + 1, avail - 1);
      NotNone(subs[0].payload, Split(more, count + 1, avail - 1));
      SplitFirst(subs[0], more, count, avail);
    }
  }

  lemma RunsHere(b: seq<byte>, rest: seq<byte>, count: nat, avail: nat)
    ensures RunsInto(b, [], rest, count, avail) ==> Split(b, count, avail) == None
    ensures count < MAX_SUBFRAME_COUNT && Truncated(b, count, avail) ==> RunsInto(b, [], b, count, avail)
  {
    NoneRead();
    assert [] + rest == rest && [] + b == b;
    SplitUnfolds(b, count, avail);
    hide Split, Layout;
  }

  lemma RunsOn(b: seq<byte>, subs: seq<Subframe>, rest: seq<byte>, count: nat, avail: nat)
    requires RunsInto(b, subs, rest, count, avail) && subs != []
    ensures WellLaid(subs[1..])
    ensures
      var s, more := subs[0], Layout(subs[1..]) + rest;
      && Sized(s) && |s.pad| == PadLen(|s.payload|) && b == Encode(s) + more && more != []
      && count + 1 < MAX_SUBFRAME_COUNT && 0 < avail
      && RunsInto(more, subs[1..], rest, count + 1, avail - 1)
  {
    Associates(Encode(subs[0]), Layout(subs[1..]), rest);
    hide Encode, PadLen;
  }

  lemma {:induction false} DropsOnlyIf(b: seq<byte>, count: nat, avail: nat)
    returns (subs: seq<Subframe>, rest: seq<byte>)
    requires Split(b, count, avail) == None && count < MAX_SUBFRAME_COUNT
    ensures RunsInto(b, subs, rest, count, avail)
    decreases |b|
  {
    hide *;
    if Truncated(b, count, avail) {
      RunsHere(b, b, count, avail);
      return [], b;
    }
    GoesOn(b, count, avail);
    var n := ReadBE16(b, 12);
    var pad := PadLen(n);
    var tail := b[ETH_HLEN + n..];
    var more;
    more, rest := DropsOnlyIf(tail[pad..], count + 1, avail - 1);
    subs := [Subframe(b[..12], b[ETH_HLEN..ETH_HLEN + n], tail[..pad])] + more;
    RunsFrom(Subframe(b[..12], b[ETH_HLEN..ETH_HLEN + n], tail[..pad]), tail[pad..], more, rest, count, avail);
  }

  /** A first subframe that is not truncated. */
  lemma GoesOn(b: seq<byte>, count: nat, avail: nat)
    requires Split(b, count, avail) == None && !Truncated(b, count, avail) && count < MAX_SUBFRAME_COUNT
    ensures |b| >= ETH_HLEN >= 14 && avail > 0 && count + 1 < MAX_SUBFRAME_COUNT
    ensures
      var n := ReadBE16(b, 12);
      var pad := PadLen(n);
      && ETH_HLEN + n + pad <= |b|
      && Split(b[ETH_HLEN + n..][pad..], count + 1, avail - 1) == None
      && var s := Subframe(b[..12], b[ETH_HLEN..ETH_HLEN + n], b[ETH_HLEN + n..][..pad]);
      && Sized(s) && |s.pad| == PadLen(|s.payload|) && b == Encode(s) + b[ETH_HLEN + n..][pad..]
  {
    SplitUnfolds(b, count, avail);
    hide Split, Encode, PadLen;
    var n := ReadBE16(b, 12);
    NotNone(b[ETH_HLEN..ETH_HLEN + n], Split(b[ETH_HLEN + n..][PadLen(n)..], count + 1, avail - 1));
    EncodeRead(b, PadLen(n));
  }

  lemma RunsFrom(s: Subframe, b: seq<byte>, more: seq<Subframe>, rest: seq<byte>, count: nat, avail: nat)
    requires Sized(s) && |s.pad| == PadLen(|s.payload|) && avail > 0
    requires RunsInto(b, more, rest, count + 1, avail - 1)
    ensures RunsInto(Encode(s) + b, [s] + more, rest, count, avail)
  {
    LayoutCons(s, more);
    hide Layout, Encode, PadLen, Truncated;
    Associates(Encode(s), Layout(more), rest);
  }

  /** amsdu_to_msdu, as far as it decides what goes up: the MAC header and the IV are skipped first. */
  method AmsduToMsdu(frame: seq<byte>, hdrlen: nat, ivLen: nat, avail: nat) returns (up: Option<seq<seq<byte>>>)
    ensures up == Split(Pull(Pull(frame, hdrlen), ivLen), 0, avail)
  {
    var pdata := if hdrlen <= |frame| then hdrlen else 0;
    if ivLen > 0 && pdata + ivLen <= |frame| {
      pdata := pdata + ivLen;
    }
    assert frame[pdata..] == Pull(Pull(frame, hdrlen), ivLen);
    up := SplitFrom(frame, pdata, avail);
  }

  method SplitFrom(frame: seq<byte>, start: nat, avail: nat) returns (up: Option<seq<seq<byte>>>)
    requires start <= |frame|
    ensures up == Split(frame[start..], 0, avail)
  {
    var pdata := start;
    var aLen := |frame| - pdata;
    var subframes: seq<seq<byte>> := [];
    hide Split, Join, Before, ReadBE16;
    ghost var whole := Split(frame[pdata..], 0, avail);
    Joined(whole);
    while aLen > ETH_HLEN
      invariant 0 <= aLen && pdata + aLen == |frame|
      invariant |subframes| < MAX_SUBFRAME_COUNT && |subframes| <= avail
      invariant whole == Join(subframes, Split(frame[pdata..], |subframes|, avail - |subframes|))
      decreases aLen
    {
      ghost var b := frame[pdata..];
      SplitUnfolds(b, |subframes|, avail - |subframes|);
      var n := frame[pdata + 12] as nat * 256 + frame[pdata + 13] as nat;
      LengthAt(frame, pdata);
      JoinedNothing(subframes);
      if aLen < ETH_HLEN + n {
        return None;
      }
      pdata := pdata + ETH_HLEN;
      aLen := aLen - ETH_HLEN;
      if |subframes| == avail {
        break;
      }
      Sliced(frame, pdata - ETH_HLEN, ETH_HLEN, ETH_HLEN + n);
      ghost var was := subframes;
      subframes := subframes + [frame[pdata..pdata + n]];
      JoinedOne(was, frame[pdata..pdata + n]);
      if |subframes| >= MAX_SUBFRAME_COUNT {
        break;
      }
      pdata := pdata + n;
      aLen := aLen - n;
      if aLen != 0 {
        var paddingLen := 4 - (n + ETH_HLEN) % 4;
        if paddingLen == 4 {
          paddingLen := 0;
        }
        if aLen < paddingLen {
          return None;
        }
        Sliced(frame, pdata, paddingLen, paddingLen);
        pdata := pdata + paddingLen;
        aLen := aLen - paddingLen;
        JoinedMore(was, subframes[|was|], Split(frame[pdata..], |subframes|, avail - |subframes|));
      } else {
        assert frame[pdata..] == [];
        SplitUnfolds([], |subframes|, avail - |subframes|);
        JoinedNothing(subframes);
      }
    }
    SplitUnfolds(frame[pdata..], |subframes|, avail - |subframes|);
    JoinedNothing(subframes);
    up := Some(subframes);
  }

  lemma LengthAt(frame: seq<byte>, at: nat)
    requires at + ETH_HLEN <= |frame|
    ensures ReadBE16(frame[at..], 12) == frame[at + 12] as nat * 256 + frame[at + 13] as nat
  {
  }

  lemma Sliced(frame: seq<byte>, at: nat, lo: nat, hi: nat)
    requires lo <= hi && at + hi <= |frame|
    ensures frame[at..][lo..hi] == frame[at + lo..at + hi] && frame[at..][hi..] == frame[at + hi..]
  {
  }

  ghost function Join(done: seq<seq<byte>>, r: Option<seq<seq<byte>>>): Option<seq<seq<byte>>> {
    match r case None => None case Some(ps) => Some(done + ps)
  }

  lemma Joined(r: Option<seq<seq<byte>>>)
    ensures Join([], r) == r
  {
    match r {
      case Some(ps) => assert [] + ps == ps;
      case None =>
    }
  }

  lemma JoinedNothing(done: seq<seq<byte>>)
    ensures Join(done, Some([])) == Some(done) && Join(done, None) == None
  {
    assert done + [] == done;
  }

  lemma JoinedOne(done: seq<seq<byte>>, p: seq<byte>)
    ensures Join(done, Some([p])) == Some(done + [p])
  {
  }

  lemma JoinedMore(done: seq<seq<byte>>, p: seq<byte>, r: Option<seq<seq<byte>>>)
    ensures Join(done, Before(p, r)) == Join(done + [p], r)
  {
    match r {
      case Some(ps) => assert done + ([p] + ps) == done + [p] + ps;
      case None =>
    }
  }

  lemma SplitUnfolds(b: seq<byte>, count: nat, avail: nat)
    ensures Split(b, count, avail) ==
            if |b| <= ETH_HLEN then Some([])
            else
              var n := ReadBE16(b, 12);
              if |b| < ETH_HLEN + n then None
              else if avail == 0 then Some([])
              else
                var payload := b[ETH_HLEN..ETH_HLEN + n];
                var rest := b[ETH_HLEN + n..];
                if count + 1 >= MAX_SUBFRAME_COUNT || rest == [] then Some([payload])
                else if |rest| < PadLen(n) then None
                else Before(payload, Split(rest[PadLen(n)..], count + 1, avail - 1))
  {
  }
}
