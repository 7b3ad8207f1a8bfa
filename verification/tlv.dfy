/**
  Information elements (section 8.4.2.1 of IEEE Std 802.11-2012): an identifier, a length
  and that many bytes of data, one after another.  The searches and edits of
  core/rtw_ieee80211.c on such buffers.
 */
module Tlv {
  import opened Bytes

  datatype Ie = Ie(id: byte, data: seq<byte>)

  const MAX_IE_SZ := 768

  ghost predicate Printable(es: seq<Ie>) {
    forall e :: e in es ==> |e.data| < 256
  }

  function PrintOne(e: Ie): (b: seq<byte>)
    requires |e.data| < 256
    ensures |b| == 2 + |e.data| && b[0] == e.id && b[1] == |e.data| && b[2..] == e.data
  {
    [e.id, |e.data|] + e.data
  }

  ghost function Print(es: seq<Ie>): seq<byte>
    requires Printable(es)
  {
    if es == [] then [] else PrintOne(es[0]) + Print(es[1..])
  }

  /** The whole size of the element that starts a buffer. */
  function FirstSize(b: seq<byte>): nat
    requires |b| >= 2
  {
    2 + b[1] as int
  }

  /** The elements of a buffer that is an exact concatenation of elements. */
  function Decode(b: seq<byte>): Option<seq<Ie>> {
    if b == [] then Some([])
    else if |b| < 2 || |b| < FirstSize(b) then None
    else
      match Decode(b[FirstSize(b)..])
      case None => None
      case Some(es) => Some([Ie(b[0], b[2..FirstSize(b)])] + es)
  }

  function Before(es: seq<Ie>, r: Option<seq<Ie>>): Option<seq<Ie>> {
    match r case None => None case Some(rest) => Some(es + rest)
  }

  lemma BeforeTwice(a: seq<Ie>, b: seq<Ie>, r: Option<seq<Ie>>)
    ensures Before(a, Before(b, r)) == Before(a + b, r)
    ensures Before([], r) == r
  {
    match r {
      case Some(x) => assert a + (b + x) == (a + b) + x && [] + x == x;
      case None =>
    }
  }

  lemma PrintCons(e: Ie, es: seq<Ie>)
    requires Printable(es) && |e.data| < 256
    ensures Printable([e] + es) && Print([e] + es) == PrintOne(e) + Print(es)
  {
    assert ([e] + es)[1..] == es;
  }

  lemma {:induction false} PrintAppends(a: seq<Ie>, b: seq<Ie>)
    requires Printable(a) && Printable(b)
    ensures Printable(a + b) && Print(a + b) == Print(a) + Print(b)
  {
    hide *;
    NothingPrinted();
    if a == [] {
      assert a + b == b && [] + Print(b) == Print(b);
    } else {
      var rest := a[1..];
      FirstPrinted(a);
      PrintAppends(rest, b);
      PrintCons(a[0], rest + b);
      Associates([a[0]], rest, b);
      Associates(PrintOne(a[0]), Print(rest), Print(b));
      assert [a[0]] + rest == a;
    }
  }

  lemma PrintSnoc(a: seq<Ie>, e: Ie)
    requires Printable(a) && |e.data| < 256
    ensures Printable(a + [e]) && Print(a + [e]) == Print(a) + PrintOne(e)
  {
    PrintAppends(a, [e]);
    PrintCons(e, []);
    assert [e] + [] == [e];
  }

  lemma DecodeStep(e: Ie, rest: seq<byte>)
    requires |e.data| < 256
    ensures Decode(PrintOne(e) + rest) == Before([e], Decode(rest))
  {
    var b := PrintOne(e) + rest;
    assert b[0] == e.id && b[1] == |e.data|;
    assert b[2..FirstSize(b)] == e.data && b[FirstSize(b)..] == rest;
  }

  lemma {:induction false} DecodeAfter(es: seq<Ie>, rest: seq<byte>)
    requires Printable(es)
    ensures Decode(Print(es) + rest) == Before(es, Decode(rest))
  {
    hide Decode, Before, PrintOne;
    BeforeTwice([], [], Decode(rest));
    if es == [] {
      assert Print(es) + rest == rest;
    } else {
      var more := Print(es[1..]) + rest;
      DecodeAfter(es[1..], rest);
      DecodeStep(es[0], more);
      BeforeTwice([es[0]], es[1..], Decode(rest));
      assert [es[0]] + es[1..] == es;
      assert Print(es) + rest == PrintOne(es[0]) + more;
    }
  }

  /** Printing and decoding are inverse. */
  lemma DecodePrint(es: seq<Ie>)
    requires Printable(es)
    ensures Decode(Print(es)) == Some(es)
  {
    DecodeAfter(es, []);
    assert Print(es) + [] == Print(es) && es + [] == es;
  }

  lemma DecodeUnfolds(b: seq<byte>)
    requires Decode(b).Some? && b != []
    ensures |b| >= 2 && FirstSize(b) <= |b| && Decode(b[FirstSize(b)..]).Some?
    ensures
      var e := Ie(b[0], b[2..FirstSize(b)]);
      Decode(b) == Some([e] + Decode(b[FirstSize(b)..]).value)
  {
  }

  lemma PrintFirst(b: seq<byte>)
    requires |b| >= 2 && FirstSize(b) <= |b|
    ensures b == PrintOne(Ie(b[0], b[2..FirstSize(b)])) + b[FirstSize(b)..]
  {
  }

  lemma {:induction false} PrintDecode(b: seq<byte>)
    requires Decode(b).Some?
    ensures Printable(Decode(b).value) && Print(Decode(b).value) == b
  {
    if b == [] {
    } else {
      hide Print, Decode, PrintOne;
      DecodeUnfolds(b);
      PrintFirst(b);
      var n := FirstSize(b);
      PrintDecode(b[n..]);
      PrintCons(Ie(b[0], b[2..n]), Decode(b[n..]).value);
    }
  }

  // ---------------------------------------------------------------------------
  // Printing
  // ---------------------------------------------------------------------------

  /** rtw_set_ie: writes one element at `at`, and counts its bytes. */
  method SetIe(buf: array<byte>, at: nat, e: Ie, frlen: nat) returns (next: nat, frlen': nat)
    requires |e.data| < 256 && at + 2 + |e.data| <= buf.Length
    modifies buf
    ensures next == at + 2 + |e.data| && frlen' == frlen + 2 + |e.data|
    ensures buf[at..next] == PrintOne(e)
    ensures buf[..at] == old(buf[..at]) && buf[next..] == old(buf[next..])
  {
    buf[at] := e.id;
    buf[at + 1] := |e.data|;
    forall k | 0 <= k < |e.data| {
      buf[at + 2 + k] := e.data[k];
    }
    next, frlen' := at + |e.data| + 2, frlen + (|e.data| + 2);
  }

  /** A frame's elements are built by one rtw_set_ie after another. */
  method SetIes(buf: array<byte>, es: seq<Ie>) returns (len: nat)
    requires Printable(es) && |Print(es)| <= buf.Length
    modifies buf
    ensures len == |Print(es)| && buf[..len] == Print(es)
    ensures Decode(buf[..len]) == Some(es)
  {
    var at, i := 0, 0;
    len := 0;
    while i < |es|
      invariant 0 <= i <= |es| && at == len == |Print(es[..i])| && at <= buf.Length
      invariant buf[..at] == Print(es[..i])
    {
      assert es[..i + 1] == es[..i] + [es[i]];
      PrintSnoc(es[..i], es[i]);
      assert es[..i + 1] + es[i + 1..] == es;
      PrintAppends(es[..i + 1], es[i + 1..]);
      at, len := SetIe(buf, at, es[i], len);
      i := i + 1;
    }
    assert es[..i] == es;
    DecodePrint(es);
  }

  // ---------------------------------------------------------------------------
  // Searching
  // ---------------------------------------------------------------------------

  /** Where element `k` starts. */
  ghost function At(es: seq<Ie>, k: nat): nat
    requires Printable(es) && k <= |es|
  {
    |Print(es[..k])|
  }

  lemma Locate(es: seq<Ie>, k: nat)
    requires Printable(es) && k < |es|
    ensures At(es, k + 1) == At(es, k) + 2 + |es[k].data| <= |Print(es)|
    ensures Print(es)[At(es, k)..At(es, k + 1)] == PrintOne(es[k])
    ensures Print(es)[..At(es, k)] == Print(es[..k]) && Print(es)[At(es, k + 1)..] == Print(es[k + 1..])
  {
    hide Print, PrintOne;
    var e, b := es[k], Print(es);
    assert es[..k + 1] == es[..k] + [e] && es == es[..k + 1] + es[k + 1..];
    PrintSnoc(es[..k], e);
    PrintAppends(es[..k + 1], es[k + 1..]);
    ThreeParts(Print(es[..k]), PrintOne(e), Print(es[k + 1..]));
  }

  /** The same, read off a buffer that holds the printed elements from `start` on. */
  lemma LocateIn(b: seq<byte>, start: nat, end: nat, es: seq<Ie>, k: nat)
    requires start <= end <= |b| && Printable(es) && k < |es| && b[start..end] == Print(es)
    ensures At(es, k + 1) == At(es, k) + 2 + |es[k].data| <= end - start
    ensures
      var at := start + At(es, k);
      && b[at] == es[k].id && b[at + 1] == |es[k].data| && b[at + 2..at + 2 + |es[k].data|] == es[k].data
      && b[..at] == b[..start] + Print(es[..k])
      && b[at + 2 + |es[k].data|..end] == Print(es[k + 1..])
  {
    hide Print, At, PrintOne;
    Locate(es, k);
    var p, lo, hi := Print(es), At(es, k), At(es, k + 1);
    var one := PrintOne(es[k]);
    Slice(b, start, end, lo, hi);
    Slice(b, start, end, hi, |p|);
    Slice(b, start + lo, start + hi, 2, |one|);
    assert b[start + lo] == one[0] && b[start + lo + 1] == one[1];
    assert b[..start + lo] == b[..start] + p[..lo];
    assert p[hi..] == p[hi..|p|] && one[2..] == one[2..|one|];
  }

  lemma AtEnd(es: seq<Ie>)
    requires Printable(es)
    ensures At(es, |es|) == |Print(es)| && At(es, 0) == 0
  {
    assert es[..|es|] == es && es[..0] == [];
  }

  // ---------------------------------------------------------------------------
  // Searching any bytes
  // ---------------------------------------------------------------------------

  /** Bytes that do not start with a whole element. */
  predicate Broken(rest: seq<byte>) {
    rest != [] && (|rest| < 2 || |rest| < FirstSize(rest))
  }

  /** The whole elements some bytes begin with. */
  ghost function Whole(b: seq<byte>): seq<Ie> {
    if b == [] || Broken(b) then [] else [Ie(b[0], b[2..FirstSize(b)])] + Whole(b[FirstSize(b)..])
  }

  /** And what is left behind them. */
  ghost function Remainder(b: seq<byte>): seq<byte> {
    if b == [] || Broken(b) then b else Remainder(b[FirstSize(b)..])
  }

  lemma {:induction false} Splits(b: seq<byte>)
    ensures Printable(Whole(b)) && b == Print(Whole(b)) + Remainder(b)
    ensures Remainder(b) == [] || Broken(Remainder(b))
  {
    if b != [] && !Broken(b) {
      hide Print, PrintOne;
      var n := FirstSize(b);
      PrintFirst(b);
      Splits(b[n..]);
      PrintCons(Ie(b[0], b[2..n]), Whole(b[n..]));
      Associates(PrintOne(Ie(b[0], b[2..n])), Print(Whole(b[n..])), Remainder(b[n..]));
    }
  }

  /** No other elements and no other remainder make up the same bytes. */
  lemma {:induction false} SplitsOnce(es: seq<Ie>, rest: seq<byte>)
    requires Printable(es) && (rest == [] || Broken(rest))
    ensures Whole(Print(es) + rest) == es && Remainder(Print(es) + rest) == rest
  {
    hide *;
    NothingPrinted();
    if es == [] {
      assert [] + rest == rest;
      NothingWhole(rest);
    } else {
      FirstPrinted(es);
      var more := Print(es[1..]) + rest;
      SplitsOnce(es[1..], rest);
      WholeStep(es[0], more);
      Associates(PrintOne(es[0]), Print(es[1..]), rest);
      assert [es[0]] + es[1..] == es;
    }
  }

  lemma NothingPrinted()
    ensures Printable([]) && Print([]) == []
  {
  }

  lemma NothingWhole(rest: seq<byte>)
    requires rest == [] || Broken(rest)
    ensures Whole(rest) == [] && Remainder(rest) == rest
  {
  }

  lemma FirstPrinted(es: seq<Ie>)
    requires Printable(es) && es != []
    ensures |es[0].data| < 256 && Printable(es[1..]) && Print(es) == PrintOne(es[0]) + Print(es[1..])
  {
  }

  lemma WholeStep(e: Ie, more: seq<byte>)
    requires |e.data| < 256
    ensures Whole(PrintOne(e) + more) == [e] + Whole(more) && Remainder(PrintOne(e) + more) == Remainder(more)
  {
    var b := PrintOne(e) + more;
    assert b[0] == e.id && b[1] == |e.data|;
    assert b[2..FirstSize(b)] == e.data && b[FirstSize(b)..] == more;
  }

  /** How often a search stops: at every whole element, and at the remainder. */
  ghost function Stops(b: seq<byte>): nat {
    |Whole(b)| + if Remainder(b) == [] then 0 else 1
  }

  ghost function Stop(b: seq<byte>, k: nat): nat
    requires k <= |Whole(b)|
  {
    Splits(b);
    At(Whole(b), k)
  }

  lemma StopNext(b: seq<byte>, start: nat, end: nat, k: nat)
    requires start <= end <= |b| && k <= |Whole(b[start..end])|
    ensures
      var w := b[start..end];
      var at := start + Stop(w, k);
      && Stop(w, 0) == 0 && (k < Stops(w) <==> at < end)
      && (k < |Whole(w)| ==> at + 2 <= end && Stop(w, k + 1) == Stop(w, k) + 2 + b[at + 1] as int)
      && (k == |Whole(w)| && at < end && at + 1 < |b| ==> at + 2 + b[at + 1] as int > end)
  {
    hide Print, Whole, Remainder, At, Printable;
    var w := b[start..end];
    var es := Whole(w);
    SplitIn(b, start, end);
    StopIs(w, k);
    StopIs(w, 0);
    AtEnd(es);
    if k < |es| {
      StopIs(w, k + 1);
      LocateIn(b, start, start + |Print(es)|, es, k);
    }
  }

  lemma StopIs(w: seq<byte>, k: nat)
    requires k <= |Whole(w)|
    ensures Printable(Whole(w)) && Stop(w, k) == At(Whole(w), k)
  {
    Splits(w);
  }

  /** Where the whole elements and the remainder are, and why the remainder is no element. */
  lemma SplitIn(b: seq<byte>, start: nat, end: nat)
    requires start <= end <= |b|
    ensures Printable(Whole(b[start..end]))
    ensures
      var w := b[start..end];
      var n, rest := |Print(Whole(w))|, Remainder(w);
      && n <= end - start && b[start..start + n] == Print(Whole(w))
      && (rest == [] <==> start + n == end)
      && (rest != [] && start + n + 1 < |b| ==> start + n + 2 + b[start + n + 1] as int > end)
  {
    var w := b[start..end];
    var es, rest := Whole(w), Remainder(w);
    Splits(w);
    hide Whole, Remainder, Print;
    var n := |Print(es)|;
    assert w[..n] == Print(es) && w[n..] == rest;
    Slice(b, start, end, 0, n);
    if |rest| >= 2 {
      assert rest[1] == w[n + 1] == b[start + n + 1];
    }
  }

  /** The bytes a search compares: the identifier and, if one is given, the OUI, whatever the length
      byte between them says. */
  predicate Hit(b: seq<byte>, at: nat, eid: int, oui: Option<seq<byte>>) {
    && at < |b| && b[at] as int == eid
    && (oui.Some? ==> at + 2 + |oui.value| <= |b| && b[at + 2..at + 2 + |oui.value|] == oui.value)
  }

  ghost predicate HitAt(b: seq<byte>, start: nat, end: nat, eid: int, oui: Option<seq<byte>>, k: nat)
    requires start <= end <= |b|
  {
    k < Stops(b[start..end]) && Hit(b, start + Stop(b[start..end], k), eid, oui)
  }

  ghost predicate FirstHit(b: seq<byte>, start: nat, end: nat, eid: int, oui: Option<seq<byte>>, k: nat)
    requires start <= end <= |b|
  {
    HitAt(b, start, end, eid, oui, k) && forall j :: 0 <= j < k ==> !HitAt(b, start, end, eid, oui, j)
  }

  ghost predicate NoHit(b: seq<byte>, start: nat, end: nat, eid: int, oui: Option<seq<byte>>)
    requires start <= end <= |b|
  {
    forall k: nat :: !HitAt(b, start, end, eid, oui, k)
  }

  /** The memory reaches as far as a search that comes to `at` reads. */
  predicate Reaches(b: seq<byte>, at: nat, eid: int, oui: Option<seq<byte>>) {
    at + 2 <= |b| && (oui.Some? && b[at] as int == eid ==> at + 2 + |oui.value| <= |b|)
  }

  /** It does so wherever the search comes. */
  ghost predicate Searchable(b: seq<byte>, start: nat, end: nat, eid: int, oui: Option<seq<byte>>)
    requires start <= end <= |b|
  {
    forall k :: 0 <= k < Stops(b[start..end]) && (forall j :: 0 <= j < k ==> !HitAt(b, start, end, eid, oui, j)) ==>
      Reaches(b, start + Stop(b[start..end], k), eid, oui)
  }

  /** Stop `k` of a search that found nothing before. */
  lemma Visit(b: seq<byte>, start: nat, end: nat, eid: int, oui: Option<seq<byte>>, k: nat)
    requires start <= end <= |b| && Searchable(b, start, end, eid, oui) && k < Stops(b[start..end])
    requires forall j :: 0 <= j < k ==> !HitAt(b, start, end, eid, oui, j)
    ensures
      var at := start + Stop(b[start..end], k);
      && Reaches(b, at, eid, oui)
      && (Hit(b, at, eid, oui) ==> FirstHit(b, start, end, eid, oui, k))
      && (!Hit(b, at, eid, oui) ==> forall j :: 0 <= j <= k ==> !HitAt(b, start, end, eid, oui, j))
  {
    hide Stop, Stops, Hit, Reaches;
  }

  /** What is found is a whole element exactly if it fits; otherwise it is the remainder. */
  lemma FoundFits(b: seq<byte>, start: nat, end: nat, eid: int, oui: Option<seq<byte>>, k: nat)
    requires start <= end <= |b| && FirstHit(b, start, end, eid, oui, k)
    requires start + Stop(b[start..end], k) + 2 <= |b|
    ensures
      var es, at := Whole(b[start..end]), start + Stop(b[start..end], k);
      && (at + 2 + b[at + 1] as int <= end <==> k < |es|)
      && (k < |es| ==> es[k] == Ie(eid, b[at + 2..at + 2 + b[at + 1] as int]))
  {
    hide Print, Whole, Remainder, At, Printable, Stop;
    var w := b[start..end];
    StopNext(b, start, end, k);
    StopIs(w, k);
    SplitIn(b, start, end);
    if k < |Whole(w)| {
      LocateIn(b, start, start + |Print(Whole(w))|, Whole(w), k);
    }
  }

  /** rtw_get_ie on the first `limit` bytes, whatever they are: the first stop with identifier
      `index`. */
  method GetIe(buf: seq<byte>, index: int, limit: int) returns (found: bool, pos: nat, len: nat, ghost k: nat)
    requires limit <= |buf|
    requires limit >= 1 ==> Searchable(buf, 0, limit, index, None)
    ensures limit < 1 ==> !found
    ensures limit >= 1 && found ==>
              && FirstHit(buf, 0, limit, index, None, k) && pos == Stop(buf[0..limit], k)
              && pos + 1 < |buf| && len == buf[pos + 1]
    ensures limit >= 1 && !found ==> NoHit(buf, 0, limit, index, None)
  {
    hide Stop, Stops, HitAt, FirstHit, NoHit, Searchable, Whole;
    found, pos, len, k := false, 0, 0, 0;
    if limit < 1 {
      return;
    }
    ghost var w := buf[0..limit];
    var i := 0;
    StopNext(buf, 0, limit, 0);
    while true
      invariant k <= |Whole(w)| && k < Stops(w) && pos == i == Stop(w, k) && len == 0
      invariant forall j :: 0 <= j < k ==> !HitAt(buf, 0, limit, index, None, j)
      decreases Stops(w) - k
    {
      StopNext(buf, 0, limit, k);
      Visit(buf, 0, limit, index, None, k);
      if buf[pos] as int == index {
        len := buf[pos + 1];
        return true, pos, len, k;
      } else {
        var tmp := buf[pos + 1] as nat;
        pos := pos + (tmp + 2);
        i := i + (tmp + 2);
      }
      StopsAre(w, k);
      k := k + 1;
      if k <= |Whole(w)| {
        StopNext(buf, 0, limit, k);
      }
      if i >= limit {
        break;
      }
    }
    NoHitLeft(buf, 0, limit, index, None, k);
    pos := 0;
  }

  lemma StopsAre(w: seq<byte>, k: nat)
    requires k < Stops(w)
    ensures k <= |Whole(w)| && (k == |Whole(w)| ==> Stops(w) == k + 1)
  {
  }

  lemma NoHitLeft(b: seq<byte>, start: nat, end: nat, eid: int, oui: Option<seq<byte>>, k: nat)
    requires start <= end <= |b| && Stops(b[start..end]) <= k
    requires forall j :: 0 <= j < k ==> !HitAt(b, start, end, eid, oui, j)
    ensures NoHit(b, start, end, eid, oui)
  {
    hide Stop, Stops, Hit;
  }

  /** rtw_get_ie_ex on `len` bytes from `start`, whatever they are. */
  method GetIeEx(a: array<byte>, start: nat, len: nat, eid: byte, oui: Option<seq<byte>>)
    returns (found: bool, pos: nat, ielen: nat, ghost k: nat)
    requires start + len <= a.Length && Searchable(a[..], start, start + len, eid, oui)
    ensures found ==>
              && FirstHit(a[..], start, start + len, eid, oui, k)
              && pos == start + Stop(a[..][start..start + len], k)
              && pos + 1 < a.Length && ielen == a[pos + 1] as int + 2
    ensures !found ==> NoHit(a[..], start, start + len, eid, oui)
  {
    hide Stop, Stops, HitAt, FirstHit, NoHit, Searchable, Whole;
    found, pos, ielen, k := false, start, 0, 0;
    ghost var b, end := a[..], start + len;
    ghost var w := b[start..end];
    var cnt := 0;
    StopNext(b, start, end, 0);
    while cnt < len
      invariant if k <= |Whole(w)| then cnt == Stop(w, k) else Stops(w) <= k && len <= cnt
      invariant forall j :: 0 <= j < k ==> !HitAt(b, start, end, eid, oui, j)
      decreases |Whole(w)| + 1 - k
    {
      StopNext(b, start, end, k);
      Visit(b, start, end, eid, oui, k);
      var at := start + cnt;
      if eid == a[at] && (oui.None? || a[at + 2..at + 2 + |oui.value|] == oui.value) {
        return true, at, a[at + 1] as nat + 2, k;
      }
      cnt := cnt + (a[at + 1] as nat + 2);
      StopsAre(w, k);
      k := k + 1;
    }
    if k <= |Whole(w)| {
      StopNext(b, start, end, k);
    }
    NoHitLeft(b, start, end, eid, oui, k);
  }

  // ---------------------------------------------------------------------------
  // Searching elements
  // ---------------------------------------------------------------------------

  /** An element matches an identifier and, if there is one, an OUI its data starts with. */
  predicate Matches(e: Ie, eid: byte, oui: Option<seq<byte>>) {
    e.id == eid && (oui.Some? ==> oui.value <= e.data)
  }

  /** The source compares the OUI without looking at the element's length. */
  ghost predicate LongEnough(es: seq<Ie>, eid: byte, oui: Option<seq<byte>>) {
    oui.Some? ==> forall e :: e in es && e.id == eid ==> |oui.value| <= |e.data|
  }

  ghost predicate FirstMatch(es: seq<Ie>, eid: byte, oui: Option<seq<byte>>, k: nat) {
    k < |es| && Matches(es[k], eid, oui) && forall j :: 0 <= j < k ==> !Matches(es[j], eid, oui)
  }

  /** So it does for a remainder. */
  predicate TailLongEnough(tail: seq<byte>, eid: byte, oui: Option<seq<byte>>) {
    oui.Some? && tail != [] && tail[0] == eid ==> 2 + |oui.value| <= |tail|
  }

  /** A search takes the remainder for an element. */
  predicate TailHits(tail: seq<byte>, eid: byte, oui: Option<seq<byte>>) {
    tail != [] && tail[0] == eid && (oui.Some? ==> 2 + |oui.value| <= |tail| && tail[2..2 + |oui.value|] == oui.value)
  }

  ghost predicate NoMatch(es: seq<Ie>, eid: byte, oui: Option<seq<byte>>) {
    forall e :: e in es ==> !Matches(e, eid, oui)
  }

  /** b[start..end] are these elements and this remainder, as long as the OUI where that is compared, and
      with the length byte of the remainder to be read. */
  ghost predicate Laid(b: seq<byte>, start: nat, end: nat, es: seq<Ie>, tail: seq<byte>,
                       eid: byte, oui: Option<seq<byte>>)
  {
    && start <= end <= |b| && Printable(es) && b[start..end] == Print(es) + tail
    && (tail == [] || Broken(tail)) && (|tail| == 1 ==> end < |b|)
    && LongEnough(es, eid, oui) && TailLongEnough(tail, eid, oui)
  }

  lemma LaidParts(b: seq<byte>, start: nat, end: nat, es: seq<Ie>, tail: seq<byte>, eid: byte, oui: Option<seq<byte>>)
    requires Laid(b, start, end, es, tail, eid, oui)
    ensures
      var n := |Print(es)|;
      && start + n + |tail| == end <= |b| && b[start..start + n] == Print(es) && b[start + n..end] == tail
      && (tail != [] ==> start + n + 2 <= |b| && b[start + n] == tail[0])
  {
    hide Print, Broken;
    var n := |Print(es)|;
    Slice(b, start, end, 0, n);
    Slice(b, start, end, n, end - start);
    var p := Print(es);
    assert (p + tail)[0..n] == p && (p + tail)[n..end - start] == tail;
  }

  /** There the stops are the elements and the remainder, and the hits the matches. */
  lemma HitIsMatch(b: seq<byte>, start: nat, end: nat, es: seq<Ie>, tail: seq<byte>,
                   eid: byte, oui: Option<seq<byte>>, k: nat)
    requires Laid(b, start, end, es, tail, eid, oui)
    ensures Whole(b[start..end]) == es && Stops(b[start..end]) == |es| + if tail == [] then 0 else 1
    ensures HitAt(b, start, end, eid, oui, k) <==>
            if k < |es| then Matches(es[k], eid, oui) else k == |es| && TailHits(tail, eid, oui)
    ensures k < Stops(b[start..end]) ==> k <= |es| && Reaches(b, start + Stop(b[start..end], k), eid, oui)
  {
    hide Print, Whole, Remainder, At, Printable, LongEnough, Stop, Stops, Broken, Hit, Reaches, TailHits, Matches;
    LaidParts(b, start, end, es, tail, eid, oui);
    WholeIs(b[start..end], es, tail);
    if k < |es| {
      StopIs(b[start..end], k);
      ElementCompares(b, start, start + |Print(es)|, es, eid, oui, k);
    } else if k == |es| && tail != [] {
      StopIs(b[start..end], k);
      AtEnd(es);
      TailCompares(b, start + |Print(es)|, end, tail, eid, oui);
    } else {
      NoTailNoHit(eid, oui);
    }
  }

  lemma NoTailNoHit(eid: byte, oui: Option<seq<byte>>)
    ensures !TailHits([], eid, oui)
  {
  }

  lemma ElementCompares(b: seq<byte>, start: nat, end: nat, es: seq<Ie>, eid: byte, oui: Option<seq<byte>>, k: nat)
    requires start <= end <= |b| && Printable(es) && b[start..end] == Print(es) && k < |es| && LongEnough(es, eid, oui)
    ensures Hit(b, start + At(es, k), eid, oui) <==> Matches(es[k], eid, oui)
    ensures Reaches(b, start + At(es, k), eid, oui)
  {
    hide Print, At, Printable, LongEnough;
    LocateIn(b, start, end, es, k);
    if es[k].id == eid {
      OuiCompares(b, start + At(es, k), es, k, eid, oui);
    }
  }

  lemma TailCompares(b: seq<byte>, at: nat, end: nat, tail: seq<byte>, eid: byte, oui: Option<seq<byte>>)
    requires at + 2 <= |b| && at <= end <= |b| && tail != [] && b[at..end] == tail && TailLongEnough(tail, eid, oui)
    ensures Hit(b, at, eid, oui) <==> TailHits(tail, eid, oui)
    ensures Reaches(b, at, eid, oui)
  {
    assert b[at] == tail[0];
    if oui.Some? && tail[0] == eid {
      Slice(b, at, end, 2, 2 + |oui.value|);
    }
  }

  lemma WholeIs(w: seq<byte>, es: seq<Ie>, tail: seq<byte>)
    requires Printable(es) && Print(es) + tail == w && (tail == [] || Broken(tail))
    ensures Whole(w) == es && Stops(w) == |es| + if tail == [] then 0 else 1
  {
    SplitsOnce(es, tail);
  }

  lemma ExactHits(b: seq<byte>, start: nat, end: nat, es: seq<Ie>, tail: seq<byte>, eid: byte, oui: Option<seq<byte>>)
    requires Laid(b, start, end, es, tail, eid, oui)
    ensures Searchable(b, start, end, eid, oui)
    ensures forall k: nat :: FirstHit(b, start, end, eid, oui, k) <==>
              FirstMatch(es, eid, oui, k) || (k == |es| && NoMatch(es, eid, oui) && TailHits(tail, eid, oui))
    ensures NoHit(b, start, end, eid, oui) <==> NoMatch(es, eid, oui) && !TailHits(tail, eid, oui)
  {
    hide Print, HitAt, Matches, LongEnough, TailLongEnough, TailHits, Reaches, Stop, Stops, Whole, Broken;
    forall k: nat
      ensures HitAt(b, start, end, eid, oui, k) <==>
              if k < |es| then Matches(es[k], eid, oui) else k == |es| && TailHits(tail, eid, oui)
      ensures k < Stops(b[start..end]) ==>
                k <= |Whole(b[start..end])| && Reaches(b, start + Stop(b[start..end], k), eid, oui)
    {
      HitIsMatch(b, start, end, es, tail, eid, oui, k);
    }
    assert HitAt(b, start, end, eid, oui, |es|) <==> TailHits(tail, eid, oui);
    NoMatchAt(es, eid, oui);
  }

  lemma NoMatchAt(es: seq<Ie>, eid: byte, oui: Option<seq<byte>>)
    ensures NoMatch(es, eid, oui) <==> forall k :: 0 <= k < |es| ==> !Matches(es[k], eid, oui)
  {
    hide Matches;
  }

  /** What a search finds there: a match, or a remainder that does not fit. */
  lemma FoundMatch(b: seq<byte>, start: nat, end: nat, es: seq<Ie>, tail: seq<byte>,
                   eid: byte, oui: Option<seq<byte>>, k: nat)
    requires Laid(b, start, end, es, tail, eid, oui) && FirstHit(b, start, end, eid, oui, k)
    ensures Whole(b[start..end]) == es && k <= |es|
    ensures
      var at := start + Stop(b[start..end], k);
      && at + 2 <= |b|
      && if k < |es| then
           && FirstMatch(es, eid, oui, k)
           && at == start + At(es, k) && at + 2 + |es[k].data| <= end && b[at + 1] as int == |es[k].data|
         else NoMatch(es, eid, oui) && TailHits(tail, eid, oui) && at + 2 + b[at + 1] as int > end
  {
    hide Print, HitAt, LongEnough, TailLongEnough, TailHits, Whole, Matches, Searchable, NoHit, NoMatch, FirstMatch;
    hide At, Printable, Stop, Stops, Broken;
    ExactHits(b, start, end, es, tail, eid, oui);
    HitIsMatch(b, start, end, es, tail, eid, oui, k);
    LaidParts(b, start, end, es, tail, eid, oui);
    IsFirst(es, eid, oui, k);
    HitReached(b, start, end, eid, oui, k);
    StopIs(b[start..end], k);
    FoundFits(b, start, end, eid, oui, k);
    if k < |es| {
      LocateIn(b, start, start + |Print(es)|, es, k);
    } else {
      AtEnd(es);
    }
  }

  lemma IsFirst(es: seq<Ie>, eid: byte, oui: Option<seq<byte>>, k: nat)
    ensures FirstMatch(es, eid, oui, k) ==> k < |es|
  {
  }

  lemma HitReached(b: seq<byte>, start: nat, end: nat, eid: int, oui: Option<seq<byte>>, k: nat)
    requires start <= end <= |b| && FirstHit(b, start, end, eid, oui, k)
    ensures k < Stops(b[start..end])
  {
  }

  lemma OuiCompares(b: seq<byte>, at: nat, es: seq<Ie>, k: nat, eid: byte, oui: Option<seq<byte>>)
    requires k < |es| && es[k].id == eid && LongEnough(es, eid, oui)
    requires at + 2 + |es[k].data| <= |b| && b[at + 2..at + 2 + |es[k].data|] == es[k].data
    ensures oui.Some? ==>
              && |oui.value| <= |es[k].data|
              && (b[at + 2..at + 2 + |oui.value|] == oui.value <==> oui.value <= es[k].data)
  {
    if oui.Some? {
      assert es[k] in es;
      var n := |oui.value|;
      assert b[at + 2..at + 2 + n] == b[at + 2..at + 2 + |es[k].data|][..n];
    }
  }

  // ---------------------------------------------------------------------------
  // Removing
  // ---------------------------------------------------------------------------

  function Without(es: seq<Ie>, eid: byte, oui: Option<seq<byte>>): (r: seq<Ie>)
    ensures |r| <= |es|
  {
    if es == [] then []
    else (if Matches(es[0], eid, oui) then [] else [es[0]]) + Without(es[1..], eid, oui)
  }

  lemma {:induction false} WithoutFirst(es: seq<Ie>, eid: byte, oui: Option<seq<byte>>, k: nat)
    requires FirstMatch(es, eid, oui, k)
    ensures Without(es, eid, oui) == es[..k] + Without(es[k + 1..], eid, oui)
  {
    WithoutHead(es, eid, oui, k);
    hide Matches, FirstMatch, Without;
    if k > 0 {
      WithoutFirst(es[1..], eid, oui, k - 1);
      assert es[1..][k..] == es[k + 1..] && es[..k] == [es[0]] + es[1..][..k - 1];
      var tail := Without(es[k + 1..], eid, oui);
      assert [es[0]] + (es[1..][..k - 1] + tail) == es[..k] + tail;
    } else {
      assert es[..0] == [];
    }
  }

  lemma WithoutHead(es: seq<Ie>, eid: byte, oui: Option<seq<byte>>, k: nat)
    requires FirstMatch(es, eid, oui, k)
    ensures k < |es| && Without(es, eid, oui) == (if k == 0 then [] else [es[0]]) + Without(es[1..], eid, oui)
    ensures k > 0 ==> FirstMatch(es[1..], eid, oui, k - 1)
  {
  }

  lemma {:induction false} WithoutNone(es: seq<Ie>, eid: byte, oui: Option<seq<byte>>)
    requires forall e :: e in es ==> !Matches(e, eid, oui)
    ensures Without(es, eid, oui) == es
  {
    if es != [] {
      WithoutNone(es[1..], eid, oui);
    }
  }

  /** Half-way through a removal: the bytes before `start` are final, the elements `rest` and the remainder
      `tail` behind it are still to be searched. */
  ghost predicate Removing(b: seq<byte>, fixed: seq<byte>, start: nat, len: nat, front: seq<Ie>, rest: seq<Ie>,
                           tail: seq<byte>, es: seq<Ie>, eid: byte, oui: Option<seq<byte>>)
  {
    && Laid(b, start, len, rest, tail, eid, oui)
    && Printable(front) && b[..start] == fixed + Print(front)
    && Without(es, eid, oui) == front + Without(rest, eid, oui)
  }

  lemma StartRemoving(b: seq<byte>, offset: nat, len: nat, es: seq<Ie>, tail: seq<byte>,
                      eid: byte, oui: Option<seq<byte>>)
    requires Laid(b, offset, len, es, tail, eid, oui)
    ensures Removing(b, b[..offset], offset, len, [], es, tail, es, eid, oui)
  {
    hide Without;
    assert [] + Without(es, eid, oui) == Without(es, eid, oui);
  }

  lemma CutParts(b: seq<byte>, b2: seq<byte>, target: nat, n: nat, len: nat)
    requires target + n <= len <= |b| && len - n <= |b2|
    requires b2[..len - n] == b[..target] + b[target + n..len]
    ensures b2[..target] == b[..target] && b2[target..len - n] == b[target + n..len]
  {
    Slice(b2, 0, len - n, 0, target);
    Slice(b2, 0, len - n, target, len - n);
    var front, back := b[..target], b[target + n..len];
    assert (front + back)[..target] == front && (front + back)[target..len - n] == back;
  }

  /** Cutting the first match out of the elements still to be searched. */
  lemma CutMatch(b: seq<byte>, fixed: seq<byte>, start: nat, len: nat, front: seq<Ie>, rest: seq<Ie>, tail: seq<byte>,
                 es: seq<Ie>, eid: byte, oui: Option<seq<byte>>, k: nat, b2: seq<byte>)
    requires Removing(b, fixed, start, len, front, rest, tail, es, eid, oui) && FirstMatch(rest, eid, oui, k)
    requires At(rest, k) + 2 + |rest[k].data| <= len - start
    requires
      var target, n := start + At(rest, k), 2 + |rest[k].data|;
      |b2| == |b| && b2[..len - n] == b[..target] + b[target + n..len]
    ensures
      var target, n := start + At(rest, k), 2 + |rest[k].data|;
      Removing(b2, fixed, target, len - n, front + rest[..k], rest[k + 1..], tail, es, eid, oui)
  {
    hide Print, At, Without, Broken, TailLongEnough;
    var target, n, end := start + At(rest, k), 2 + |rest[k].data|, start + |Print(rest)|;
    LaidParts(b, start, len, rest, tail, eid, oui);
    LocateIn(b, start, end, rest, k);
    PrintAppends(front, rest[..k]);
    WithoutFirst(rest, eid, oui, k);
    CutParts(b, b2, target, n, len);
    Adjacent(b, target + n, end, len);
    Associates(front, rest[..k], Without(rest[k + 1..], eid, oui));
  }

  lemma FinishRemoving(b: seq<byte>, fixed: seq<byte>, start: nat, len: nat, front: seq<Ie>, rest: seq<Ie>,
                       tail: seq<byte>, es: seq<Ie>, eid: byte, oui: Option<seq<byte>>)
    requires Removing(b, fixed, start, len, front, rest, tail, es, eid, oui)
    requires NoMatch(rest, eid, oui)
    ensures len <= |b|
    ensures
      var kept := Without(es, eid, oui);
      kept == front + rest && Printable(kept) && b[..len] == fixed + Print(kept) + tail
  {
    hide Print, Without, Matches;
    WithoutNone(rest, eid, oui);
    PrintAppends(front, rest);
    Adjacent(b, 0, start, len);
    Associates(fixed + Print(front), Print(rest), tail);
    Associates(fixed, Print(front), Print(rest));
  }

  /** Searches for the next match and, if there is one, cuts it out.  A hit that does not fit is the
      remainder. */
  method RemoveNext(ies: array<byte>, start: nat, len: nat, eid: byte, oui: Option<seq<byte>>, ghost fixed: seq<byte>,
                    ghost front: seq<Ie>, ghost rest: seq<Ie>, ghost tail: seq<byte>, ghost es: seq<Ie>)
    returns (found: bool, target: nat, ielen: nat, ghost k: nat)
    requires Removing(ies[..], fixed, start, len, front, rest, tail, es, eid, oui)
    modifies ies
    ensures found ==> start <= target && 2 <= ielen
    ensures len <= ies.Length && ies[len..] == old(ies[len..])
    ensures !(found && target + ielen <= len) ==>
              ies[..] == old(ies[..]) && NoMatch(rest, eid, oui) && (found <==> TailHits(tail, eid, oui))
    ensures found && target + ielen <= len ==>
              && k < |rest|
              && Removing(ies[..], fixed, target, len - ielen, front + rest[..k], rest[k + 1..], tail, es, eid, oui)
  {
    hide Print, At, Without, Printable, Matches, NoMatch, FirstMatch, TailHits, Laid;
    ghost var b := ies[..];
    RemovingLaid(b, fixed, start, len, front, rest, tail, es, eid, oui);
    found, target, ielen, k := FindMatch(ies, start, len, eid, oui, rest, tail);
    if found && target + ielen <= len {
      CloseGap(ies, target, ielen, len);
      Behind(b, ies[..], len - ielen, len);
      CutMatch(b, fixed, start, len, front, rest, tail, es, eid, oui, k, ies[..]);
    }
  }

  lemma RemovingLaid(b: seq<byte>, fixed: seq<byte>, start: nat, len: nat, front: seq<Ie>, rest: seq<Ie>,
                     tail: seq<byte>, es: seq<Ie>, eid: byte, oui: Option<seq<byte>>)
    requires Removing(b, fixed, start, len, front, rest, tail, es, eid, oui)
    ensures start <= len <= |b|
  {
  }

  /** rtw_get_ie_ex on elements and a remainder: a hit that fits is the first match, one that does not the
      remainder. */
  method FindMatch(ies: array<byte>, start: nat, end: nat, eid: byte, oui: Option<seq<byte>>,
                   ghost es: seq<Ie>, ghost tail: seq<byte>)
    returns (found: bool, pos: nat, ielen: nat, ghost k: nat)
    requires start <= end && Laid(ies[..], start, end, es, tail, eid, oui)
    ensures found ==> start <= pos && 2 <= ielen
    ensures found && pos + ielen <= end ==>
              && FirstMatch(es, eid, oui, k) && k < |es| && Printable(es)
              && pos == start + At(es, k) && ielen == 2 + |es[k].data|
    ensures !(found && pos + ielen <= end) ==> NoMatch(es, eid, oui) && (found <==> TailHits(tail, eid, oui))
  {
    hide Print, At, LongEnough, TailLongEnough, TailHits, Broken, Matches, NoMatch, FirstMatch;
    hide Stop, Stops, Whole, HitAt, FirstHit, NoHit, Searchable;
    ghost var b := ies[..];
    ExactHits(b, start, end, es, tail, eid, oui);
    found, pos, ielen, k := GetIeEx(ies, start, end - start, eid, oui);
    if found {
      FoundMatch(b, start, end, es, tail, eid, oui, k);
    }
  }

  /** rtw_ies_remove_ie, on any bytes: from `offset` on, every matching element goes, and every other
      stays, as does the remainder.  If a search hits the remainder, the source goes on to move up a
      negative number of bytes; the model stops there and says so. */
  method RemoveIe(ies: array<byte>, len0: nat, offset: nat, eid: byte, oui: Option<seq<byte>>)
    returns (removed: bool, len: nat, overrun: bool)
    requires len0 <= ies.Length && len0 <= MAX_IE_SZ
    requires offset < len0 ==>
               var es, tail := Whole(ies[offset..len0]), Remainder(ies[offset..len0]);
               LongEnough(es, eid, oui) && TailLongEnough(tail, eid, oui) && (|tail| == 1 ==> len0 < ies.Length)
    modifies ies
    ensures len0 <= offset ==> !removed && !overrun && len == len0 && ies[..] == old(ies[..])
    ensures offset < len0 ==>
              var es, tail := Whole(old(ies[offset..len0])), Remainder(old(ies[offset..len0]));
              var kept := Without(es, eid, oui);
              && Printable(kept) && len <= ies.Length
              && ies[..len] == old(ies[..offset]) + Print(kept) + tail && ies[len0..] == old(ies[len0..])
              && (removed <==> kept != es) && (overrun <==> TailHits(tail, eid, oui))
  {
    hide Print, LongEnough, TailLongEnough, TailHits, Without;
    removed, len, overrun := false, len0, false;
    if len <= offset {
      return;
    }
    ghost var es, tail := Whole(ies[offset..len0]), Remainder(ies[offset..len0]);
    Splits(ies[offset..len0]);
    assert ies[..][offset..len0] == ies[offset..len0];
    removed, len, overrun := RemoveAll(ies, len0, offset, eid, oui, es, tail);
  }

  lemma Behind(b: seq<byte>, b2: seq<byte>, lo: nat, hi: nat)
    requires lo <= hi <= |b| == |b2| && b2[lo..] == b[lo..]
    ensures b2[hi..] == b[hi..]
  {
    assert b2[hi..] == b2[lo..][hi - lo..] && b[hi..] == b[lo..][hi - lo..];
  }

  /** The loop. */
  method RemoveAll(ies: array<byte>, len0: nat, offset: nat, eid: byte, oui: Option<seq<byte>>,
                   ghost es: seq<Ie>, ghost tail: seq<byte>)
    returns (removed: bool, len: nat, overrun: bool)
    requires offset < len0 <= ies.Length && Laid(ies[..], offset, len0, es, tail, eid, oui)
    modifies ies
    ensures
      var kept := Without(es, eid, oui);
      && Printable(kept) && len <= ies.Length
      && ies[..len] == old(ies[..offset]) + Print(kept) + tail && ies[len0..] == old(ies[len0..])
      && (removed <==> kept != es) && (overrun <==> TailHits(tail, eid, oui))
  {
    hide *;
    removed, len, overrun := false, len0, false;
    ghost var fixed, behind := ies[..offset], ies[len0..];
    var start: nat, searchLen: nat := offset, len - offset;
    ghost var front: seq<Ie>, rest := [], es;
    StartRemoving(ies[..], offset, len, es, tail, eid, oui);
    assert ies[..][..offset] == fixed;
    while true
      invariant start + searchLen == len <= len0
      invariant Removing(ies[..], fixed, start, len, front, rest, tail, es, eid, oui)
      invariant if removed then |front| + |rest| < |es| else front == [] && rest == es
      invariant ies[len0..] == behind
      decreases searchLen
    {
      ghost var b := ies[..];
      var found, target, ielen, k := RemoveNext(ies, start, len, eid, oui, fixed, front, rest, tail, es);
      Behind(b, ies[..], len, len0);
      if !found {
        break;
      }
      if target + ielen > len {
        overrun := true;
        break;
      }
      searchLen := searchLen - (target + ielen - start);
      len := len - ielen;
      start := target;
      removed := true;
      front, rest := front + rest[..k], rest[k + 1..];
    }
    FinishRemoving(ies[..], fixed, start, len, front, rest, tail, es, eid, oui);
  }

  // ---------------------------------------------------------------------------
  // Building and searching
  // ---------------------------------------------------------------------------

  /** rtw_get_ie on whole elements: the first one with that identifier. */
  method FindId(buf: seq<byte>, index: byte, ghost es: seq<Ie>) returns (found: bool, pos: nat, len: nat, ghost k: nat)
    requires Printable(es) && Print(es) == buf
    ensures !found ==> forall e <- es :: e.id != index
    ensures found ==> k < |es| && es[k].id == index && forall j :: 0 <= j < k ==> es[j].id != index
    ensures found ==> pos == At(es, k) && len == |es[k].data| && pos + 2 + len <= |buf|
                      && buf[pos + 2..pos + 2 + len] == es[k].data
  {
    hide Print, At, Printable, Stop, Stops, Whole, HitAt, FirstHit, NoHit, Searchable;
    assert buf[0..|buf|] == buf && Print(es) + [] == Print(es);
    ExactHits(buf, 0, |buf|, es, [], index, None);
    if es != [] {
      LocateIn(buf, 0, |buf|, es, 0);
    }
    found, pos, len, k := GetIe(buf, index as int, |buf|);
    if found {
      FoundMatch(buf, 0, |buf|, es, [], index, None, k);
      LocateIn(buf, 0, |buf|, es, k);
    }
  }

  /** What has been built element by element is found again: the first element with an identifier, with
      the data it was given. */
  method BuildAndFind(buf: array<byte>, es: seq<Ie>, index: byte)
    returns (found: bool, pos: nat, len: nat, ghost k: nat)
    requires Printable(es) && |Print(es)| <= buf.Length
    modifies buf
    ensures !found ==> forall e <- es :: e.id != index
    ensures found ==> k < |es| && es[k].id == index && forall j :: 0 <= j < k ==> es[j].id != index
    ensures found ==> len == |es[k].data| && pos + 2 + len <= buf.Length && buf[pos + 2..pos + 2 + len] == es[k].data
  {
    hide *;
    var built := SetIes(buf, es);
    found, pos, len, k := FindId(buf[..built], index, es);
    if found {
      Slice(buf[..], 0, built, pos + 2, pos + 2 + len);
    }
  }
}
