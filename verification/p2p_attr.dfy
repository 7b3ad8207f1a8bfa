/**
  P2P attributes: identifier, little-endian 16-bit length and data, one after another inside a
  vendor specific element.  Removing one edits two levels of lengths in place
  (core/rtw_ieee80211.c).
 */
module P2pAttr {
  import opened Bytes
  import opened Tlv

  const VENDOR_SPECIFIC_IE: byte := 0xDD
  const P2P_OUI: seq<byte> := [0x50, 0x6F, 0x9A, 0x09]
  const FIXED_IE_LENGTH := 12
  const HEADER := 6

  datatype Attr = Attr(id: byte, data: seq<byte>)

  /** The size of an attribute is computed in 16 bits. */
  ghost predicate Attributes(attrs: seq<Attr>) {
    forall x <- attrs :: |x.data| + 3 < 0x10000
  }

  function PrintAttr(x: Attr): (b: seq<byte>)
    requires |x.data| + 3 < 0x10000
    ensures |b| == 3 + |x.data| && b[0] == x.id && b[1] as int + 256 * b[2] as int == |x.data|
  {
    [x.id, |x.data| % 256, |x.data| / 256] + x.data
  }

  ghost function PrintAttrs(attrs: seq<Attr>): seq<byte>
    requires Attributes(attrs)
  {
    if attrs == [] then [] else PrintAttr(attrs[0]) + PrintAttrs(attrs[1..])
  }

  function WithoutAttr(attrs: seq<Attr>, id: byte): (r: seq<Attr>)
    ensures |r| <= |attrs|
  {
    if attrs == [] then []
    else (if attrs[0].id == id then [] else [attrs[0]]) + WithoutAttr(attrs[1..], id)
  }

  lemma AttrsCons(x: Attr, rest: seq<Attr>)
    requires Attributes(rest) && |x.data| + 3 < 0x10000
    ensures Attributes([x] + rest) && PrintAttrs([x] + rest) == PrintAttr(x) + PrintAttrs(rest)
  {
    assert ([x] + rest)[1..] == rest;
  }

  lemma {:induction false} AttrsAppend(a: seq<Attr>, b: seq<Attr>)
    requires Attributes(a) && Attributes(b)
    ensures Attributes(a + b) && PrintAttrs(a + b) == PrintAttrs(a) + PrintAttrs(b)
  {
    hide *;
    NoAttrs();
    if a == [] {
      assert a + b == b && [] + PrintAttrs(b) == PrintAttrs(b);
    } else {
      var rest := a[1..];
      FirstAttr(a);
      AttrsAppend(rest, b);
      AttrsCons(a[0], rest + b);
      Associates([a[0]], rest, b);
      Associates(PrintAttr(a[0]), PrintAttrs(rest), PrintAttrs(b));
      assert [a[0]] + rest == a;
    }
  }

  lemma NoAttrs()
    ensures Attributes([]) && PrintAttrs([]) == []
  {
  }

  lemma FirstAttr(attrs: seq<Attr>)
    requires Attributes(attrs) && attrs != []
    ensures |attrs[0].data| + 3 < 0x10000 && Attributes(attrs[1..])
    ensures PrintAttrs(attrs) == PrintAttr(attrs[0]) + PrintAttrs(attrs[1..])
  {
  }

  lemma WithoutCons(x: Attr, rest: seq<Attr>, id: byte)
    ensures WithoutAttr([x] + rest, id) == (if x.id == id then [] else [x]) + WithoutAttr(rest, id)
  {
    assert ([x] + rest)[1..] == rest;
  }

  lemma NothingLeftOut(id: byte)
    ensures WithoutAttr([], id) == []
  {
  }

  lemma {:induction false} WithoutAppends(a: seq<Attr>, b: seq<Attr>, id: byte)
    ensures WithoutAttr(a + b, id) == WithoutAttr(a, id) + WithoutAttr(b, id)
  {
    hide WithoutAttr;
    if a == [] {
      NothingLeftOut(id);
      assert a + b == b && [] + WithoutAttr(b, id) == WithoutAttr(b, id);
    } else {
      var rest := a[1..];
      WithoutAppends(rest, b, id);
      WithoutCons(a[0], rest, id);
      WithoutCons(a[0], rest + b, id);
      assert [a[0]] + rest == a && [a[0]] + (rest + b) == a + b;
      Associates(if a[0].id == id then [] else [a[0]], WithoutAttr(rest, id), WithoutAttr(b, id));
    }
  }

  /** Cutting a match out does not change what is left of the others. */
  lemma WithoutCut(front: seq<Attr>, rest: seq<Attr>, id: byte)
    requires rest != [] && rest[0].id == id
    ensures WithoutAttr(front + rest[1..], id) == WithoutAttr(front + rest, id)
  {
    hide WithoutAttr;
    WithoutAppends(front, rest, id);
    WithoutAppends(front, rest[1..], id);
    WithoutCons(rest[0], rest[1..], id);
    assert [rest[0]] + rest[1..] == rest;
  }

  lemma {:induction false} WithoutAbsent(attrs: seq<Attr>, id: byte)
    requires forall x <- attrs :: x.id != id
    ensures WithoutAttr(attrs, id) == attrs
  {
    if attrs != [] {
      WithoutAbsent(attrs[1..], id);
    }
  }

  /** The P2P element of `ielen` bytes at `at` holds exactly these attributes. */
  ghost predicate Holds(b: seq<byte>, at: nat, ielen: nat, attrs: seq<Attr>) {
    && Attributes(attrs) && ielen == HEADER + |PrintAttrs(attrs)| && ielen - 2 < 256 && at + ielen <= |b|
    && b[at] == VENDOR_SPECIFIC_IE && b[at + 1] == ielen - 2 && b[at + 2..at + HEADER] == P2P_OUI
    && b[at + HEADER..at + ielen] == PrintAttrs(attrs)
  }

  function P2pIe(attrs: seq<byte>): Ie {
    Ie(VENDOR_SPECIFIC_IE, P2P_OUI + attrs)
  }

  lemma HoldsPrints(b: seq<byte>, at: nat, ielen: nat, attrs: seq<Attr>)
    requires at + ielen <= |b| && Attributes(attrs)
    ensures Holds(b, at, ielen, attrs) <==>
            |P2pIe(PrintAttrs(attrs)).data| < 256 && b[at..at + ielen] == PrintOne(P2pIe(PrintAttrs(attrs)))
  {
    hide PrintAttrs;
    var p := PrintAttrs(attrs);
    if Holds(b, at, ielen, attrs) {
      assert b[at..at + ielen] == [b[at], b[at + 1]] + b[at + 2..at + HEADER] + b[at + HEADER..at + ielen];
    }
    if |P2pIe(p).data| < 256 && b[at..at + ielen] == PrintOne(P2pIe(p)) {
      var one := PrintOne(P2pIe(p));
      assert |one| == HEADER + |p| == ielen;
      Slice(b, at, at + ielen, 2, HEADER);
      Slice(b, at, at + ielen, HEADER, ielen);
      assert one[2..HEADER] == P2P_OUI && one[HEADER..ielen] == p;
      assert b[at] == one[0] && b[at + 1] == one[1];
    }
  }

  /** A search of the attributes stands in front of `rest`; none behind it matches. */
  ghost predicate Searched(b: seq<byte>, at: nat, ielen: nat, attrs: seq<Attr>, id: byte,
                           pos: nat, front: seq<Attr>, rest: seq<Attr>)
  {
    && Attributes(front) && Attributes(rest) && attrs == front + rest
    && at + HEADER <= pos <= at + ielen <= |b|
    && b[at + HEADER..pos] == PrintAttrs(front) && b[pos..at + ielen] == PrintAttrs(rest)
    && forall x <- front :: x.id != id
  }

  lemma NextAttr(b: seq<byte>, pos: nat, end: nat, rest: seq<Attr>)
    requires pos < end <= |b| && Attributes(rest) && b[pos..end] == PrintAttrs(rest)
    ensures rest != [] && b[pos] == rest[0].id && pos + 3 + |rest[0].data| <= end
    ensures b[pos + 1] as int + 256 * b[pos + 2] as int == |rest[0].data|
    ensures b[pos..pos + 3 + |rest[0].data|] == PrintAttr(rest[0])
    ensures b[pos + 3 + |rest[0].data|..end] == PrintAttrs(rest[1..])
  {
    assert |b[pos..end]| > 0;
    var one, n := PrintAttr(rest[0]), 3 + |rest[0].data|;
    var p := PrintAttrs(rest);
    assert p == one + PrintAttrs(rest[1..]);
    hide PrintAttr, PrintAttrs;
    Slice(b, pos, end, 0, n);
    Slice(b, pos, end, n, end - pos);
    assert p[0..n] == one && p[n..end - pos] == PrintAttrs(rest[1..]);
    assert b[pos] == p[0] && b[pos + 1] == p[1] && b[pos + 2] == p[2];
  }

  lemma AttrsSnoc(front: seq<Attr>, x: Attr)
    requires Attributes(front) && |x.data| + 3 < 0x10000
    ensures Attributes(front + [x]) && PrintAttrs(front + [x]) == PrintAttrs(front) + PrintAttr(x)
  {
    AttrsCons(x, []);
    AttrsAppend(front, [x]);
    hide PrintAttr;
    assert [x] + [] == [x] && PrintAttrs([]) == [];
  }

  lemma SearchStep(b: seq<byte>, at: nat, ielen: nat, attrs: seq<Attr>, id: byte,
                   pos: nat, front: seq<Attr>, rest: seq<Attr>)
    requires Searched(b, at, ielen, attrs, id, pos, front, rest) && pos < at + ielen
    requires rest != [] && rest[0].id != id
    ensures Searched(b, at, ielen, attrs, id, pos + 3 + |rest[0].data|, front + [rest[0]], rest[1..])
  {
    hide PrintAttr, PrintAttrs;
    NextAttr(b, pos, at + ielen, rest);
    AttrsSnoc(front, rest[0]);
    var next := pos + 3 + |rest[0].data|;
    assert b[at + HEADER..next] == b[at + HEADER..pos] + b[pos..next];
    assert front + rest == front + [rest[0]] + rest[1..];
  }

  // ---------------------------------------------------------------------------
  // The search, on any bytes
  // ---------------------------------------------------------------------------

  /** The element at `at` starts as a P2P element does. */
  predicate IsP2p(b: seq<byte>, at: nat) {
    at + HEADER <= |b| && b[at] == VENDOR_SPECIFIC_IE && b[at + 2..at + HEADER] == P2P_OUI
  }

  function DataLen(b: seq<byte>, pos: nat): nat
    requires pos + 3 <= |b|
  {
    b[pos + 1] as nat + 256 * b[pos + 2] as nat
  }

  /** The size of the attribute at `pos`, a u16 in the source.  What it is past the memory is never asked. */
  function AttrLen(b: seq<byte>, pos: nat): nat {
    if pos + 3 <= |b| then (DataLen(b, pos) + 3) % 0x10000 else 3
  }

  predicate Arrived(b: seq<byte>, end: nat, target: byte, pos: nat)
    requires end <= |b|
  {
    pos >= end || b[pos] == target
  }

  /** Where the search is after `n` rounds from `pos`. */
  function After(b: seq<byte>, end: nat, target: byte, pos: nat, n: nat): nat
    requires end <= |b|
  {
    if n == 0 then pos
    else
      var p := After(b, end, target, pos, n - 1);
      if Arrived(b, end, target, p) then p else p + AttrLen(b, p)
  }

  /** Every attribute it comes to can be read. */
  ghost predicate AttrsReadable(b: seq<byte>, end: nat, target: byte, pos: nat)
    requires end <= |b|
  {
    forall n: nat :: After(b, end, target, pos, n) < end ==> After(b, end, target, pos, n) + 3 <= |b|
  }

  /** It comes to an attribute of another identifier whose length field is 0xFFFD. */
  predicate StallsAt(b: seq<byte>, end: nat, target: byte, p: nat)
    requires end <= |b|
  {
    !Arrived(b, end, target, p) && p + 3 <= |b| && DataLen(b, p) == 0xFFFD
  }

  ghost predicate Stalls(b: seq<byte>, end: nat, target: byte, pos: nat)
    requires end <= |b|
  {
    exists n: nat :: StallsAt(b, end, target, After(b, end, target, pos, n))
  }

  lemma MovesOn(b: seq<byte>, end: nat, target: byte, p: nat)
    requires end <= |b| && !Arrived(b, end, target, p)
    ensures AttrLen(b, p) == 0 <==> StallsAt(b, end, target, p)
  {
  }

  lemma {:induction false} Stays(b: seq<byte>, end: nat, target: byte, pos: nat, n: nat, m: nat)
    requires end <= |b| && n <= m
    requires
      var p := After(b, end, target, pos, n);
      Arrived(b, end, target, p) || AttrLen(b, p) == 0
    ensures After(b, end, target, pos, m) == After(b, end, target, pos, n)
  {
    hide AttrLen, Arrived;
    if n < m {
      Stays(b, end, target, pos, n, m - 1);
    }
  }

  lemma {:induction false} Proceeds(b: seq<byte>, end: nat, target: byte, pos: nat, n: nat)
    requires end <= |b| && !Stalls(b, end, target, pos)
    ensures Arrived(b, end, target, After(b, end, target, pos, n)) || After(b, end, target, pos, n) >= pos + n
  {
    hide AttrLen, Arrived, StallsAt;
    if n > 0 {
      Proceeds(b, end, target, pos, n - 1);
      var p := After(b, end, target, pos, n - 1);
      if !Arrived(b, end, target, p) {
        MovesOn(b, end, target, p);
      }
    }
  }

  /** The search comes to an end if and only if it never comes to another attribute whose length field is
      0xFFFD, which makes its size 0. */
  lemma SearchEndsExactly(b: seq<byte>, end: nat, target: byte, pos: nat)
    requires end <= |b|
    ensures (exists n: nat :: Arrived(b, end, target, After(b, end, target, pos, n)))
            <==> !Stalls(b, end, target, pos)
  {
    hide After, AttrLen, StallsAt;
    if !Stalls(b, end, target, pos) {
      Proceeds(b, end, target, pos, end);
      assert Arrived(b, end, target, After(b, end, target, pos, end));
    } else {
      var n: nat :| StallsAt(b, end, target, After(b, end, target, pos, n));
      StalledIs(b, end, target, After(b, end, target, pos, n));
      MovesOn(b, end, target, After(b, end, target, pos, n));
      forall m: nat ensures !Arrived(b, end, target, After(b, end, target, pos, m)) {
        if n <= m {
          Stays(b, end, target, pos, n, m);
        } else if Arrived(b, end, target, After(b, end, target, pos, m)) {
          Stays(b, end, target, pos, m, n);
        }
      }
    }
  }

  lemma StalledIs(b: seq<byte>, end: nat, target: byte, p: nat)
    requires end <= |b| && StallsAt(b, end, target, p)
    ensures !Arrived(b, end, target, p)
  {
  }

  /** rtw_get_p2p_attr, on any bytes on which it comes to an end: where it stops is the attribute, if that
      is inside the element. */
  method GetP2pAttr(ie: array<byte>, at: nat, ielen: nat, target: byte)
    returns (found: bool, pos: nat, len: nat, ghost n: nat)
    requires at + HEADER <= ie.Length && at + ielen <= ie.Length
    requires IsP2p(ie[..], at) ==>
               && AttrsReadable(ie[..], at + ielen, target, at + HEADER)
               && !Stalls(ie[..], at + ielen, target, at + HEADER)
    ensures !IsP2p(ie[..], at) ==> !found
    ensures IsP2p(ie[..], at) ==>
              && pos == After(ie[..], at + ielen, target, at + HEADER, n) && Arrived(ie[..], at + ielen, target, pos)
              && (found <==> pos < at + ielen)
    ensures found ==> ie[pos] == target && pos + 3 <= ie.Length && len == AttrLen(ie[..], pos)
  {
    hide After, Arrived, AttrLen, AttrsReadable, StallsAt, Stalls, IsP2p;
    ghost var b, end := ie[..], at + ielen;
    found, pos, len, n := false, at + HEADER, 0, 0;
    var oui: seq<byte> := P2P_OUI;
    HeaderIs(b, at);
    assert b[at + 2..at + HEADER] == ie[at + 2..at + HEADER];
    if ie[at] != VENDOR_SPECIFIC_IE || ie[at + 2..at + HEADER] != oui {
      return;
    }
    AfterNone(b, end, target, at + HEADER);
    while pos < at + ielen
      invariant pos == After(b, end, target, at + HEADER, n)
      decreases at + ielen - pos
    {
      Round(b, end, target, at + HEADER, n);
      var attrLen := (ie[pos + 1] as nat + 256 * ie[pos + 2] as nat + 3) % 0x10000;
      if ie[pos] == target {
        return true, pos, attrLen, n;
      }
      pos := pos + attrLen;
      n := n + 1;
    }
    PastEnd(b, end, target, pos);
  }

  lemma HeaderIs(b: seq<byte>, at: nat)
    requires at + HEADER <= |b|
    ensures IsP2p(b, at) <==> b[at] == VENDOR_SPECIFIC_IE && b[at + 2..at + HEADER] == P2P_OUI
  {
  }

  lemma AfterNone(b: seq<byte>, end: nat, target: byte, pos: nat)
    requires end <= |b|
    ensures After(b, end, target, pos, 0) == pos
  {
  }

  lemma PastEnd(b: seq<byte>, end: nat, target: byte, pos: nat)
    requires end <= |b| && end <= pos
    ensures Arrived(b, end, target, pos)
  {
  }

  /** One round of the search. */
  lemma Round(b: seq<byte>, end: nat, target: byte, pos: nat, n: nat)
    requires end <= |b| && AttrsReadable(b, end, target, pos) && !Stalls(b, end, target, pos)
    requires After(b, end, target, pos, n) < end
    ensures
      var p := After(b, end, target, pos, n);
      && p + 3 <= |b| && AttrLen(b, p) == (b[p + 1] as nat + 256 * b[p + 2] as nat + 3) % 0x10000
      && (b[p] == target ==> Arrived(b, end, target, p))
      && (b[p] != target ==> AttrLen(b, p) > 0 && After(b, end, target, pos, n + 1) == p + AttrLen(b, p))
  {
    var p := After(b, end, target, pos, n);
    if b[p] != target {
      MovesOn(b, end, target, p);
    }
  }

  // ---------------------------------------------------------------------------
  // The search, on whole attributes
  // ---------------------------------------------------------------------------

  lemma {:induction false} SearchedAfter(b: seq<byte>, at: nat, ielen: nat, attrs: seq<Attr>, id: byte, n: nat)
    returns (front: seq<Attr>, rest: seq<Attr>)
    requires Holds(b, at, ielen, attrs)
    ensures Searched(b, at, ielen, attrs, id, After(b, at + ielen, id, at + HEADER, n), front, rest)
  {
    hide Holds, Searched, AttrLen;
    InElement(b, at, ielen, attrs);
    if n == 0 {
      SearchStart(b, at, ielen, attrs, id);
      front, rest := [], attrs;
    } else {
      front, rest := SearchedAfter(b, at, ielen, attrs, id, n - 1);
      var p := After(b, at + ielen, id, at + HEADER, n - 1);
      if !Arrived(b, at + ielen, id, p) {
        Sized(b, at, ielen, attrs, id, p, front, rest);
        SearchStep(b, at, ielen, attrs, id, p, front, rest);
        front, rest := front + [rest[0]], rest[1..];
      }
    }
  }

  lemma InElement(b: seq<byte>, at: nat, ielen: nat, attrs: seq<Attr>)
    requires Holds(b, at, ielen, attrs)
    ensures at + HEADER <= at + ielen <= |b| && IsP2p(b, at)
  {
  }

  lemma Sized(b: seq<byte>, at: nat, ielen: nat, attrs: seq<Attr>, id: byte,
              pos: nat, front: seq<Attr>, rest: seq<Attr>)
    requires Searched(b, at, ielen, attrs, id, pos, front, rest) && pos < at + ielen
    ensures at + ielen <= |b| && rest != [] && b[pos] == rest[0].id && pos + 3 + |rest[0].data| <= at + ielen
    ensures AttrLen(b, pos) == 3 + |rest[0].data| && DataLen(b, pos) == |rest[0].data| && |rest[0].data| + 3 < 0x10000
  {
    hide PrintAttrs, PrintAttr;
    NextAttr(b, pos, at + ielen, rest);
  }

  lemma AttrsEnd(b: seq<byte>, at: nat, ielen: nat, attrs: seq<Attr>, id: byte)
    requires Holds(b, at, ielen, attrs)
    ensures at + ielen <= |b|
    ensures AttrsReadable(b, at + ielen, id, at + HEADER) && !Stalls(b, at + ielen, id, at + HEADER)
  {
    hide Holds, Searched, AttrLen, After;
    InElement(b, at, ielen, attrs);
    var end, pos := at + ielen, at + HEADER;
    forall n: nat
      ensures After(b, end, id, pos, n) < end ==> After(b, end, id, pos, n) + 3 <= |b|
      ensures !StallsAt(b, end, id, After(b, end, id, pos, n))
    {
      var front, rest := SearchedAfter(b, at, ielen, attrs, id, n);
      var p := After(b, end, id, pos, n);
      if p < end {
        Sized(b, at, ielen, attrs, id, p, front, rest);
      }
    }
  }

  /** rtw_get_p2p_attr: the first attribute with that identifier. */
  method FindAttr(ie: array<byte>, at: nat, ielen: nat, target: byte, ghost attrs: seq<Attr>)
    returns (found: bool, pos: nat, len: nat, ghost front: seq<Attr>, ghost rest: seq<Attr>)
    requires Holds(ie[..], at, ielen, attrs)
    ensures Searched(ie[..], at, ielen, attrs, target, pos, front, rest)
    ensures found ==> rest != [] && rest[0].id == target && len == 3 + |rest[0].data| && pos + len <= at + ielen
    ensures !found ==> rest == []
  {
    hide Holds, Searched, AttrLen, After, Arrived, AttrsReadable, Stalls, IsP2p;
    InElement(ie[..], at, ielen, attrs);
    AttrsEnd(ie[..], at, ielen, attrs, target);
    ghost var n;
    found, pos, len, n := GetP2pAttr(ie, at, ielen, target);
    front, rest := SearchedAfter(ie[..], at, ielen, attrs, target, n);
    if found {
      Sized(ie[..], at, ielen, attrs, target, pos, front, rest);
    } else {
      SearchEnds(ie[..], at, ielen, attrs, target, pos, front, rest);
    }
  }

  lemma SearchStart(b: seq<byte>, at: nat, ielen: nat, attrs: seq<Attr>, id: byte)
    requires Holds(b, at, ielen, attrs)
    ensures Searched(b, at, ielen, attrs, id, at + HEADER, [], attrs)
  {
  }

  lemma SearchEnds(b: seq<byte>, at: nat, ielen: nat, attrs: seq<Attr>, id: byte,
                   pos: nat, front: seq<Attr>, rest: seq<Attr>)
    requires Searched(b, at, ielen, attrs, id, pos, front, rest) && pos >= at + ielen
    ensures rest == []
  {
    hide PrintAttr;
    assert b[pos..at + ielen] == [];
  }

  /** What cutting attribute rest[0], `len` bytes at `pos`, out of a P2P element leaves. */
  lemma CutAttr(b: seq<byte>, at: nat, ielen: nat, attrs: seq<Attr>, id: byte,
                pos: nat, front: seq<Attr>, rest: seq<Attr>, b2: seq<byte>)
    requires Holds(b, at, ielen, attrs) && Searched(b, at, ielen, attrs, id, pos, front, rest)
    requires rest != [] && rest[0].id == id && |b2| == |b|
    requires
      var len := 3 + |rest[0].data|;
      && pos + len <= at + ielen && b2[at] == b[at] && b2[at + 1] == b[at + 1] as int - len
      && b2[at + 2..pos] == b[at + 2..pos] && b2[pos..at + ielen - len] == b[pos + len..at + ielen]
    ensures Holds(b2, at, ielen - (3 + |rest[0].data|), front + rest[1..])
  {
    hide PrintAttr, PrintAttrs;
    var len := 3 + |rest[0].data|;
    var end := at + ielen - len;
    NextAttr(b, pos, at + ielen, rest);
    AttrsAppend(front, rest[1..]);
    SameHead(b, b2, at + 2, pos);
    assert b2[at + HEADER..end] == b2[at + HEADER..pos] + b2[pos..end];
  }

  lemma SameHead(b: seq<byte>, b2: seq<byte>, from: nat, to: nat)
    requires from + 4 <= to <= |b| == |b2| && b2[from..to] == b[from..to]
    ensures b2[from..from + 4] == b[from..from + 4] && b2[from + 4..to] == b[from + 4..to]
  {
    Slice(b, from, to, 0, 4);
    Slice(b2, from, to, 0, 4);
    Slice(b, from, to, 4, to - from);
    Slice(b2, from, to, 4, to - from);
  }

  /** The memory operations of one removal. */
  method CutBytes(ie: array<byte>, at: nat, ielen: nat, pos: nat, len: nat)
    requires at + HEADER <= pos && 3 <= len && pos + len <= at + ielen <= ie.Length && len <= ie[at + 1]
    modifies ie
    ensures ie[..at] == old(ie[..at]) && ie[at + ielen..] == old(ie[at + ielen..])
    ensures ie[at] == old(ie[at]) && ie[at + 1] == old(ie[at + 1]) as int - len
    ensures ie[at + 2..pos] == old(ie[at + 2..pos])
    ensures ie[pos..at + ielen - len] == old(ie[pos + len..at + ielen])
    ensures ie[at + ielen - len..at + ielen] == Zeros(len)
  {
    ghost var b := ie[..];
    Squeeze(ie, pos, len, at + ielen);
    ghost var b2 := ie[..];
    LengthSet(b, b2, at, pos, b2[at + 1] as int - len);
    ie[at + 1] := ie[at + 1] as int - len;
    assert ie[..] == b2[at + 1 := b2[at + 1] as int - len];
    Behind(b2, at + 1, b2[at + 1] as int - len, pos, at + ielen - len);
    Behind(b2, at + 1, b2[at + 1] as int - len, at + ielen - len, at + ielen);
    Behind(b2, at + 1, b2[at + 1] as int - len, at + ielen, |b2|);
  }

  /** The attribute at `pos` cleared, what follows moved over it, and the freed bytes cleared. */
  method Squeeze(ie: array<byte>, pos: nat, len: nat, end: nat)
    requires 0 < len && pos + len <= end <= ie.Length
    modifies ie
    ensures ie[..pos] == old(ie[..pos]) && ie[end..] == old(ie[end..])
    ensures ie[pos..end - len] == old(ie[pos + len..end])
    ensures ie[end - len..end] == Zeros(len)
  {
    hide *;
    var next := pos + len;
    var remain := end - next;
    ghost var b := ie[..];
    Zero(ie, pos, next);
    ghost var b1 := ie[..];
    CloseGap(ie, pos, len, end);
    ghost var b2 := ie[..];
    Later(b1, b2, end - len, end);
    Zero(ie, pos + remain, pos + remain + len);
    Moved(b, b1, ie[..], pos, len, end);
  }

  /** Setting one byte changes nothing behind it. */
  lemma Behind(b: seq<byte>, k: nat, x: byte, lo: nat, hi: nat)
    requires k < lo <= hi <= |b|
    ensures b[k := x][lo..hi] == b[lo..hi] && b[k := x][lo..] == b[lo..]
  {
  }

  /** The length byte set, in front of `pos` as before. */
  lemma LengthSet(b: seq<byte>, b2: seq<byte>, at: nat, pos: nat, x: byte)
    requires at + HEADER <= pos <= |b| == |b2| && b2[..pos] == b[..pos]
    ensures
      var b3 := b2[at + 1 := x];
      && b2[at] == b[at] && b2[at + 1] == b[at + 1]
      && b3[..at] == b[..at] && b3[at] == b[at] && b3[at + 1] == x && b3[at + 2..pos] == b[at + 2..pos]
  {
    forall k | 0 <= k < pos ensures b2[k] == b[k] {
      assert b2[..pos][k] == b[..pos][k];
    }
  }

  lemma Moved(b: seq<byte>, b1: seq<byte>, b2: seq<byte>, pos: nat, len: nat, end: nat)
    requires pos + len <= end <= |b| == |b1| == |b2|
    requires b1[..pos] == b[..pos] && b1[pos + len..] == b[pos + len..]
    requires b2[..end - len] == b1[..pos] + b1[pos + len..end] && b2[end..] == b1[end..]
    ensures b2[..pos] == b[..pos] && b2[pos..end - len] == b[pos + len..end] && b2[end..] == b[end..]
  {
    assert forall k :: 0 <= k < pos ==> b2[k] == b2[..end - len][k];
    assert forall k :: pos <= k < end - len ==> b2[k] == b2[..end - len][k];
    assert b1[pos + len..end] == b1[pos + len..][..end - pos - len];
    assert b1[end..] == b1[pos + len..][end - pos - len..];
    assert b[end..] == b[pos + len..][end - pos - len..];
  }

  /** Some removals done: `cur` is left of the attributes, the bytes behind them are cleared. */
  ghost predicate Cutting(was: seq<byte>, b: seq<byte>, at: nat, ielenOri: nat, ielen: nat,
                          attrs: seq<Attr>, cur: seq<Attr>, id: byte)
  {
    && ielen <= ielenOri && at + ielenOri <= |b| == |was| && Holds(b, at, ielen, cur)
    && WithoutAttr(cur, id) == WithoutAttr(attrs, id)
    && b[..at] == was[..at] && b[at + ielenOri..] == was[at + ielenOri..]
    && b[at + ielen..at + ielenOri] == Zeros(ielenOri - ielen)
    && (ielen == ielenOri ==> b == was)
  }

  lemma CutMore(was: seq<byte>, b: seq<byte>, b2: seq<byte>, at: nat, ielenOri: nat, ielen: nat, len: nat,
                attrs: seq<Attr>, cur: seq<Attr>, left: seq<Attr>, id: byte)
    requires Cutting(was, b, at, ielenOri, ielen, attrs, cur, id)
    requires 0 < len <= ielen && |b2| == |b| && Holds(b2, at, ielen - len, left)
    requires WithoutAttr(left, id) == WithoutAttr(cur, id)
    requires b2[..at] == b[..at] && b2[at + ielen..] == b[at + ielen..]
    requires b2[at + ielen - len..at + ielen] == Zeros(len)
    ensures Cutting(was, b2, at, ielenOri, ielen - len, attrs, left, id)
  {
    hide Holds, WithoutAttr;
    Slice(b, at + ielen, |b|, 0, ielenOri - ielen);
    Slice(b2, at + ielen, |b|, 0, ielenOri - ielen);
    Slice(b, at + ielen, |b|, ielenOri - ielen, |b| - (at + ielen));
    Slice(b2, at + ielen, |b|, ielenOri - ielen, |b| - (at + ielen));
    assert b[at + ielen..|b|] == b[at + ielen..] == b2[at + ielen..] == b2[at + ielen..|b|];
    assert b[at + ielenOri..|b|] == b[at + ielenOri..] && b2[at + ielenOri..|b|] == b2[at + ielenOri..];
    assert Zeros(len) + Zeros(ielenOri - ielen) == Zeros(ielenOri - (ielen - len));
    assert b2[at + ielen - len..at + ielenOri]
        == b2[at + ielen - len..at + ielen] + b2[at + ielen..at + ielenOri];
  }

  lemma NothingLeft(was: seq<byte>, b: seq<byte>, at: nat, ielenOri: nat, ielen: nat,
                    attrs: seq<Attr>, cur: seq<Attr>, id: byte, pos: nat)
    requires Cutting(was, b, at, ielenOri, ielen, attrs, cur, id)
    requires Searched(b, at, ielen, cur, id, pos, cur, [])
    ensures Cutting(was, b, at, ielenOri, ielen, attrs, WithoutAttr(attrs, id), id)
    ensures cur == WithoutAttr(attrs, id)
  {
    WithoutAbsent(cur, id);
    hide WithoutAttr, PrintAttrs;
  }

  /** rtw_p2p_attr_remove: every attribute with that identifier goes, the others stay in order, the
      length byte follows and the bytes given up are cleared. */
  method P2pAttrRemove(ie: array<byte>, at: nat, ielenOri: nat, attrId: byte, ghost attrs: seq<Attr>)
    returns (ielen: nat)
    requires Holds(ie[..], at, ielenOri, attrs)
    modifies ie
    ensures ielen <= ielenOri && Holds(ie[..], at, ielen, WithoutAttr(attrs, attrId))
    ensures ie[..at] == old(ie[..at]) && ie[at + ielenOri..] == old(ie[at + ielenOri..])
    ensures ie[at + ielen..at + ielenOri] == Zeros(ielenOri - ielen)
    ensures ielen == ielenOri ==> ie[..] == old(ie[..])
  {
    ielen := ielenOri;
    ghost var was, cur := ie[..], attrs;
    while true
      invariant ielen <= ielenOri && Cutting(was, ie[..], at, ielenOri, ielen, attrs, cur, attrId)
      decreases ielen
    {
      hide PrintAttr, PrintAttrs, Holds, WithoutAttr, Searched;
      var more, next, left := RemoveOne(ie, at, ielenOri, ielen, attrId, was, attrs, cur);
      if !more {
        break;
      }
      ielen, cur := next, left;
    }
  }

  /** Looks for an attribute to remove and, if there is one, cuts it out. */
  method RemoveOne(ie: array<byte>, at: nat, ielenOri: nat, ielen: nat, attrId: byte,
                   ghost was: seq<byte>, ghost attrs: seq<Attr>, ghost cur: seq<Attr>)
    returns (more: bool, next: nat, ghost left: seq<Attr>)
    requires Cutting(was, ie[..], at, ielenOri, ielen, attrs, cur, attrId)
    modifies ie
    ensures more ==> next < ielen && Cutting(was, ie[..], at, ielenOri, next, attrs, left, attrId)
    ensures !more ==> next == ielen && ie[..] == old(ie[..]) && cur == WithoutAttr(attrs, attrId)
  {
    hide PrintAttr, PrintAttrs, WithoutAttr;
    ghost var b := ie[..];
    var found, pos, len, front, rest := FindAttr(ie, at, ielen, attrId, cur);
    more, next, left := found, ielen, cur;
    if found {
      left := front + rest[1..];
      next := ielen - len;
      CutBytes(ie, at, ielen, pos, len);
      CutAttr(b, at, ielen, cur, attrId, pos, front, rest, ie[..]);
      WithoutCut(front, rest, attrId);
      CutMore(was, b, ie[..], at, ielenOri, ielen, len, attrs, cur, left, attrId);
    } else {
      assert cur == front + [] == front;
      NothingLeft(was, b, at, ielenOri, ielen, attrs, cur, attrId, pos);
    }
  }

  // ---------------------------------------------------------------------------
  // A whole beacon
  // ---------------------------------------------------------------------------

  ghost predicate FirstP2p(es: seq<Ie>, k: nat) {
    FirstMatch(es, VENDOR_SPECIFIC_IE, Some(P2P_OUI), k)
  }

  ghost predicate NoP2p(es: seq<Ie>) {
    NoMatch(es, VENDOR_SPECIFIC_IE, Some(P2P_OUI))
  }

  /** No P2P element is come upon before the search gives up. */
  ghost predicate NoneWithin(b: seq<byte>, start: nat, end: nat)
    requires start <= end <= |b|
  {
    forall k: nat :: HitAt(b, start, end, VENDOR_SPECIFIC_IE, Some(P2P_OUI), k) ==>
                       Stop(b[start..end], k) > MAX_IE_SZ
  }

  /** rtw_get_p2p_ie on `inLen` bytes from `start`, whatever they are: the first stop that carries
      the OUI, unless the search has come further than MAX_IE_SZ.  A negative length finds nothing. */
  method GetP2pIe(ies: array<byte>, start: nat, inLen: int) returns (found: bool, pos: nat, ielen: nat, ghost k: nat)
    requires 0 <= inLen ==>
               && start + inLen <= ies.Length
               && Searchable(ies[..], start, start + inLen, VENDOR_SPECIFIC_IE, Some(P2P_OUI))
    ensures found ==>
              && 0 <= inLen && FirstHit(ies[..], start, start + inLen, VENDOR_SPECIFIC_IE, Some(P2P_OUI), k)
              && pos == start + Stop(ies[..][start..start + inLen], k) <= start + MAX_IE_SZ
              && pos + 1 < ies.Length && ielen == 2 + ies[pos + 1] as int
    ensures 0 <= inLen && !found ==> NoneWithin(ies[..], start, start + inLen)
  {
    hide Stop, Stops, HitAt, FirstHit, NoHit, NoneWithin, Searchable, Whole;
    var oui: seq<byte> := P2P_OUI;
    found, pos, ielen, k := false, start, 0, 0;
    if inLen < 0 {
      return;
    }
    ghost var b, end := ies[..], start + inLen;
    ghost var w := b[start..end];
    var cnt := 0;
    StopNext(b, start, end, 0);
    while cnt < inLen
      invariant if k <= |Whole(w)| then 0 <= cnt == Stop(w, k) else Stops(w) <= k && inLen <= cnt
      invariant forall j :: 0 <= j < k ==> !HitAt(b, start, end, VENDOR_SPECIFIC_IE, Some(oui), j)
      decreases |Whole(w)| + 1 - k
    {
      var at := start + cnt;
      StopNext(b, start, end, k);
      if cnt > MAX_IE_SZ {
        GivenUp(b, start, end, k);
        return;
      }
      Visit(b, start, end, VENDOR_SPECIFIC_IE, Some(oui), k);
      if ies[at] == VENDOR_SPECIFIC_IE && ies[at + 2..at + 2 + |oui|] == oui {
        return true, at, ies[at + 1] as nat + 2, k;
      }
      cnt := cnt + (ies[at + 1] as nat + 2);
      StopsAre(w, k);
      k := k + 1;
    }
    if k <= |Whole(w)| {
      StopNext(b, start, end, k);
    }
    NoHitLeft(b, start, end, VENDOR_SPECIFIC_IE, Some(oui), k);
    NoHitIsNone(b, start, end);
  }

  /** Beyond a stop further than MAX_IE_SZ there are only such stops. */
  lemma GivenUp(b: seq<byte>, start: nat, end: nat, k: nat)
    requires start <= end <= |b| && k < Stops(b[start..end]) && k <= |Whole(b[start..end])|
    requires Stop(b[start..end], k) > MAX_IE_SZ
    requires forall j :: 0 <= j < k ==> !HitAt(b, start, end, VENDOR_SPECIFIC_IE, Some(P2P_OUI), j)
    ensures NoneWithin(b, start, end)
  {
    hide Stop, Whole, Remainder, Hit;
    forall j: nat | HitAt(b, start, end, VENDOR_SPECIFIC_IE, Some(P2P_OUI), j)
      ensures Stop(b[start..end], j) > MAX_IE_SZ
    {
      StopsGrow(b, start, end, k, j);
    }
  }

  lemma {:induction false} StopsGrow(b: seq<byte>, start: nat, end: nat, k: nat, j: nat)
    requires start <= end <= |b| && k <= j <= |Whole(b[start..end])|
    ensures Stop(b[start..end], k) <= Stop(b[start..end], j)
  {
    hide Stop, Whole, Remainder;
    if k < j {
      StopNext(b, start, end, j - 1);
      StopsGrow(b, start, end, k, j - 1);
    }
  }

  lemma NoHitIsNone(b: seq<byte>, start: nat, end: nat)
    requires start <= end <= |b|
    ensures NoHit(b, start, end, VENDOR_SPECIFIC_IE, Some(P2P_OUI)) ==> NoneWithin(b, start, end)
  {
    hide HitAt;
  }

  lemma NoneIsNoHit(b: seq<byte>, start: nat, end: nat)
    requires start <= end <= |b| && end - start <= MAX_IE_SZ && NoneWithin(b, start, end)
    ensures NoHit(b, start, end, VENDOR_SPECIFIC_IE, Some(P2P_OUI))
  {
    hide Stop, Whole, Remainder, Hit;
    forall k: nat ensures !HitAt(b, start, end, VENDOR_SPECIFIC_IE, Some(P2P_OUI), k) {
      if HitAt(b, start, end, VENDOR_SPECIFIC_IE, Some(P2P_OUI), k) {
        StopNext(b, start, end, k);
      }
    }
  }

  /** The bytes from `start` are these elements and this remainder, which is not taken for the first P2P
      element. */
  ghost predicate Beacon(b: seq<byte>, start: nat, end: nat, es: seq<Ie>, tail: seq<byte>) {
    && Laid(b, start, end, es, tail, VENDOR_SPECIFIC_IE, Some(P2P_OUI))
    && (NoMatch(es, VENDOR_SPECIFIC_IE, Some(P2P_OUI)) ==> !TailHits(tail, VENDOR_SPECIFIC_IE, Some(P2P_OUI)))
  }

  /** rtw_get_p2p_ie on a beacon. */
  method FindP2p(ies: array<byte>, start: nat, inLen: int, ghost es: seq<Ie>, ghost tail: seq<byte>)
    returns (found: bool, pos: nat, ielen: nat, ghost k: nat)
    requires inLen <= MAX_IE_SZ
    requires 0 <= inLen ==> Beacon(ies[..], start, start + inLen, es, tail)
    ensures found ==>
              && 0 <= inLen && FirstP2p(es, k) && k < |es| && Printable(es)
              && pos == start + At(es, k) && ielen == 2 + |es[k].data| && pos + ielen <= start + inLen
    ensures !found ==> inLen < 0 || NoP2p(es)
  {
    hide Print, At, FirstMatch, LongEnough, TailLongEnough, TailHits, Printable, Matches, Broken;
    hide Stop, Stops, HitAt, FirstHit, NoHit, NoneWithin, Searchable, Whole;
    ghost var b := ies[..];
    if 0 <= inLen {
      ExactHits(b, start, start + inLen, es, tail, VENDOR_SPECIFIC_IE, Some(P2P_OUI));
    }
    found, pos, ielen, k := GetP2pIe(ies, start, inLen);
    if found {
      FoundMatch(b, start, start + inLen, es, tail, VENDOR_SPECIFIC_IE, Some(P2P_OUI), k);
    } else if 0 <= inLen {
      NoneIsNoHit(b, start, start + inLen);
    }
  }

  /** The elements of the beacon, the first P2P element's attributes replaced. */
  ghost function WithAttrs(es: seq<Ie>, k: nat, attrs: seq<Attr>): seq<Ie>
    requires k < |es| && Attributes(attrs)
  {
    es[..k] + [P2pIe(PrintAttrs(attrs))] + es[k + 1..]
  }

  lemma PrintWithAttrs(es: seq<Ie>, k: nat, attrs: seq<Attr>)
    requires k < |es| && Printable(es) && Attributes(attrs) && |P2pIe(PrintAttrs(attrs)).data| < 256
    ensures
      var edited := WithAttrs(es, k, attrs);
      && Printable(edited)
      && Print(edited) == Print(es[..k]) + PrintOne(P2pIe(PrintAttrs(attrs))) + Print(es[k + 1..])
  {
    var e := P2pIe(PrintAttrs(attrs));
    hide Print, PrintOne, PrintAttrs;
    PrintSnoc(es[..k], e);
    PrintAppends(es[..k] + [e], es[k + 1..]);
  }

  /** The P2P element of a beacon consists of whole attributes. */
  ghost predicate WellFormed(es: seq<Ie>, attrs: seq<Attr>) {
    Attributes(attrs) && forall k: nat :: FirstP2p(es, k) ==> es[k] == P2pIe(PrintAttrs(attrs))
  }

  lemma HoldsSame(b: seq<byte>, b2: seq<byte>, at: nat, ielen: nat, attrs: seq<Attr>)
    requires Holds(b, at, ielen, attrs) && |b2| == |b| && b2[..at + ielen] == b[..at + ielen]
    ensures Holds(b2, at, ielen, attrs) && b2[..at] == b[..at]
  {
    hide PrintAttrs;
    var n := at + ielen;
    forall lo: nat, hi: nat | lo <= hi <= n ensures b2[lo..hi] == b[lo..hi] {
      assert b2[..n][lo..hi] == b[..n][lo..hi];
    }
    assert b[..n][at] == b[at] && b[..n][at + 1] == b[at + 1];
  }

  /** Closes the gap of `gap` bytes at `next` and clears what is given up at the end. */
  method PullUp(ies: array<byte>, next: nat, gap: nat, ieLength: nat) returns (ieLength': nat)
    requires next + gap <= ieLength <= ies.Length
    modifies ies
    ensures ieLength' == ieLength - gap
    ensures ies[..next] == old(ies[..next]) && ies[ieLength..] == old(ies[ieLength..])
    ensures ies[next..ieLength'] == old(ies[next + gap..ieLength]) && ies[ieLength'..ieLength] == Zeros(gap)
  {
    ghost var b := ies[..];
    CloseGap(ies, next, gap, ieLength);
    Zero(ies, ieLength - gap, ieLength);
    Moved(b, b, ies[..], next, gap, ieLength);
    ieLength' := ieLength - gap;
  }

  /** Removes from one element; the remaining bytes move up behind it. */
  method ShrinkIe(ies: array<byte>, pos: nat, ielenOri: nat, ieLength: nat, attrId: byte, ghost attrs: seq<Attr>)
    returns (ielen: nat, ieLength': nat)
    requires pos + ielenOri <= ieLength <= ies.Length && Holds(ies[..], pos, ielenOri, attrs)
    modifies ies
    ensures pos + ielen <= ieLength' <= ieLength && Holds(ies[..], pos, ielen, WithoutAttr(attrs, attrId))
    ensures ies[..pos] == old(ies[..pos]) && ies[ieLength..] == old(ies[ieLength..])
    ensures ies[pos + ielen..ieLength'] == old(ies[pos + ielenOri..ieLength])
    ensures ies[ieLength'..ieLength] == Zeros(ieLength - ieLength')
  {
    hide Holds, WithoutAttr;
    ghost var was := ies[..];
    ielen := P2pAttrRemove(ies, pos, ielenOri, attrId, attrs);
    ieLength' := ieLength;
    ghost var b := ies[..];
    Later(was, b, pos + ielenOri, ieLength);
    if ielen != ielenOri {
      ieLength' := PullUp(ies, pos + ielen, ielenOri - ielen, ieLength);
      HoldsSame(b, ies[..], pos, ielen, WithoutAttr(attrs, attrId));
    }
  }

  lemma Later(was: seq<byte>, b: seq<byte>, from: nat, mid: nat)
    requires from <= mid <= |b| == |was| && b[from..] == was[from..]
    ensures b[from..mid] == was[from..mid] && b[mid..] == was[mid..]
  {
    assert b[from..][..mid - from] == b[from..mid] && was[from..][..mid - from] == was[from..mid];
    assert b[from..][mid - from..] == b[mid..] && was[from..][mid - from..] == was[mid..];
  }

  /** `b` is the beacon `was` with the attributes of P2P element `k` replaced by `left`. */
  ghost predicate Edited(was: seq<byte>, b: seq<byte>, ieLength: nat, ieLength': nat,
                         es: seq<Ie>, tail: seq<byte>, k: nat, left: seq<Attr>)
  {
    && k < |es| && Attributes(left)
    && var edited := WithAttrs(es, k, left);
    && FIXED_IE_LENGTH <= ieLength' <= ieLength <= |b| == |was|
    && Printable(edited) && b[FIXED_IE_LENGTH..ieLength'] == Print(edited) + tail
    && b[..FIXED_IE_LENGTH] == was[..FIXED_IE_LENGTH] && b[ieLength..] == was[ieLength..]
    && b[ieLength'..ieLength] == Zeros(ieLength - ieLength')
  }

  lemma Assemble(was: seq<byte>, b: seq<byte>, ieLength: nat, ieLength': nat, pos: nat, ielen: nat,
                 es: seq<Ie>, tail: seq<byte>, k: nat, left: seq<Attr>)
    requires k < |es| && Printable(es)
    requires FIXED_IE_LENGTH <= pos && pos + ielen <= ieLength' <= ieLength <= |b| == |was|
    requires was[..pos] == was[..FIXED_IE_LENGTH] + Print(es[..k])
    requires b[..pos] == was[..pos] && Holds(b, pos, ielen, left)
    requires b[pos + ielen..ieLength'] == Print(es[k + 1..]) + tail
    requires b[ieLength'..ieLength] == Zeros(ieLength - ieLength') && b[ieLength..] == was[ieLength..]
    ensures Edited(was, b, ieLength, ieLength', es, tail, k, left)
  {
    HoldsPrints(b, pos, ielen, left);
    PrintWithAttrs(es, k, left);
    hide Print, PrintOne, PrintAttrs, Holds, WithAttrs;
    ThreeSpans(b, was[..FIXED_IE_LENGTH], Print(es[..k]), pos, ielen, ieLength');
    Associates(Print(es[..k]) + PrintOne(P2pIe(PrintAttrs(left))), Print(es[k + 1..]), tail);
  }

  lemma ThreeSpans(b: seq<byte>, head: seq<byte>, front: seq<byte>, pos: nat, ielen: nat, end: nat)
    requires pos + ielen <= end <= |b| && b[..pos] == head + front
    ensures b[..|head|] == head && b[|head|..end] == front + b[pos..pos + ielen] + b[pos + ielen..end]
  {
    assert b[..|head|] == b[..pos][..|head|];
    assert b[|head|..pos] == b[..pos][|head|..];
  }

  lemma OneFirst(es: seq<Ie>, k: nat)
    requires FirstP2p(es, k)
    ensures k < |es| && !NoP2p(es) && forall j: nat :: FirstP2p(es, j) ==> j == k
  {
    hide Matches;
    assert es[k] in es;
  }

  lemma NoneFirst(es: seq<Ie>)
    requires NoP2p(es)
    ensures forall k: nat :: !FirstP2p(es, k)
  {
    hide Matches;
  }

  /** rtw_WLAN_BSSID_EX_remove_p2p_attr: the elements after are those before, but for the first P2P
      element, which has lost every attribute with that identifier; IELength shrinks with it. */
  method RemoveP2pAttr(ies: array<byte>, ieLength: nat, attrId: byte,
                       ghost es: seq<Ie>, ghost tail: seq<byte>, ghost attrs: seq<Attr>)
    returns (ieLength': nat)
    requires ieLength <= ies.Length <= MAX_IE_SZ
    requires FIXED_IE_LENGTH <= ieLength ==>
               Beacon(ies[..], FIXED_IE_LENGTH, ieLength, es, tail) && WellFormed(es, attrs)
    modifies ies
    ensures ieLength < FIXED_IE_LENGTH || NoP2p(es) ==> ies[..] == old(ies[..]) && ieLength' == ieLength
    ensures FIXED_IE_LENGTH <= ieLength ==> forall k: nat :: FirstP2p(es, k) ==>
              Edited(old(ies[..]), ies[..], ieLength, ieLength', es, tail, k, WithoutAttr(attrs, attrId))
  {
    hide Print, At, FirstP2p, NoP2p, PrintAttrs, Edited, Holds, WithoutAttr, Beacon;
    ieLength' := ieLength;
    ghost var was := ies[..];
    var found, pos, ielenOri, k := FindP2p(ies, FIXED_IE_LENGTH, ieLength - FIXED_IE_LENGTH, es, tail);
    if !found {
      if FIXED_IE_LENGTH <= ieLength {
        NoneFirst(es);
      }
      return;
    }
    OneFirst(es, k);
    BeaconAt(was, ieLength, es, tail, k);
    assert was[pos..pos + ielenOri] == PrintOne(es[k]) by {
      assert was[pos..pos + ielenOri] == [was[pos], was[pos + 1]] + was[pos + 2..pos + ielenOri];
    }
    HoldsPrints(was, pos, ielenOri, attrs);
    var ielen;
    ielen, ieLength' := ShrinkIe(ies, pos, ielenOri, ieLength, attrId, attrs);
    Assemble(was, ies[..], ieLength, ieLength', pos, ielen, es, tail, k, WithoutAttr(attrs, attrId));
  }

  lemma BeaconAt(b: seq<byte>, end: nat, es: seq<Ie>, tail: seq<byte>, k: nat)
    requires Beacon(b, FIXED_IE_LENGTH, end, es, tail) && k < |es|
    ensures Printable(es) && end <= |b|
    ensures
      var at := FIXED_IE_LENGTH + At(es, k);
      var next := at + 2 + |es[k].data|;
      && next <= end && b[at] == es[k].id && b[at + 1] == |es[k].data| && b[at + 2..next] == es[k].data
      && b[..at] == b[..FIXED_IE_LENGTH] + Print(es[..k])
      && b[next..end] == Print(es[k + 1..]) + tail
  {
    hide Print, At, Broken, LongEnough, TailLongEnough, TailHits, NoMatch;
    LaidParts(b, FIXED_IE_LENGTH, end, es, tail, VENDOR_SPECIFIC_IE, Some(P2P_OUI));
    var mid := FIXED_IE_LENGTH + |Print(es)|;
    LocateIn(b, FIXED_IE_LENGTH, mid, es, k);
    var next := FIXED_IE_LENGTH + At(es, k) + 2 + |es[k].data|;
    Adjacent(b, next, mid, end);
  }
}
