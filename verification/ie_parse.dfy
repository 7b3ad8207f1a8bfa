/**
  rtw_ieee802_11_parse_elems: one pass over the elements of a management frame that notes where
  each element the driver knows stands.
 */
module IeParse {
  import opened Bytes
  import opened Tlv

  /** The pointers of struct rtw_ieee802_11_elems. */
  datatype Slot =
    | Ssid | SuppRates | FhParams | DsParams | CfParams | Tim | IbssParams | Challenge | ErpInfo | ExtSuppRates
    | WpaIe | RsnIe | Wme | WmeTspec | WpsIe | PowerCap | SuppChannels | Mdie | Ftie | TimeoutInt
    | HtCapabilities | HtOperation | VendorHtCap

  /** Where the data of an element starts, and how long it is. */
  datatype Field = Field(pos: nat, len: nat)

  datatype ParseRes = ParseOK | ParseUnknown | ParseFailed

  const WLAN_EID_VENDOR_SPECIFIC := 221
  const OUI_MICROSOFT := [0x00, 0x50, 0xf2]
  const OUI_BROADCOM := [0x00, 0x90, 0x4c]
  const WME_OUI_TYPE := 2
  const VENDOR_HT_CAPAB_OUI_TYPE := 0x33

  function VendorSlot(data: seq<byte>): Option<Slot> {
    if |data| < 4 then None
    else if data[..3] == OUI_MICROSOFT then
      if data[3] == 1 then Some(WpaIe)
      else if data[3] == WME_OUI_TYPE then
        if |data| < 5 then None
        else if data[4] == 0 || data[4] == 1 then Some(Wme)
        else if data[4] == 2 then Some(WmeTspec)
        else None
      else if data[3] == 4 then Some(WpsIe)
      else None
    else if data[..3] == OUI_BROADCOM && data[3] == VENDOR_HT_CAPAB_OUI_TYPE then Some(VendorHtCap)
    else None
  }

  /** The slot an element belongs in, if the driver knows it. */
  function SlotOf(e: Ie): Option<Slot> {
    match e.id
    case 0 => Some(Ssid)
    case 1 => Some(SuppRates)
    case 2 => Some(FhParams)
    case 3 => Some(DsParams)
    case 4 => Some(CfParams)
    case 5 => Some(Tim)
    case 6 => Some(IbssParams)
    case 16 => Some(Challenge)
    case 33 => Some(PowerCap)
    case 36 => Some(SuppChannels)
    case 42 => Some(ErpInfo)
    case 45 => Some(HtCapabilities)
    case 48 => Some(RsnIe)
    case 50 => Some(ExtSuppRates)
    case 54 => Some(Mdie)
    case 55 => Some(Ftie)
    case 56 => Some(TimeoutInt)
    case 61 => Some(HtOperation)
    case _ => if e.id == WLAN_EID_VENDOR_SPECIFIC then VendorSlot(e.data) else None
  }

  /** The identifier of the elements a slot is for (table 8-54 of IEEE Std 802.11-2012). */
  function EidOf(s: Slot): byte {
    match s
    case Ssid => 0
    case SuppRates => 1
    case FhParams => 2
    case DsParams => 3
    case CfParams => 4
    case Tim => 5
    case IbssParams => 6
    case Challenge => 16
    case PowerCap => 33
    case SuppChannels => 36
    case ErpInfo => 42
    case HtCapabilities => 45
    case RsnIe => 48
    case ExtSuppRates => 50
    case Mdie => 54
    case Ftie => 55
    case TimeoutInt => 56
    case HtOperation => 61
    case _ => 221
  }

  /** What the data of a vendor specific element in a slot starts with: OUI, type and, for WME, subtype.
      Other elements may start with anything. */
  function OpeningsOf(s: Slot): seq<seq<byte>> {
    match s
    case WpaIe => [[0x00, 0x50, 0xf2, 1]]
    case Wme => [[0x00, 0x50, 0xf2, 2, 0], [0x00, 0x50, 0xf2, 2, 1]]
    case WmeTspec => [[0x00, 0x50, 0xf2, 2, 2]]
    case WpsIe => [[0x00, 0x50, 0xf2, 4]]
    case VendorHtCap => [[0x00, 0x90, 0x4c, 0x33]]
    case _ => [[]]
  }

  /** An element belongs in a slot exactly if it has the slot's identifier and one of its openings. */
  lemma SlotExactly(e: Ie, s: Slot)
    ensures SlotOf(e) == Some(s) <==> e.id == EidOf(s) && exists o <- OpeningsOf(s) :: o <= e.data
  {
    if e.id == WLAN_EID_VENDOR_SPECIFIC {
      VendorExactly(e.data, s);
    } else {
      assert OpeningsOf(s) == [[]] ==> [] in OpeningsOf(s);
    }
  }

  lemma VendorExactly(data: seq<byte>, s: Slot)
    ensures VendorSlot(data) == Some(s) <==> EidOf(s) == 221 && exists o <- OpeningsOf(s) :: o <= data
  {
    assert |data| >= 4 ==> (data[..3] == OUI_MICROSOFT <==> data[0] == 0 && data[1] == 0x50 && data[2] == 0xf2);
    assert |data| >= 4 ==> (data[..3] == OUI_BROADCOM <==> data[0] == 0 && data[1] == 0x90 && data[2] == 0x4c);
    Opens4(data, 0x50, 0xf2, 1);
    Opens4(data, 0x50, 0xf2, 4);
    Opens4(data, 0x90, 0x4c, 0x33);
    Opens5(data, 0);
    Opens5(data, 1);
    Opens5(data, 2);
    var os := OpeningsOf(s);
    assert |os| == 2 || |os| == 1;
    assert (exists o <- os :: o <= data) <==> os[0] <= data || (|os| == 2 && os[1] <= data) by {
      if o :| o in os && o <= data {
        assert o == os[0] || (|os| == 2 && o == os[1]);
      }
      assert os[0] in os && (|os| == 2 ==> os[1] in os);
    }
  }

  lemma Opens4(data: seq<byte>, x: byte, y: byte, t: byte)
    ensures [0x00, x, y, t] <= data <==> |data| >= 4 && data[0] == 0 && data[1] == x && data[2] == y && data[3] == t
  {
  }

  lemma Opens5(data: seq<byte>, t: byte)
    ensures [0x00, 0x50, 0xf2, 2, t] <= data <==>
            |data| >= 5 && data[0] == 0 && data[1] == 0x50 && data[2] == 0xf2 && data[3] == 2 && data[4] == t
  {
  }

  /** Element `k` is the last that belongs in slot `s`, and `f` says where it stands. */
  ghost predicate LastOf(es: seq<Ie>, s: Slot, f: Field, k: nat)
    requires Printable(es)
  {
    && k < |es| && SlotOf(es[k]) == Some(s) && (forall j :: k < j < |es| ==> SlotOf(es[j]) != Some(s))
    && f == Field(At(es, k) + 2, |es[k].data|)
  }

  /** Each slot holds the last element that belongs in it, and stays empty if there is none. */
  ghost predicate Recorded(elems: map<Slot, Field>, es: seq<Ie>)
    requires Printable(es)
  {
    && (forall s <- elems :: exists k: nat :: LastOf(es, s, elems[s], k))
    && (forall e <- es :: SlotOf(e).Some? ==> SlotOf(e).value in elems)
  }

  ghost predicate AllKnown(es: seq<Ie>) {
    forall e <- es :: SlotOf(e).Some?
  }

  /** No two identifiers share a slot, and vendor specific elements have slots of their own. */
  lemma SlotNamesId(d: Ie, e: Ie)
    requires SlotOf(d).Some? && SlotOf(d) == SlotOf(e)
    ensures d.id == e.id
  {
    if d.id == WLAN_EID_VENDOR_SPECIFIC {
      assert SlotOf(d).value in {WpaIe, Wme, WmeTspec, WpsIe, VendorHtCap};
    }
  }

  /** For an identifier that is not vendor specific, what is recorded is its last occurrence. */
  lemma LastById(elems: map<Slot, Field>, es: seq<Ie>, k: nat)
    requires Printable(es) && Recorded(elems, es)
    requires k < |es| && es[k].id != WLAN_EID_VENDOR_SPECIFIC && SlotOf(es[k]).Some?
    requires forall j :: k < j < |es| ==> es[j].id != es[k].id
    ensures
      var s := SlotOf(es[k]).value;
      s in elems && elems[s] == Field(At(es, k) + 2, |es[k].data|)
  {
    hide At;
    var s := SlotOf(es[k]).value;
    assert es[k] in es;
    var m: nat :| LastOf(es, s, elems[s], m);
    hide SlotOf;
    SlotNamesId(es[k], es[m]);
  }

  lemma AtFront(es: seq<Ie>, e: Ie, k: nat)
    requires Printable(es) && |e.data| < 256 && k <= |es|
    ensures Printable(es + [e]) && At(es + [e], k) == At(es, k)
  {
    PrintSnoc(es, e);
    assert (es + [e])[..k] == es[..k];
  }

  lemma RecordStep(elems: map<Slot, Field>, es: seq<Ie>, e: Ie)
    requires Printable(es) && Recorded(elems, es) && |e.data| < 256
    ensures Printable(es + [e])
    ensures
      var field := Field(|Print(es)| + 2, |e.data|);
      Recorded(match SlotOf(e) case Some(s) => elems[s := field] case None => elems, es + [e])
  {
    hide Print, At, SlotOf;
    var more := es + [e];
    var field := Field(|Print(es)| + 2, |e.data|);
    PrintSnoc(es, e);
    var next := match SlotOf(e) case Some(s) => elems[s := field] case None => elems;
    forall s | s in next
      ensures exists k: nat :: LastOf(more, s, next[s], k)
    {
      if SlotOf(e) == Some(s) {
        AtFront(es, e, |es|);
        AtEnd(es);
        assert LastOf(more, s, field, |es|);
      } else {
        var k: nat :| LastOf(es, s, elems[s], k);
        AtFront(es, e, k);
        assert LastOf(more, s, next[s], k);
      }
    }
  }

  lemma KnownStep(es: seq<Ie>, e: Ie)
    ensures AllKnown(es + [e]) <==> AllKnown(es) && SlotOf(e).Some?
  {
    hide SlotOf;
    assert forall x :: x in es + [e] <==> x in es || x == e;
    assert e in es + [e];
  }

  /** A buffer with a broken remainder behind whole elements is not a concatenation of elements. */
  lemma DecodeFails(es: seq<Ie>, rest: seq<byte>)
    requires Printable(es) && Broken(rest)
    ensures Decode(Print(es) + rest) == None
  {
    DecodeAfter(es, rest);
  }

  lemma StepsOver(b: seq<byte>, pos: nat, es: seq<Ie>, e: Ie)
    requires Printable(es) && pos + 2 <= |b| && b[..pos] == Print(es)
    requires e.id == b[pos] && |e.data| == b[pos + 1] && pos + 2 + |e.data| <= |b|
    requires e.data == b[pos + 2..pos + 2 + |e.data|]
    ensures Printable(es + [e]) && b[..pos + 2 + |e.data|] == Print(es + [e])
  {
    hide Print;
    PrintSnoc(es, e);
    assert b[pos..pos + 2 + |e.data|] == PrintOne(e);
    assert b[..pos + 2 + |e.data|] == b[..pos] + b[pos..pos + 2 + |e.data|];
  }

  /** Fails exactly on the buffers that are not a concatenation of elements.  Even then `elems` records
      the whole elements `es` in front of the broken one. */
  method ParseElems(start: seq<byte>)
    returns (res: ParseRes, elems: map<Slot, Field>, ghost es: seq<Ie>)
    ensures res == ParseFailed <==> Decode(start) == None
    ensures res != ParseFailed ==> Decode(start) == Some(es) && (res == ParseOK <==> AllKnown(es))
    ensures Printable(es) && Print(es) <= start && Recorded(elems, es)
    ensures res == ParseFailed ==> Broken(start[|Print(es)|..])
  {
    hide Decode, Print, At, SlotOf, Recorded, AllKnown;
    var left: nat, pos: nat, unknown: nat := |start|, 0, 0;
    elems, es := map[], [];
    StartsEmpty();
    while left >= 2
      invariant 0 <= left <= |start| && 0 <= pos == |start| - left
      invariant Printable(es) && start[..pos] == Print(es) && Recorded(elems, es)
      invariant unknown == 0 <==> AllKnown(es)
      decreases left
    {
      var id, elen := start[pos], start[pos + 1] as nat;
      pos := pos + 2;
      left := left - 2;
      if elen > left {
        ghost var rest := start[pos - 2..];
        assert start == Print(es) + rest;
        DecodeFails(es, rest);
        return ParseFailed, elems, es;
      }
      var e := Ie(id, start[pos..pos + elen]);
      RecordStep(elems, es, e);
      KnownStep(es, e);
      StepsOver(start, pos - 2, es, e);
      match SlotOf(e) {
        case Some(s) => elems := elems[s := Field(pos, elen)];
        case None => unknown := unknown + 1;
      }
      es := es + [e];
      left := left - elen;
      pos := pos + elen;
    }
    if left > 0 {
      ghost var rest := start[pos..];
      assert start == Print(es) + rest;
      DecodeFails(es, rest);
      return ParseFailed, elems, es;
    }
    assert start[..pos] == start;
    DecodePrint(es);
    res := if unknown > 0 then ParseUnknown else ParseOK;
  }

  lemma StartsEmpty()
    ensures Printable([]) && Print([]) == [] && Recorded(map[], []) && AllKnown([])
  {
  }
}
