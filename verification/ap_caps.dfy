/**
  bss_cap_update_on_sta_join, bss_cap_update_on_sta_leave and what they call (core/rtw_ap.c), on the
  counters of struct mlme_priv and the bits of struct sta_info.
 */
module ApCaps {
  import opened Bytes
  import opened ApSpec

  class StaInfo {
    var caps: Caps
    var noShortPreambleSet: bool
    var nonerpSet: bool
    var noShortSlotTimeSet: bool
    var noHtGfSet: bool
    var noHtSet: bool
    var ht20mhzSet: bool

    /** _rtw_init_stainfo */
    constructor (caps: Caps)
      ensures this.caps == caps && BitsNow() == NO_BITS
    {
      this.caps := caps;
      noShortPreambleSet, nonerpSet, noShortSlotTimeSet := false, false, false;
      noHtGfSet, noHtSet, ht20mhzSet := false, false, false;
    }

    function BitsNow(): Bits
      reads this
    {
      Bits(noShortPreambleSet, nonerpSet, noShortSlotTimeSet, noHtGfSet, noHtSet, ht20mhzSet)
    }
  }

  class MlmePriv {
    const env: Env
    var numStaNoShortPreamble: int
    var numStaNonErp: int
    var numStaNoShortSlotTime: int
    var numStaHtNoGf: int
    var numStaNoHt: int
    var numStaHt20mhz: int
    var htOpMode: HtMode
    /** The first byte of the beacon's ERP element, if it has one. */
    var erpInfo: Option<Erp>

    /** start_bss */
    constructor (env: Env, erp: Option<Erp>)
      ensures this.env == env && Now() == Ap(NO_COUNTS, erp, HtMode(0, false, false, 0))
    {
      this.env, erpInfo, htOpMode := env, erp, HtMode(0, false, false, 0);
      numStaNoShortPreamble, numStaNonErp, numStaNoShortSlotTime := 0, 0, 0;
      numStaHtNoGf, numStaNoHt, numStaHt20mhz := 0, 0, 0;
    }

    function CountsNow(): Counts
      reads this
    {
      Counts(numStaNoShortPreamble, numStaNonErp, numStaNoShortSlotTime, numStaHtNoGf, numStaNoHt, numStaHt20mhz)
    }

    function Now(): Ap
      reads this
    {
      Ap(CountsNow(), erpInfo, htOpMode)
    }

    /** update_beacon for the ERP element, and update_bcn_erpinfo_ie */
    method UpdateErpInfo()
      modifies `erpInfo
      ensures erpInfo == ErpUpdate(env, old(erpInfo), CountsNow())
    {
      if !env.started || !env.erpEnable {
        return;
      }
      if erpInfo.Some? {
        var info := erpInfo.value;
        if numStaNonErp == 1 {
          info := info.(nonErpPresent := true, useProtection := true);
        } else {
          info := info.(nonErpPresent := false, useProtection := false);
        }
        info := info.(barker := numStaNoShortPreamble > 0);
        erpInfo := Some(info);
      }
    }

    /** rtw_ht_operation_update: the number of changes made. */
    method HtOperationUpdate() returns (opModeChanges: nat)
      modifies `htOpMode
      ensures htOpMode == HtUpdate(env, old(htOpMode), CountsNow())
      ensures opModeChanges > 0 <==> htOpMode != old(htOpMode)
    {
      opModeChanges := 0;
      if env.htOption {
        return;
      }
      if !htOpMode.nonGfPresent && numStaHtNoGf != 0 {
        htOpMode := htOpMode.(nonGfPresent := true);
        opModeChanges := opModeChanges + 1;
      } else if htOpMode.nonGfPresent && numStaHtNoGf == 0 {
        htOpMode := htOpMode.(nonGfPresent := false);
        opModeChanges := opModeChanges + 1;
      }
      if !htOpMode.nonHtPresent && (numStaNoHt != 0 || env.olbcHt) {
        htOpMode := htOpMode.(nonHtPresent := true);
        opModeChanges := opModeChanges + 1;
      } else if htOpMode.nonHtPresent && (numStaNoHt == 0 && !env.olbcHt) {
        htOpMode := htOpMode.(nonHtPresent := false);
        opModeChanges := opModeChanges + 1;
      }
      var newOpMode := OP_MODE_PURE;
      if numStaNoHt != 0 || htOpMode.nonGfPresent {
        newOpMode := OP_MODE_MIXED;
      } else if env.apWidth40 && numStaHt20mhz != 0 {
        newOpMode := OP_MODE_20MHZ_HT_STA_ASSOCED;
      } else if env.olbcHt {
        newOpMode := OP_MODE_MAY_BE_LEGACY_STAS;
      }
      if htOpMode.opMode != newOpMode {
        htOpMode := htOpMode.(opMode := newOpMode);
        opModeChanges := opModeChanges + 1;
      }
    }

    // One bit of a station is set or cleared, if it is not so already, and counted.

    method MarkNoShortPreamble(psta: StaInfo, on: bool) returns (updated: bool)
      modifies `numStaNoShortPreamble, psta`noShortPreambleSet
      ensures psta.BitsNow() == old(psta.BitsNow()).(noShortPreamble := on)
      ensures CountsNow() == Recount(old(CountsNow()), old(psta.BitsNow()), psta.BitsNow())
      ensures updated <==> env.above11b && Crosses(numStaNoShortPreamble, old(psta.noShortPreambleSet), on)
    {
      hide Bit;
      BitIs();
      updated := false;
      if on && !psta.noShortPreambleSet {
        psta.noShortPreambleSet := true;
        numStaNoShortPreamble := numStaNoShortPreamble + 1;
        updated := env.above11b && numStaNoShortPreamble == 1;
      } else if !on && psta.noShortPreambleSet {
        psta.noShortPreambleSet := false;
        numStaNoShortPreamble := numStaNoShortPreamble - 1;
        updated := env.above11b && numStaNoShortPreamble == 0;
      }
    }

    method MarkNonErp(psta: StaInfo, on: bool) returns (updated: bool)
      modifies `numStaNonErp, psta`nonerpSet, `erpInfo
      ensures psta.BitsNow() == old(psta.BitsNow()).(nonErp := on)
      ensures CountsNow() == Recount(old(CountsNow()), old(psta.BitsNow()), psta.BitsNow())
      ensures updated <==> Crosses(numStaNonErp, old(psta.nonerpSet), on)
      ensures erpInfo == if updated then ErpUpdate(env, old(erpInfo), CountsNow()) else old(erpInfo)
    {
      NonErpCounted(CountsNow(), psta.BitsNow(), on);
      hide Bit, ErpUpdate, Recount;
      updated := false;
      if on && !psta.nonerpSet {
        psta.nonerpSet := true;
        numStaNonErp := numStaNonErp + 1;
        if numStaNonErp == 1 {
          updated := true;
          UpdateErpInfo();
        }
      } else if !on && psta.nonerpSet {
        psta.nonerpSet := false;
        numStaNonErp := numStaNonErp - 1;
        if numStaNonErp == 0 {
          updated := true;
          UpdateErpInfo();
        }
      }
    }

    method MarkNoShortSlotTime(psta: StaInfo, on: bool) returns (updated: bool)
      modifies `numStaNoShortSlotTime, psta`noShortSlotTimeSet
      ensures psta.BitsNow() == old(psta.BitsNow()).(noShortSlot := on)
      ensures CountsNow() == Recount(old(CountsNow()), old(psta.BitsNow()), psta.BitsNow())
      ensures updated <==> env.above11b && Crosses(numStaNoShortSlotTime, old(psta.noShortSlotTimeSet), on)
    {
      hide Bit;
      BitIs();
      updated := false;
      if on && !psta.noShortSlotTimeSet {
        psta.noShortSlotTimeSet := true;
        numStaNoShortSlotTime := numStaNoShortSlotTime + 1;
        updated := env.above11b && numStaNoShortSlotTime == 1;
      } else if !on && psta.noShortSlotTimeSet {
        psta.noShortSlotTimeSet := false;
        numStaNoShortSlotTime := numStaNoShortSlotTime - 1;
        updated := env.above11b && numStaNoShortSlotTime == 0;
      }
    }

    method MarkNoHtGf(psta: StaInfo, on: bool)
      modifies `numStaHtNoGf, psta`noHtGfSet
      ensures psta.BitsNow() == old(psta.BitsNow()).(noGf := on)
      ensures CountsNow() == Recount(old(CountsNow()), old(psta.BitsNow()), psta.BitsNow())
    {
      hide Bit;
      BitIs();
      if on && !psta.noHtGfSet {
        psta.noHtGfSet := true;
        numStaHtNoGf := numStaHtNoGf + 1;
      } else if !on && psta.noHtGfSet {
        psta.noHtGfSet := false;
        numStaHtNoGf := numStaHtNoGf - 1;
      }
    }

    method MarkNoHt(psta: StaInfo, on: bool)
      modifies `numStaNoHt, psta`noHtSet
      ensures psta.BitsNow() == old(psta.BitsNow()).(noHt := on)
      ensures CountsNow() == Recount(old(CountsNow()), old(psta.BitsNow()), psta.BitsNow())
    {
      hide Bit;
      BitIs();
      if on && !psta.noHtSet {
        psta.noHtSet := true;
        numStaNoHt := numStaNoHt + 1;
      } else if !on && psta.noHtSet {
        psta.noHtSet := false;
        numStaNoHt := numStaNoHt - 1;
      }
    }

    method MarkHt20mhz(psta: StaInfo, on: bool)
      modifies `numStaHt20mhz, psta`ht20mhzSet
      ensures psta.BitsNow() == old(psta.BitsNow()).(ht20 := on)
      ensures CountsNow() == Recount(old(CountsNow()), old(psta.BitsNow()), psta.BitsNow())
    {
      hide Bit;
      BitIs();
      if on && !psta.ht20mhzSet {
        psta.ht20mhzSet := true;
        numStaHt20mhz := numStaHt20mhz + 1;
      } else if !on && psta.ht20mhzSet {
        psta.ht20mhzSet := false;
        numStaHt20mhz := numStaHt20mhz - 1;
      }
    }

    /** The two bits the ERP element shows. */
    method MarkErp(psta: StaInfo, noShortPreamble: bool, nonErp: bool) returns (preamble: bool, erp: bool)
      modifies `numStaNoShortPreamble, `numStaNonErp, `erpInfo, psta`noShortPreambleSet, psta`nonerpSet
      ensures psta.BitsNow() == old(psta.BitsNow()).(noShortPreamble := noShortPreamble, nonErp := nonErp)
      ensures CountsNow() == Recount(old(CountsNow()), old(psta.BitsNow()), psta.BitsNow())
      ensures preamble <==>
                env.above11b && Crosses(numStaNoShortPreamble, old(psta.noShortPreambleSet), noShortPreamble)
      ensures erp <==> Crosses(numStaNonErp, old(psta.nonerpSet), nonErp)
      ensures erpInfo == if erp then ErpUpdate(env, old(erpInfo), CountsNow()) else old(erpInfo)
    {
      ghost var c0, b0 := CountsNow(), psta.BitsNow();
      hide ErpUpdate, Crosses, Recount;
      preamble := MarkNoShortPreamble(psta, noShortPreamble);
      ghost var b1 := psta.BitsNow();
      erp := MarkNonErp(psta, nonErp);
      Recounted(c0, b0, b1, psta.BitsNow());
    }

    /** The bits that show outside the HT elements. */
    method MarkBasic(psta: StaInfo, noShortPreamble: bool, nonErp: bool, noShortSlot: bool)
      returns (beaconUpdated: bool)
      modifies `numStaNoShortPreamble, `numStaNonErp, `numStaNoShortSlotTime, `erpInfo
      modifies psta`noShortPreambleSet, psta`nonerpSet, psta`noShortSlotTimeSet
      ensures psta.BitsNow() == old(psta.BitsNow()).(noShortPreamble := noShortPreamble, nonErp := nonErp,
                                                     noShortSlot := noShortSlot)
      ensures CountsNow() == Recount(old(CountsNow()), old(psta.BitsNow()), psta.BitsNow())
      ensures beaconUpdated <==> BeaconChanges(env, CountsNow(), old(psta.BitsNow()), psta.BitsNow())
      ensures erpInfo == if Crosses(numStaNonErp, old(psta.nonerpSet), nonErp)
                         then ErpUpdate(env, old(erpInfo), CountsNow()) else old(erpInfo)
    {
      ghost var c0, b0, was := CountsNow(), psta.BitsNow(), erpInfo;
      hide ErpUpdate, Crosses, Recount, BeaconChanges;
      var preamble, erp := MarkErp(psta, noShortPreamble, nonErp);
      ghost var c1, b1 := CountsNow(), psta.BitsNow();
      var slot := MarkNoShortSlotTime(psta, noShortSlot);
      Recounted(c0, b0, b1, psta.BitsNow());
      ErpSees(env, was, c1, CountsNow());
      BeaconChangesIf(env, CountsNow(), b0, psta.BitsNow());
      beaconUpdated := preamble || erp || slot;
    }

    /** The bits of the HT elements, at an association. */
    method MarkHt(psta: StaInfo)
      modifies `numStaHtNoGf, `numStaNoHt, `numStaHt20mhz, psta`noHtGfSet, psta`noHtSet, psta`ht20mhzSet
      ensures
        var before, after, caps := old(psta.BitsNow()), psta.BitsNow(), psta.caps;
        && after == before.(noGf := JoinBits(before, caps).noGf, noHt := !caps.ht, ht20 := JoinBits(before, caps).ht20)
        && CountsNow() == Recount(old(CountsNow()), before, after)
    {
      ghost var c0, b0 := CountsNow(), psta.BitsNow();
      var caps := psta.caps;
      RecountNothing(c0, b0);
      hide Recount;
      if caps.ht {
        MarkNoHt(psta, false);
        if !caps.greenfield {
          ghost var b1 := psta.BitsNow();
          MarkNoHtGf(psta, true);
          Recounted(c0, b0, b1, psta.BitsNow());
        }
        if !caps.width40 {
          ghost var b1 := psta.BitsNow();
          MarkHt20mhz(psta, true);
          Recounted(c0, b0, b1, psta.BitsNow());
        }
      } else {
        MarkNoHt(psta, true);
      }
    }

    /** And at a departure. */
    method ClearHt(psta: StaInfo)
      modifies `numStaHtNoGf, `numStaNoHt, `numStaHt20mhz, psta`noHtGfSet, psta`noHtSet, psta`ht20mhzSet
      ensures psta.BitsNow() == old(psta.BitsNow()).(noGf := false, noHt := false, ht20 := false)
      ensures CountsNow() == Recount(old(CountsNow()), old(psta.BitsNow()), psta.BitsNow())
    {
      ghost var c0, b0 := CountsNow(), psta.BitsNow();
      hide Recount;
      MarkNoHtGf(psta, false);
      ghost var b1 := psta.BitsNow();
      MarkNoHt(psta, false);
      ghost var b2 := psta.BitsNow();
      MarkHt20mhz(psta, false);
      Recounted(c0, b0, b1, b2);
      Recounted(c0, b0, b2, psta.BitsNow());
    }

    /** bss_cap_update_on_sta_join */
    method BssCapUpdateOnStaJoin(psta: StaInfo) returns (beaconUpdated: bool)
      modifies this, psta
      ensures psta.caps == old(psta.caps) && psta.BitsNow() == JoinBits(old(psta.BitsNow()), psta.caps)
      ensures Now() == Changed(env, old(Now()), old(psta.BitsNow()), psta.BitsNow())
      ensures beaconUpdated <==> BeaconChanges(env, CountsNow(), old(psta.BitsNow()), psta.BitsNow())
    {
      hide ErpUpdate, HtUpdate, Crosses, Bit, Recount, BeaconChanges;
      ghost var counts, bits := CountsNow(), psta.BitsNow();
      var caps := psta.caps;
      beaconUpdated := MarkBasic(psta, !caps.shortPreamble, caps.nonErp, !caps.shortSlot);
      ghost var counts2, bits2 := CountsNow(), psta.BitsNow();
      MarkHt(psta);
      Recounted(counts, bits, bits2, psta.BitsNow());
      ErpSees(env, old(erpInfo), counts2, CountsNow());
      BeaconSees(env, counts2, CountsNow(), bits, bits2, psta.BitsNow());
      var changes := HtOperationUpdate();
    }

    /** bss_cap_update_on_sta_leave */
    method BssCapUpdateOnStaLeave(psta: StaInfo) returns (beaconUpdated: bool)
      modifies this, psta
      ensures psta.caps == old(psta.caps) && psta.BitsNow() == NO_BITS
      ensures Now() == Changed(env, old(Now()), old(psta.BitsNow()), NO_BITS)
      ensures beaconUpdated <==> BeaconChanges(env, CountsNow(), old(psta.BitsNow()), NO_BITS)
    {
      hide ErpUpdate, HtUpdate, Crosses, Bit, Recount, BeaconChanges;
      ghost var counts, bits := CountsNow(), psta.BitsNow();
      beaconUpdated := MarkBasic(psta, false, false, false);
      ghost var counts2, bits2 := CountsNow(), psta.BitsNow();
      ClearHt(psta);
      Recounted(counts, bits, bits2, psta.BitsNow());
      ErpSees(env, old(erpInfo), counts2, CountsNow());
      BeaconSees(env, counts2, CountsNow(), bits, bits2, psta.BitsNow());
      var changes := HtOperationUpdate();
    }
  }

  lemma BeaconChangesIf(env: Env, c: Counts, before: Bits, after: Bits)
    ensures BeaconChanges(env, c, before, after) <==>
            || (env.above11b && Crosses(c.noShortPreamble, before.noShortPreamble, after.noShortPreamble))
            || Crosses(c.nonErp, before.nonErp, after.nonErp)
            || (env.above11b && Crosses(c.noShortSlot, before.noShortSlot, after.noShortSlot))
  {
  }

  lemma BitIs()
    ensures Bit(true) == 1 && Bit(false) == 0
  {
  }

  lemma NonErpCounted(c: Counts, b: Bits, on: bool)
    ensures Recount(c, b, b.(nonErp := on)) ==
            c.(nonErp := c.nonErp + if on == b.nonErp then 0 else if on then 1 else -1)
  {
  }

  lemma RecountNothing(c: Counts, b: Bits)
    ensures Recount(c, b, b) == c
  {
  }

  lemma Recounted(c: Counts, a: Bits, b: Bits, d: Bits)
    ensures Recount(Recount(c, a, b), b, d) == Recount(c, a, d)
  {
  }

  /** The ERP element depends on two of the counters only. */
  lemma ErpSees(env: Env, erp: Option<Erp>, c: Counts, d: Counts)
    requires c.nonErp == d.nonErp && c.noShortPreamble == d.noShortPreamble
    ensures ErpUpdate(env, erp, c) == ErpUpdate(env, erp, d)
  {
  }

  /** The beacon's changes depend on the three counters outside the HT elements. */
  lemma BeaconSees(env: Env, c: Counts, d: Counts, before: Bits, a: Bits, b: Bits)
    requires c.nonErp == d.nonErp && c.noShortPreamble == d.noShortPreamble && c.noShortSlot == d.noShortSlot
    requires a.nonErp == b.nonErp && a.noShortPreamble == b.noShortPreamble && a.noShortSlot == b.noShortSlot
    ensures BeaconChanges(env, c, before, a) <==> BeaconChanges(env, d, before, b)
  {
  }

  /** Whether the beacon is taken to have changed. */
  predicate BeaconChanges(env: Env, c: Counts, before: Bits, after: Bits) {
    || (env.above11b && Crosses(c.noShortPreamble, before.noShortPreamble, after.noShortPreamble))
    || Crosses(c.nonErp, before.nonErp, after.nonErp)
    || (env.above11b && Crosses(c.noShortSlot, before.noShortSlot, after.noShortSlot))
  }

  /** That is exactly when it changes whether there are non-ERP stations or, on channels above 802.11b, whether
      there are stations without short preambles or short slots. */
  lemma BeaconChangesExactly(env: Env, c: Counts, before: Bits, after: Bits)
    requires c.nonErp >= Bit(before.nonErp) && c.noShortPreamble >= Bit(before.noShortPreamble)
    requires c.noShortSlot >= Bit(before.noShortSlot)
    ensures
      var d := Recount(c, before, after);
      BeaconChanges(env, d, before, after) <==>
        || (c.nonErp > 0) != (d.nonErp > 0)
        || (env.above11b && (c.noShortPreamble > 0) != (d.noShortPreamble > 0))
        || (env.above11b && (c.noShortSlot > 0) != (d.noShortSlot > 0))
  {
  }

  // ---------------------------------------------------------------------------
  // Many stations
  // ---------------------------------------------------------------------------

  ghost predicate KnownApart(stations: map<mac, StaInfo>) {
    forall m, n :: m in stations && n in stations && m != n ==> stations[m] != stations[n]
  }

  ghost function BitsOfAll(stations: map<mac, StaInfo>): map<mac, Bits>
    reads stations.Values
  {
    map m | m in stations :: stations[m].BitsNow()
  }

  ghost function StateNow(ap: MlmePriv, stations: map<mac, StaInfo>): State
    reads ap, stations.Values
  {
    State(BitsOfAll(stations), ap.Now())
  }

  /** A known station associates, anew or again, or leaves: one step of ApSpec, whoever else is there. */
  method Perform(ap: MlmePriv, stations: map<mac, StaInfo>, e: Event)
    requires e.sta in stations && KnownApart(stations)
    modifies ap, stations[e.sta]
    ensures StateNow(ap, stations) == Step(ap.env, old(StateNow(ap, stations)), e)
  {
    ghost var was := BitsOfAll(stations);
    var psta := stations[e.sta];
    assert forall m :: m in stations && m != e.sta ==> stations[m] != psta;
    hide Changed, JoinBits, KnownApart, BitsOfAll, Recount;
    ReadBits(stations, e.sta);
    match e {
      case Join(_, caps) =>
        psta.caps := caps;
        var _ := ap.BssCapUpdateOnStaJoin(psta);
      case Leave(_) =>
        var _ := ap.BssCapUpdateOnStaLeave(psta);
    }
    OneChanged(stations, was, e.sta);
  }

  /** A fresh access point and its stations, driven through any events. */
  method Replay(env: Env, erp: Option<Erp>, stations: map<mac, StaInfo>, events: seq<Event>) returns (ap: MlmePriv)
    requires KnownApart(stations) && forall e <- events :: e.sta in stations
    requires forall m <- stations :: stations[m].BitsNow() == NO_BITS
    requires erp.Some? ==> !erp.value.nonErpPresent && !erp.value.useProtection
    modifies stations.Values
    ensures
      var start := State(old(BitsOfAll(stations)), Ap(NO_COUNTS, erp, HtMode(0, false, false, 0)));
      Fresh(start) && StateNow(ap, stations) == Run(env, start, events)
  {
    hide Step, Recount, KnownApart;
    ap := new MlmePriv(env, erp);
    ghost var start := StateNow(ap, stations);
    var i := 0;
    while i < |events|
      invariant 0 <= i <= |events| && fresh(ap) && ap.env == env
      invariant Run(env, StateNow(ap, stations), events[i..]) == Run(env, start, events)
    {
      assert events[i..][0] == events[i] && events[i..][1..] == events[i + 1..];
      assert events[i] in events;
      Perform(ap, stations, events[i]);
      i := i + 1;
    }
  }

  lemma ReadBits(stations: map<mac, StaInfo>, m: mac)
    ensures BitsOfAll(stations).Keys == stations.Keys
    ensures forall n :: n in stations ==> BitsOfAll(stations)[n] == stations[n].BitsNow()
  {
  }

  lemma OneChanged(stations: map<mac, StaInfo>, was: map<mac, Bits>, m: mac)
    requires m in stations && was.Keys == stations.Keys
    requires forall n :: n in stations && n != m ==> stations[n].BitsNow() == was[n]
    ensures BitsOfAll(stations) == was[m := stations[m].BitsNow()]
  {
    assert forall n :: n in was <==> n in was.Keys;
    assert forall n :: n in stations <==> n in stations.Keys;
  }
}
