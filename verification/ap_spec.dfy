/**
  What an access point knows of its stations' capabilities (core/rtw_ap.c): one bit a station for each
  restriction, a counter of the stations that have it set, and the beacon bits that follow from the
  counters.
 */
module ApSpec {
  import opened Bytes
  import opened Lists

  /** The restrictions that are counted. */
  datatype Limit = NoShortPreamble | NonErp | NoShortSlot | NoGreenfield | NoHt | Ht20MHz

  /** What a station states when it associates. */
  datatype Caps = Caps(shortPreamble: bool, nonErp: bool, shortSlot: bool, ht: bool, greenfield: bool, width40: bool)

  /** The *_set bits of a station. */
  datatype Bits = Bits(noShortPreamble: bool, nonErp: bool, noShortSlot: bool, noGf: bool, noHt: bool, ht20: bool)

  /** The num_sta_* counters. */
  datatype Counts = Counts(noShortPreamble: int, nonErp: int, noShortSlot: int, noGf: int, noHt: int, ht20: int)

  const NO_BITS := Bits(false, false, false, false, false, false)
  const NO_COUNTS := Counts(0, 0, 0, 0, 0, 0)

  function IsSet(b: Bits, l: Limit): bool {
    match l
    case NoShortPreamble => b.noShortPreamble
    case NonErp => b.nonErp
    case NoShortSlot => b.noShortSlot
    case NoGreenfield => b.noGf
    case NoHt => b.noHt
    case Ht20MHz => b.ht20
  }

  function CountOf(c: Counts, l: Limit): int {
    match l
    case NoShortPreamble => c.noShortPreamble
    case NonErp => c.nonErp
    case NoShortSlot => c.noShortSlot
    case NoGreenfield => c.noGf
    case NoHt => c.noHt
    case Ht20MHz => c.ht20
  }

  /** The ERP element of the beacon (section 8.4.2.14 of IEEE Std 802.11-2012), and the HT operation
      mode; `rest` are the bits the driver leaves alone. */
  datatype Erp = Erp(nonErpPresent: bool, useProtection: bool, barker: bool, rest: nat)
  datatype HtMode = HtMode(opMode: nat, nonGfPresent: bool, nonHtPresent: bool, rest: nat)

  const OP_MODE_PURE := 0
  const OP_MODE_MAY_BE_LEGACY_STAS := 1
  const OP_MODE_20MHZ_HT_STA_ASSOCED := 2
  const OP_MODE_MIXED := 3

  /** What does not change while stations come and go. */
  datatype Env = Env(started: bool, erpEnable: bool, above11b: bool, htOption: bool, olbcHt: bool, apWidth40: bool)

  datatype Ap = Ap(counts: Counts, erp: Option<Erp>, htMode: HtMode)

  /** The bits after an association. */
  function JoinBits(b: Bits, c: Caps): Bits {
    Bits(!c.shortPreamble, c.nonErp, !c.shortSlot,
         b.noGf || (c.ht && !c.greenfield), !c.ht, b.ht20 || (c.ht && !c.width40))
  }

  function Bit(b: bool): int {
    if b then 1 else 0
  }

  function Recount(c: Counts, before: Bits, after: Bits): Counts {
    Counts(c.noShortPreamble + Bit(after.noShortPreamble) - Bit(before.noShortPreamble),
           c.nonErp + Bit(after.nonErp) - Bit(before.nonErp),
           c.noShortSlot + Bit(after.noShortSlot) - Bit(before.noShortSlot),
           c.noGf + Bit(after.noGf) - Bit(before.noGf),
           c.noHt + Bit(after.noHt) - Bit(before.noHt),
           c.ht20 + Bit(after.ht20) - Bit(before.ht20))
  }

  /** update_bcn_erpinfo_ie, as update_beacon reaches it. */
  function ErpUpdate(env: Env, erp: Option<Erp>, c: Counts): Option<Erp> {
    if env.started && env.erpEnable && erp.Some? then
      Some(Erp(c.nonErp == 1, c.nonErp == 1, c.noShortPreamble > 0, erp.value.rest))
    else erp
  }

  /** The first station with the bit came, or the last one went. */
  predicate Crosses(count: int, before: bool, after: bool) {
    (after && !before && count == 1) || (!after && before && count == 0)
  }

  /** rtw_ht_operation_update, while HT is not operated. */
  function HtUpdate(env: Env, m: HtMode, c: Counts): HtMode {
    if env.htOption then m
    else
      var nonGf := if !m.nonGfPresent && c.noGf != 0 then true
                   else if m.nonGfPresent && c.noGf == 0 then false else m.nonGfPresent;
      var nonHt := if !m.nonHtPresent && (c.noHt != 0 || env.olbcHt) then true
                   else if m.nonHtPresent && c.noHt == 0 && !env.olbcHt then false else m.nonHtPresent;
      var opMode := if c.noHt != 0 || nonGf then OP_MODE_MIXED
                    else if env.apWidth40 && c.ht20 != 0 then OP_MODE_20MHZ_HT_STA_ASSOCED
                    else if env.olbcHt then OP_MODE_MAY_BE_LEGACY_STAS
                    else OP_MODE_PURE;
      HtMode(opMode, nonGf, nonHt, m.rest)
  }

  /** A station's bits change: what the access point makes of it. */
  function Changed(env: Env, ap: Ap, before: Bits, after: Bits): Ap {
    var c := Recount(ap.counts, before, after);
    var erp := if Crosses(c.nonErp, before.nonErp, after.nonErp) then ErpUpdate(env, ap.erp, c) else ap.erp;
    Ap(c, erp, HtUpdate(env, ap.htMode, c))
  }

  // ---------------------------------------------------------------------------
  // Over every run
  // ---------------------------------------------------------------------------

  type mac = int

  datatype State = State(stations: map<mac, Bits>, ap: Ap)

  datatype Event = Join(sta: mac, caps: Caps) | Leave(sta: mac)

  function BitsOf(s: State, m: mac): Bits {
    if m in s.stations then s.stations[m] else NO_BITS
  }

  function Step(env: Env, s: State, e: Event): State {
    var before := BitsOf(s, e.sta);
    var after := if e.Join? then JoinBits(before, e.caps) else NO_BITS;
    State(s.stations[e.sta := after], Changed(env, s.ap, before, after))
  }

  function Run(env: Env, s: State, es: seq<Event>): State
    decreases |es|
  {
    if es == [] then s else Run(env, Step(env, s, es[0]), es[1..])
  }

  ghost function Holders(stations: map<mac, Bits>, l: Limit): set<mac> {
    set m | m in stations && IsSet(stations[m], l)
  }

  /** Each counter is the number of stations with the bit set. */
  ghost predicate Counted(s: State) {
    forall l: Limit :: CountOf(s.ap.counts, l) == |Holders(s.stations, l)|
  }

  /** The element tells of non-ERP stations exactly if there are any. */
  predicate ErpShows(env: Env, ap: Ap) {
    env.started && env.erpEnable && ap.erp.Some? ==>
      && ap.erp.value.nonErpPresent == (ap.counts.nonErp > 0)
      && ap.erp.value.useProtection == (ap.counts.nonErp > 0)
  }

  /** The HT operation mode the counters call for. */
  function Settled(env: Env, c: Counts, rest: nat): HtMode {
    var mixed := c.noHt > 0 || c.noGf > 0;
    HtMode(if mixed then OP_MODE_MIXED
           else if env.apWidth40 && c.ht20 > 0 then OP_MODE_20MHZ_HT_STA_ASSOCED
           else if env.olbcHt then OP_MODE_MAY_BE_LEGACY_STAS
           else OP_MODE_PURE,
           c.noGf > 0, c.noHt > 0 || env.olbcHt, rest)
  }

  ghost predicate Sound(env: Env, s: State) {
    Counted(s) && ErpShows(env, s.ap)
  }

  lemma HoldersChange(stations: map<mac, Bits>, m: mac, after: Bits, l: Limit)
    ensures
      var before := if m in stations then IsSet(stations[m], l) else false;
      |Holders(stations[m := after], l)| == |Holders(stations, l)| + Bit(IsSet(after, l)) - Bit(before)
  {
    var had, has := Holders(stations, l), Holders(stations[m := after], l);
    if IsSet(after, l) {
      assert has == had + {m};
    } else {
      assert has == had - {m};
    }
  }

  lemma CountsStep(env: Env, s: State, e: Event)
    requires Counted(s)
    ensures Counted(Step(env, s, e))
  {
    var before := BitsOf(s, e.sta);
    var after := if e.Join? then JoinBits(before, e.caps) else NO_BITS;
    forall l: Limit ensures CountOf(Step(env, s, e).ap.counts, l) == |Holders(Step(env, s, e).stations, l)| {
      HoldersChange(s.stations, e.sta, after, l);
      RecountAt(s.ap.counts, before, after, l);
    }
  }

  lemma RecountAt(c: Counts, before: Bits, after: Bits, l: Limit)
    ensures CountOf(Recount(c, before, after), l) == CountOf(c, l) + Bit(IsSet(after, l)) - Bit(IsSet(before, l))
  {
  }

  lemma CountsAreNatural(s: State, l: Limit)
    requires Counted(s)
    ensures CountOf(s.ap.counts, l) >= 0
  {
  }

  /** The update tests for one station, yet the bit is right for any number: it is called when the
      first such station comes and when the last one goes, and only then. */
  lemma ErpStep(env: Env, s: State, e: Event)
    requires Sound(env, s)
    ensures ErpShows(env, Step(env, s, e).ap)
  {
    CountsStep(env, s, e);
    CountsAreNatural(s, NonErp);
    CountsAreNatural(Step(env, s, e), NonErp);
    hide Counted, HtUpdate;
  }

  lemma StepKeeps(env: Env, s: State, e: Event)
    requires Sound(env, s)
    ensures Sound(env, Step(env, s, e))
  {
    CountsStep(env, s, e);
    ErpStep(env, s, e);
  }

  lemma {:induction false} EveryRun(env: Env, s: State, es: seq<Event>)
    requires Sound(env, s)
    ensures Sound(env, Run(env, s, es))
    decreases |es|
  {
    hide Step, Sound;
    if es != [] {
      StepKeeps(env, s, es[0]);
      EveryRun(env, Step(env, s, es[0]), es[1..]);
    }
  }

  /** start_bss clears the counters; the stations' bits are clear, and so is the element. */
  ghost predicate Fresh(s: State) {
    && s.ap.counts == NO_COUNTS && (forall m <- s.stations :: s.stations[m] == NO_BITS)
    && (s.ap.erp.Some? ==> !s.ap.erp.value.nonErpPresent && !s.ap.erp.value.useProtection)
  }

  lemma FreshIsSound(env: Env, s: State)
    requires Fresh(s)
    ensures Sound(env, s)
  {
    forall l: Limit ensures CountOf(s.ap.counts, l) == |Holders(s.stations, l)| {
      assert !IsSet(NO_BITS, l);
      assert forall m :: m in s.stations ==> s.stations[m] == NO_BITS;
      assert Holders(s.stations, l) == {};
    }
  }

  /** Over every run the ERP element is there if it was, keeps the bits the driver leaves alone, and stays
      altogether as it is while the access point is not started or ERP not in use. */
  lemma {:induction false} ErpKept(env: Env, s: State, es: seq<Event>)
    ensures
      var erp, was := Run(env, s, es).ap.erp, s.ap.erp;
      && (erp.Some? <==> was.Some?) && (erp.Some? ==> erp.value.rest == was.value.rest)
      && (!env.started || !env.erpEnable ==> erp == was)
    decreases |es|
  {
    if es != [] {
      hide HtUpdate, Recount, JoinBits;
      ErpKept(env, Step(env, s, es[0]), es[1..]);
    }
  }

  /** While HT is not operated, every association and departure leaves the operation mode the counters
      call for, whatever it was before; updating again changes nothing. */
  lemma ModeIsSettled(env: Env, s: State, e: Event)
    requires Sound(env, s) && !env.htOption
    ensures
      var ap := Step(env, s, e).ap;
      && ap.htMode == Settled(env, ap.counts, s.ap.htMode.rest)
      && HtUpdate(env, ap.htMode, ap.counts) == ap.htMode
  {
    CountsStep(env, s, e);
    forall l: Limit ensures CountOf(Step(env, s, e).ap.counts, l) >= 0 {
      CountsAreNatural(Step(env, s, e), l);
    }
    var c := Step(env, s, e).ap.counts;
    assert CountOf(c, NoGreenfield) >= 0 && CountOf(c, NoHt) >= 0 && CountOf(c, Ht20MHz) >= 0;
    hide Counted, Recount, JoinBits, ErpUpdate, Crosses;
  }

  /** With HT in operation the mode is never brought up to date. */
  lemma {:induction false} ModeFrozen(env: Env, s: State, es: seq<Event>)
    requires env.htOption
    ensures Run(env, s, es).ap.htMode == s.ap.htMode
    decreases |es|
  {
    if es != [] {
      ModeFrozen(env, Step(env, s, es[0]), es[1..]);
    }
  }

  /** The bit of the ERP element that tells of stations without short preambles. */
  predicate BarkerRight(ap: Ap) {
    ap.erp.Some? ==> ap.erp.value.barker == (ap.counts.noShortPreamble > 0)
  }

  /** A station's bit change brings the first holder of a restriction, or takes the last. */
  predicate Flips(count: int, before: bool, after: bool) {
    (after && !before && count == 0) || (!after && before && count == 1)
  }

  function BitsAfter(s: State, e: Event): Bits {
    if e.Join? then JoinBits(BitsOf(s, e.sta), e.caps) else NO_BITS
  }

  /** The Barker preamble bit is only looked at when the ERP element is updated for another reason.
      After a step it is right exactly if the step brings the first non-ERP station or takes the last,
      or if it was right and the step does neither with stations without short preambles, or it was
      wrong and the step does. */
  lemma BarkerExactly(env: Env, s: State, e: Event)
    requires Sound(env, s) && env.started && env.erpEnable && s.ap.erp.Some?
    ensures
      var before, after := BitsOf(s, e.sta), BitsAfter(s, e);
      BarkerRight(Step(env, s, e).ap) <==>
        || Flips(s.ap.counts.nonErp, before.nonErp, after.nonErp)
        || (BarkerRight(s.ap) <==> !Flips(s.ap.counts.noShortPreamble, before.noShortPreamble, after.noShortPreamble))
  {
    CountsAreNatural(s, NoShortPreamble);
    CountsStep(env, s, e);
    CountsAreNatural(Step(env, s, e), NoShortPreamble);
    hide Counted, HtUpdate, JoinBits, ErpShows;
  }

  // ---------------------------------------------------------------------------
  // Histories
  // ---------------------------------------------------------------------------

  lemma {:induction false} RunSnoc(env: Env, s: State, es: seq<Event>, e: Event)
    ensures Run(env, s, es + [e]) == Step(env, Run(env, s, es), e)
    decreases |es|
  {
    hide Step;
    if es == [] {
      assert [] + [e] == [e] && [e][1..] == [];
    } else {
      assert (es + [e])[0] == es[0] && (es + [e])[1..] == es[1..] + [e];
      RunSnoc(env, Step(env, s, es[0]), es[1..], e);
    }
  }

  lemma RunTo(env: Env, s: State, es: seq<Event>, i: nat)
    requires i < |es|
    ensures Run(env, s, es[..i + 1]) == Step(env, Run(env, s, es[..i]), es[i])
  {
    assert es[..i + 1] == es[..i] + [es[i]];
    RunSnoc(env, s, es[..i], es[i]);
  }

  /** Event `i` of a run changes whether there are non-ERP stations. */
  ghost predicate ErpTurns(env: Env, s: State, es: seq<Event>, i: nat)
    requires i < |es|
  {
    (Run(env, s, es[..i]).ap.counts.nonErp > 0) != (Run(env, s, es[..i + 1]).ap.counts.nonErp > 0)
  }

  /** The state the Barker bit speaks of: that behind the first `k` events, where the presence of non-ERP
      stations last changed. */
  ghost predicate LastTurn(env: Env, s: State, es: seq<Event>, k: nat) {
    && k <= |es| && (k > 0 ==> ErpTurns(env, s, es, k - 1))
    && forall i :: k <= i < |es| ==> !ErpTurns(env, s, es, i)
  }

  lemma StepTurns(env: Env, s: State, e: Event)
    requires Sound(env, s) && env.started && env.erpEnable && s.ap.erp.Some?
    ensures
      var ap := Step(env, s, e).ap;
      && ap.erp.Some?
      && ((s.ap.counts.nonErp > 0) != (ap.counts.nonErp > 0) ==> BarkerRight(ap))
      && ((s.ap.counts.nonErp > 0) == (ap.counts.nonErp > 0) ==> ap.erp.value.barker == s.ap.erp.value.barker)
  {
    CountsStep(env, s, e);
    CountsAreNatural(s, NonErp);
    CountsAreNatural(Step(env, s, e), NonErp);
    hide Counted, HtUpdate, JoinBits, ErpShows;
  }

  /** From a fresh access point, over every run: the Barker bit tells whether there were stations
      without short preambles when the presence of non-ERP stations last changed. */
  lemma {:induction false} BarkerIsOfLastTurn(env: Env, s: State, es: seq<Event>) returns (k: nat)
    requires Fresh(s) && env.started && env.erpEnable && s.ap.erp.Some? && !s.ap.erp.value.barker
    ensures LastTurn(env, s, es, k)
    ensures
      var ap := Run(env, s, es).ap;
      ap.erp.Some? && ap.erp.value.barker == (k > 0 && Run(env, s, es[..k]).ap.counts.noShortPreamble > 0)
    decreases |es|
  {
    FreshIsSound(env, s);
    if es == [] {
      return 0;
    }
    var n := |es| - 1;
    var front := es[..n];
    k := BarkerIsOfLastTurn(env, s, front);
    hide Step, BarkerRight, Fresh, Sound;
    EveryRun(env, s, front);
    RunTo(env, s, es, n);
    StepTurns(env, Run(env, s, front), es[n]);
    assert es[..n + 1] == es;
    if ErpTurns(env, s, es, n) {
      k := n + 1;
      TurnedRight(Run(env, s, es).ap);
    } else {
      TurnsOfFront(env, s, es, k);
      assert front[..k] == es[..k];
    }
  }

  lemma TurnedRight(ap: Ap)
    ensures BarkerRight(ap) && ap.erp.Some? ==> ap.erp.value.barker == (ap.counts.noShortPreamble > 0)
  {
  }

  lemma TurnsOfFront(env: Env, s: State, es: seq<Event>, k: nat)
    requires es != [] && LastTurn(env, s, es[..|es| - 1], k) && !ErpTurns(env, s, es, |es| - 1)
    ensures LastTurn(env, s, es, k)
  {
    hide Run;
    var front := es[..|es| - 1];
    forall i: nat | i < |front| ensures ErpTurns(env, s, front, i) <==> ErpTurns(env, s, es, i) {
      assert front[..i] == es[..i] && front[..i + 1] == es[..i + 1];
    }
  }

  /** So a fresh access point that an ERP station without short preambles joins does not show it. */
  lemma BarkerMissing(env: Env, s: State, m: mac, c: Caps)
    requires Fresh(s) && s.ap.erp.Some? && !s.ap.erp.value.barker && !c.shortPreamble && !c.nonErp
    ensures
      var ap := Step(env, s, Join(m, c)).ap;
      ap.counts.noShortPreamble == 1 && ap.erp.Some? && !ap.erp.value.barker
  {
    hide HtUpdate, ErpUpdate;
    assert BitsOf(s, m) == NO_BITS;
    var after := JoinBits(NO_BITS, c);
    assert Recount(NO_COUNTS, NO_BITS, after).noShortPreamble == 1;
    assert !Crosses(Recount(NO_COUNTS, NO_BITS, after).nonErp, NO_BITS.nonErp, after.nonErp);
  }

  // ---------------------------------------------------------------------------
  // Bits and histories
  // ---------------------------------------------------------------------------

  /** What a station with these capabilities is restricted by. */
  predicate Meets(c: Caps, l: Limit) {
    match l
    case NoShortPreamble => !c.shortPreamble
    case NonErp => c.nonErp
    case NoShortSlot => !c.shortSlot
    case NoGreenfield => c.ht && !c.greenfield
    case NoHt => !c.ht
    case Ht20MHz => c.ht && !c.width40
  }

  ghost predicate StatedAt(es: seq<Event>, i: nat, m: mac, l: Limit) {
    i < |es| && es[i].Join? && es[i].sta == m && Meets(es[i].caps, l)
  }

  /** Some association of the station since it last left stated the restriction. */
  ghost predicate StatedSince(es: seq<Event>, m: mac, l: Limit) {
    exists i: nat :: StatedAt(es, i, m, l) && forall j :: i < j < |es| ==> es[j] != Leave(m)
  }

  /** The station's last word was an association that stated the restriction. */
  ghost predicate StatedLast(es: seq<Event>, m: mac, l: Limit) {
    exists i: nat :: StatedAt(es, i, m, l) && forall j :: i < j < |es| ==> es[j].sta != m
  }

  /** The two restrictions a new association does not lift. */
  predicate Sticky(l: Limit) {
    l == NoGreenfield || l == Ht20MHz
  }

  /** What the history says of a restriction of a station. */
  ghost predicate Stated(es: seq<Event>, m: mac, l: Limit) {
    if Sticky(l) then StatedSince(es, m, l) else StatedLast(es, m, l)
  }

  /** One more event: what it states, and what it leaves of the past. */
  lemma StatedSnoc(es: seq<Event>, e: Event, m: mac, l: Limit)
    ensures Stated(es + [e], m, l) <==>
            if e.sta != m then Stated(es, m, l)
            else e.Join? && (Meets(e.caps, l) || (Sticky(l) && Stated(es, m, l)))
  {
    var more, n := es + [e], |es|;
    assert more[n] == e && forall i :: 0 <= i < n ==> more[i] == es[i];
    forall i: nat ensures StatedAt(more, i, m, l) <==> if i == n then e.Join? && e.sta == m && Meets(e.caps, l)
                                                      else StatedAt(es, i, m, l) {
    }
    hide Meets, StatedAt;
    if Sticky(l) {
      SinceSnoc(es, e, m, l);
    } else {
      LastSnoc(es, e, m, l);
    }
  }

  lemma SinceSnoc(es: seq<Event>, e: Event, m: mac, l: Limit)
    requires forall i: nat :: StatedAt(es + [e], i, m, l) <==>
               if i == |es| then e.Join? && e.sta == m && Meets(e.caps, l) else StatedAt(es, i, m, l)
    ensures StatedSince(es + [e], m, l) <==>
            e != Leave(m) && ((e.sta == m && Meets(e.caps, l)) || StatedSince(es, m, l))
  {
    hide Meets;
    var more, n := es + [e], |es|;
    if StatedSince(more, m, l) {
      var i: nat :| StatedAt(more, i, m, l) && forall j :: i < j < |more| ==> more[j] != Leave(m);
      if i < n {
        assert more[n] == e;
        assert forall j :: i < j < n ==> es[j] == more[j];
      }
    }
    if e.Join? && e.sta == m && Meets(e.caps, l) {
      assert StatedAt(more, n, m, l);
    }
    if e != Leave(m) && StatedSince(es, m, l) {
      var i: nat :| StatedAt(es, i, m, l) && forall j :: i < j < |es| ==> es[j] != Leave(m);
      assert StatedAt(more, i, m, l) && forall j :: i < j < |more| ==> more[j] != Leave(m);
    }
  }

  lemma LastSnoc(es: seq<Event>, e: Event, m: mac, l: Limit)
    requires forall i: nat :: StatedAt(es + [e], i, m, l) <==>
               if i == |es| then e.Join? && e.sta == m && Meets(e.caps, l) else StatedAt(es, i, m, l)
    ensures StatedLast(es + [e], m, l) <==>
            if e.sta == m then e.Join? && Meets(e.caps, l) else StatedLast(es, m, l)
  {
    hide Meets;
    var more, n := es + [e], |es|;
    if StatedLast(more, m, l) {
      var i: nat :| StatedAt(more, i, m, l) && forall j :: i < j < |more| ==> more[j].sta != m;
      if i < n {
        assert more[n] == e;
        assert forall j :: i < j < n ==> es[j] == more[j];
      }
    }
    if e.Join? && e.sta == m && Meets(e.caps, l) {
      assert StatedAt(more, n, m, l);
    }
    if e.sta != m && StatedLast(es, m, l) {
      var i: nat :| StatedAt(es, i, m, l) && forall j :: i < j < |es| ==> es[j].sta != m;
      assert StatedAt(more, i, m, l) && forall j :: i < j < |more| ==> more[j].sta != m;
    }
  }

  lemma StepSets(env: Env, s: State, e: Event, m: mac, l: Limit)
    ensures IsSet(BitsOf(Step(env, s, e), m), l) <==>
            if e.sta != m then IsSet(BitsOf(s, m), l)
            else e.Join? && (Meets(e.caps, l) || (Sticky(l) && IsSet(BitsOf(s, m), l)))
  {
    hide Changed;
  }

  /** Over every run from a fresh access point: being without greenfield, or limited to 20 MHz, is set
      for a station exactly if it stated so at some association since it last left; every
      other restriction, exactly if its last word stated it. */
  lemma {:induction false} BitsTellHistory(env: Env, s: State, es: seq<Event>, m: mac, l: Limit)
    requires Fresh(s)
    ensures IsSet(BitsOf(Run(env, s, es), m), l) <==> Stated(es, m, l)
    decreases |es|
  {
    if es != [] {
      hide Step, Stated, IsSet, Meets, Fresh;
      var n := |es| - 1;
      BitsTellHistory(env, s, es[..n], m, l);
      assert es[..n] + [es[n]] == es;
      RunSnoc(env, s, es[..n], es[n]);
      StepSets(env, Run(env, s, es[..n]), es[n], m, l);
      StatedSnoc(es[..n], es[n], m, l);
    }
  }

  /** Some station holds the restriction. */
  ghost predicate Anyone(es: seq<Event>, l: Limit) {
    exists m: mac :: Stated(es, m, l)
  }

  /** Some station's last word states it. */
  ghost predicate AnyoneNow(es: seq<Event>, l: Limit) {
    exists m: mac :: StatedLast(es, m, l)
  }

  lemma CountTells(env: Env, s: State, es: seq<Event>, l: Limit)
    requires Fresh(s)
    ensures CountOf(Run(env, s, es).ap.counts, l) > 0 <==> Anyone(es, l)
  {
    FreshIsSound(env, s);
    EveryRun(env, s, es);
    var t := Run(env, s, es);
    var h := Holders(t.stations, l);
    assert CountOf(t.ap.counts, l) == |h|;
    hide Stated, Run, Fresh;
    if |h| > 0 {
      var m := Pick(h);
      BitsTellHistory(env, s, es, m, l);
      assert Stated(es, m, l);
    }
    if Anyone(es, l) {
      var m: mac :| Stated(es, m, l);
      BitsTellHistory(env, s, es, m, l);
      assert m in h by {
        assert !IsSet(NO_BITS, l);
      }
    }
  }

  /** The mode called for by whether there are stations with each restriction. */
  function ModeFor(env: Env, noHt: bool, noGf: bool, ht20: bool, rest: nat): HtMode {
    HtMode(if noHt || noGf then OP_MODE_MIXED
           else if env.apWidth40 && ht20 then OP_MODE_20MHZ_HT_STA_ASSOCED
           else if env.olbcHt then OP_MODE_MAY_BE_LEGACY_STAS
           else OP_MODE_PURE,
           noGf, noHt || env.olbcHt, rest)
  }

  /** After any run, the HT operation mode is the one the stations' histories call for. */
  lemma ModeTellsHistory(env: Env, s: State, es: seq<Event>)
    requires Fresh(s) && !env.htOption && es != []
    ensures
      Run(env, s, es).ap.htMode ==
      ModeFor(env, Anyone(es, NoHt), Anyone(es, NoGreenfield), Anyone(es, Ht20MHz), s.ap.htMode.rest)
  {
    var n := |es| - 1;
    assert es[..n] + [es[n]] == es;
    RunSnoc(env, s, es[..n], es[n]);
    FreshIsSound(env, s);
    EveryRun(env, s, es[..n]);
    ModeIsSettled(env, Run(env, s, es[..n]), es[n]);
    RestStays(env, s, es[..n]);
    CountTells(env, s, es, NoHt);
    CountTells(env, s, es, NoGreenfield);
    CountTells(env, s, es, Ht20MHz);
    hide Run, Step, Fresh, Anyone, Sound;
  }

  lemma {:induction false} RestStays(env: Env, s: State, es: seq<Event>)
    ensures Run(env, s, es).ap.htMode.rest == s.ap.htMode.rest
    decreases |es|
  {
    if es != [] {
      RestStays(env, Step(env, s, es[0]), es[1..]);
    }
  }

  /** That is the mode the stations' last words call for exactly if no restriction lingers that decides
      it: a lifted lack of greenfield of the last station that had it, or, where the mode is not mixed
      anyway, a lifted limit to 20 MHz. */
  lemma ModeRightExactly(env: Env, s: State, es: seq<Event>)
    requires Fresh(s) && !env.htOption && es != []
    ensures
      var gf, gfNow := Anyone(es, NoGreenfield), AnyoneNow(es, NoGreenfield);
      var narrow, narrowNow := Anyone(es, Ht20MHz), AnyoneNow(es, Ht20MHz);
      var noHt := AnyoneNow(es, NoHt);
      (Run(env, s, es).ap.htMode == ModeFor(env, noHt, gfNow, narrowNow, s.ap.htMode.rest))
      <==> gf == gfNow && (noHt || gfNow || !env.apWidth40 || narrow == narrowNow)
  {
    ModeTellsHistory(env, s, es);
    assert Anyone(es, NoHt) == AnyoneNow(es, NoHt) by {
      if Anyone(es, NoHt) {
        var m: mac :| Stated(es, m, NoHt);
        assert StatedLast(es, m, NoHt);
      }
      if AnyoneNow(es, NoHt) {
        var m: mac :| StatedLast(es, m, NoHt);
        assert Stated(es, m, NoHt);
      }
    }
    hide Run, Fresh, Anyone, AnyoneNow;
  }

  /** It can go wrong: an HT station re-associates, with greenfield and 40 MHz this time. */
  lemma ModeLingers(env: Env, s: State, m: mac, c: Caps)
    requires Fresh(s) && !env.htOption && c.ht && c.greenfield && c.width40
    ensures
      var es := [Join(m, c.(greenfield := false)), Join(m, c)];
      && Run(env, s, es).ap.htMode.opMode == OP_MODE_MIXED
      && !AnyoneNow(es, NoHt) && !AnyoneNow(es, NoGreenfield) && !AnyoneNow(es, Ht20MHz)
  {
    var es := [Join(m, c.(greenfield := false)), Join(m, c)];
    ModeTellsHistory(env, s, es);
    assert StatedAt(es, 0, m, NoGreenfield) && forall j :: 0 < j < |es| ==> es[j] != Leave(m);
    assert Stated(es, m, NoGreenfield);
    hide Run, Fresh;
  }
}
