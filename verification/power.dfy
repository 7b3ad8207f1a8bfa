/**
  The firmware power handshake of core/rtw_pwrctrl.c, with CONFIG_LPS_LCLK and
  CONFIG_LPS_RPWM_TIMER.  The driver asks for a power level by writing RPWM; going from
  below S2 to S2 or above, it asks for an acknowledgement, which arrives as a CPWM report.

  `Power` is the state behind the power lock, its functions say what one locked region does
  to it, and class PwrCtrl is the code.
 */
module PowerSpec {

  const S0 := 1
  const S2 := 2
  const S3 := 4
  const S4 := 12
  const PS_MODE_ACTIVE := 0
  const LEVELS := 16          // PS_STATE keeps four bits

  datatype Task = Xmit | Recv | Cmd | Evt

  /** One write of the RPWM register; `idle` records whether no task was registered then. */
  datatype Issue = Issue(level: nat, toggle: nat, ack: bool, idle: bool)

  datatype Power = Power(
    rpwm: nat,                // level last asked for
    cpwm: nat,                // level the firmware is believed to be in
    tog: nat,                 // 0 or 0x80
    alives: set<Task>,
    pwrMode: nat,
    fwInPS: bool,
    rfOn: bool,               // btcoex_rfon
    present: bool,            // not surprise-removed, hardware initialised
    stopped: bool,            // bDriverStopped
    timerArmed: bool,
    owed: bool,               // the last write asked for an acknowledgement that has not come
    issued: seq<Issue>)

  // ---------------------------------------------------------------------------
  // The locked regions
  // ---------------------------------------------------------------------------

  function Level(p: Power, pslv: nat): nat {
    if p.rfOn && pslv % LEVELS < S4 then S3 else pslv % LEVELS
  }

  /** rtw_set_rpwm; `forced` is the re-send after a timeout. */
  function SetRpwm(p: Power, pslv: nat, forced: bool): Power {
    var level := Level(p, pslv);
    if !forced && (p.rpwm == level || (p.rpwm >= S2 && level >= S2)) then p
    else if !p.present then p.(cpwm := S4)
    else if p.stopped && level < S2 then p
    else
      var ack := p.cpwm < S2 && level >= S2;
      p.(rpwm := level, cpwm := if ack then p.cpwm else level,
         tog := (p.tog + 0x80) % 0x100,
         timerArmed := p.timerArmed || ack, owed := ack,
         issued := p.issued + [Issue(level, p.tog, ack, p.alives == {})])
  }

  /** rtw_register_tx_alive and rtw_register_cmd_alive. */
  function Register(p: Power, t: Task): (r: (Power, bool)) {
    var q := p.(alives := p.alives + {t});
    var pslv := if p.rfOn then S3 else S2;
    if q.fwInPS && q.cpwm < pslv then
      (if q.rpwm < pslv then SetRpwm(q, pslv, false) else q, q.cpwm >= S2)
    else (q, true)
  }

  /** rtw_unregister_tx_alive and rtw_unregister_cmd_alive. */
  function Unregister(p: Power, t: Task): Power {
    var q := p.(alives := p.alives - {t});
    if q.pwrMode != PS_MODE_ACTIVE && q.fwInPS && q.alives == {} && q.cpwm > S0 then SetRpwm(q, S0, false) else q
  }

  /** cpwm_int_hdl; the second result says whether the command semaphore is raised. */
  function CpwmInt(p: Power, state: nat): (Power, bool) {
    if p.rpwm < S2 then (p, false)
    else
      var q := p.(cpwm := state % LEVELS, owed := p.owed && state % LEVELS < S2);
      (q, q.cpwm >= S2 && Cmd in q.alives)
  }

  /** The locked part of rtw_set_ps_mode.  `oppPs` is the peer-to-peer opportunistic flag and
      `ready` the outcome of PS_RDY_CHECK. */
  function SetPsMode(p: Power, mode: nat, oppPs: bool, ready: bool): Power {
    if mode == PS_MODE_ACTIVE then
      if oppPs then p else SetRpwm(p.(pwrMode := mode), S4, false).(fwInPS := false)
    else if ready then
      var q := p.(fwInPS := true, pwrMode := mode);
      if q.alives == {} then SetRpwm(q, S0, false) else q
    else p
  }

  predicate HandshakeDone(p: Power) {
    p.rpwm == p.cpwm || p.cpwm >= S2
  }

  /** The second locked region of rpwmtimeout_workitem_callback. */
  function Resend(p: Power): Power {
    if HandshakeDone(p) then p else SetRpwm(p, p.rpwm, true)
  }

  // ---------------------------------------------------------------------------
  // What every region keeps
  // ---------------------------------------------------------------------------

  /** An acknowledgement is awaited: S2 or above was asked for and not yet confirmed. */
  predicate Waiting(p: Power) {
    p.rpwm >= S2 && p.cpwm < S2
  }

  ghost predicate Sound(p: Power) {
    && p.present && !p.stopped
    && p.rpwm < LEVELS && p.cpwm < LEVELS && (p.tog == 0 || p.tog == 0x80)
    && (p.cpwm < S2 ==> p.rpwm == p.cpwm || (p.rpwm >= S2 && p.owed))
    && LowOnlyWhenIdle(p.issued)
    && Alternates(p.issued, p.tog)
  }

  /** A level below S2 was asked for only while no task was registered. */
  ghost predicate LowOnlyWhenIdle(issued: seq<Issue>) {
    forall i :: 0 <= i < |issued| && issued[i].level < S2 ==> issued[i].idle
  }

  /** Toggle bits alternate, starting from 0x80, and `next` is the one to use next. */
  ghost predicate Alternates(issued: seq<Issue>, next: nat) {
    && (forall i :: 0 <= i < |issued| ==> issued[i].toggle == if i % 2 == 0 then 0x80 else 0)
    && next == if |issued| % 2 == 0 then 0x80 else 0
  }

  /** What the callers of rtw_set_rpwm owe it: a level below S2 only when idle, unless the
      radio is pinned on. */
  lemma SetRpwmKeeps(p: Power, pslv: nat, forced: bool)
    requires Sound(p)
    requires pslv % LEVELS < S2 ==> p.alives == {}
    ensures
      var q := SetRpwm(p, pslv, forced);
      && Sound(q) && p.issued <= q.issued
      && (p.timerArmed ==> q.timerArmed)
      && (Waiting(q) ==> Waiting(p) || q.timerArmed)
      && (forced && Waiting(p) && pslv % LEVELS >= S2 ==> Waiting(q) && q.timerArmed)
      && (p.cpwm < S2 ==> q.cpwm < S2)
      && (p.alives != {} && p.cpwm >= S2 ==> q.cpwm >= S2)
      && (p.alives != {} && Waiting(p) ==> Waiting(q))
      && q.alives == p.alives && q.fwInPS == p.fwInPS && q.pwrMode == p.pwrMode
  {
    var q := SetRpwm(p, pslv, forced);
    if q != p {
      assert q.issued[..|p.issued|] == p.issued;
    }
  }

  /** What registering promises.  On failure the caller waits for an acknowledgement that has
      been asked for.  Success means the firmware is awake exactly when it was, or when it is
      recorded to be in power save; a firmware told to leave power save but still asleep
      passes for awake. */
  lemma RegisterEffect(p: Power, t: Task)
    requires Sound(p)
    ensures
      var (q, ok) := Register(p, t);
      && Sound(q) && t in q.alives && q.alives == p.alives + {t}
      && (!ok ==> Waiting(q) && q.owed)
      && (ok ==> (q.cpwm >= S2 <==> (p.fwInPS || p.cpwm >= S2)))
      && (Waiting(q) ==> Waiting(p) || q.timerArmed)
      && (Waiting(p) ==> Waiting(q)) && (p.timerArmed ==> q.timerArmed)
      && (p.cpwm >= S2 <==> q.cpwm >= S2)
  {
    var q0 := p.(alives := p.alives + {t});
    SetRpwmKeeps(q0, if p.rfOn then S3 else S2, false);
  }

  /** rtw_init_pwrctrl_priv. */
  const INITIAL := Power(0, S4, 0x80, {}, PS_MODE_ACTIVE, false, false, true, false, false, false, [])

  /** The case the code lets through: enter power save, leave it, and register before the
      acknowledgement comes. */
  lemma RegisterTooEarly()
    ensures
      var left := SetPsMode(SetPsMode(INITIAL, 2, false, true), PS_MODE_ACTIVE, false, true);
      var (q, ok) := Register(left, Cmd);
      Sound(left) && ok && q.cpwm < S2
  {
    SetPsModeEffect(INITIAL, 2, false, true);
    var asleep := SetPsMode(INITIAL, 2, false, true);
    assert asleep.cpwm == S0;
    SetPsModeEffect(asleep, PS_MODE_ACTIVE, false, true);
    RegisterEffect(SetPsMode(asleep, PS_MODE_ACTIVE, false, true), Cmd);
  }

  lemma UnregisterEffect(p: Power, t: Task)
    requires Sound(p)
    ensures
      var q := Unregister(p, t);
      && Sound(q) && q.alives == p.alives - {t}
      && (q.alives != {} ==> (Waiting(q) <==> Waiting(p)) && q.cpwm == p.cpwm)
      && (Waiting(q) ==> Waiting(p)) && (p.timerArmed ==> q.timerArmed)
      && (p.cpwm < S2 ==> q.cpwm < S2)
  {
    var q0 := p.(alives := p.alives - {t});
    if q0.alives == {} {
      SetRpwmKeeps(q0, S0, false);
    }
  }

  lemma CpwmEffect(p: Power, state: nat)
    requires Sound(p) && state % LEVELS >= S2
    ensures
      var (q, up) := CpwmInt(p, state);
      && Sound(q) && !Waiting(q) && q.alives == p.alives
      && (up <==> p.rpwm >= S2 && Cmd in p.alives)
      && (p.cpwm >= S2 ==> q.cpwm >= S2)
      && (p.rpwm >= S2 ==> q.cpwm == state % LEVELS && !q.owed) && (p.rpwm < S2 ==> q == p)
      && q == p.(cpwm := q.cpwm, owed := q.owed)
  {
  }

  lemma SetPsModeEffect(p: Power, mode: nat, oppPs: bool, ready: bool)
    requires Sound(p)
    ensures
      var q := SetPsMode(p, mode, oppPs, ready);
      && Sound(q) && q.alives == p.alives
      && (p.alives != {} ==> (Waiting(p) ==> Waiting(q)) && (p.cpwm >= S2 ==> q.cpwm >= S2))
      && (Waiting(q) ==> Waiting(p) || q.timerArmed) && (p.timerArmed ==> q.timerArmed)
      && (p.cpwm < S2 ==> q.cpwm < S2)
  {
    if mode == PS_MODE_ACTIVE {
      SetRpwmKeeps(p.(pwrMode := mode), S4, false);
    } else if p.alives == {} {
      SetRpwmKeeps(p.(fwInPS := true, pwrMode := mode), S0, false);
    }
  }

  /** A re-send repeats a level of S2 or above, asks again for the acknowledgement, and
      arms the timer again. */
  lemma ResendEffect(p: Power)
    requires Sound(p)
    ensures
      var q := Resend(p);
      && Sound(q) && q.alives == p.alives
      && (Waiting(q) <==> Waiting(p)) && (Waiting(q) ==> q.timerArmed)
      && (p.timerArmed ==> q.timerArmed)
      && (p.cpwm < S2 <==> q.cpwm < S2)
      && (q.issued != p.issued ==> q.issued[|q.issued| - 1].level >= S2 && q.issued[|q.issued| - 1].ack)
  {
    if !HandshakeDone(p) {
      SetRpwmKeeps(p, p.rpwm, true);
    }
  }

  /** With the hardware gone, the re-send declares the firmware awake without any report. */
  lemma ResendWithoutHardware(p: Power)
    ensures
      Waiting(p) && p.rpwm < LEVELS ==>
        (Resend(p).cpwm >= S2 <==> !p.present)
  {
  }

  // ---------------------------------------------------------------------------
  // Exactly what is asked of the firmware
  // ---------------------------------------------------------------------------

  /** One more RPWM write, of `level`.  It asks for an acknowledgement exactly if it wakes a sleeping
      firmware; without one, the level counts as reached. */
  ghost predicate Wrote(p: Power, q: Power, level: nat) {
    var ack := p.cpwm < S2 && level >= S2;
    && q.issued == p.issued + [Issue(level, p.tog, ack, q.alives == {})] && q.tog != p.tog
    && q.rpwm == level && q.owed == ack
    && (if ack then q.cpwm == p.cpwm && q.timerArmed else q.cpwm == level && q.timerArmed == p.timerArmed)
  }

  /** Nothing was asked. */
  predicate Untouched(p: Power, q: Power) {
    && q.rpwm == p.rpwm && q.cpwm == p.cpwm && q.tog == p.tog && q.issued == p.issued
    && q.timerArmed == p.timerArmed && q.owed == p.owed
  }

  predicate SameMode(p: Power, q: Power) {
    && q.pwrMode == p.pwrMode && q.fwInPS == p.fwInPS && q.rfOn == p.rfOn
    && q.present == p.present && q.stopped == p.stopped
  }

  lemma SetRpwmWrites(p: Power, pslv: nat, forced: bool)
    requires p.present && !p.stopped && (p.tog == 0 || p.tog == 0x80)
    ensures
      var q, level := SetRpwm(p, pslv, forced), Level(p, pslv);
      && q.alives == p.alives && SameMode(p, q)
      && (if forced || (p.rpwm != level && (p.rpwm < S2 || level < S2)) then Wrote(p, q, level) else q == p)
  {
  }

  /** A stopped driver asks for no level below S2. */
  lemma StoppedAsksNothingLow(p: Power, pslv: nat, forced: bool)
    requires p.present && p.stopped
    ensures
      var q, level := SetRpwm(p, pslv, forced), Level(p, pslv);
      && (level < S2 ==> q == p)
      && (level >= S2 ==> q == SetRpwm(p.(stopped := false), pslv, forced).(stopped := true))
  {
  }

  /** Registering asks for S2, or S3 with the radio pinned on, exactly in power save with the firmware
      below that and told to sleep; it is refused exactly in power save with the firmware asleep. */
  lemma RegisterExactly(p: Power, t: Task)
    requires Sound(p)
    ensures
      var (q, ok) := Register(p, t);
      var level := if p.rfOn then S3 else S2;
      && q.alives == p.alives + {t} && SameMode(p, q)
      && (ok <==> !(p.fwInPS && p.cpwm < S2))
      && (if p.fwInPS && p.rpwm < S2 && p.cpwm < level then Wrote(p, q, level) else Untouched(p, q))
  {
    hide SetRpwm, LowOnlyWhenIdle, Alternates;
    SetRpwmWrites(p.(alives := p.alives + {t}), if p.rfOn then S3 else S2, false);
  }

  /** Unregistering asks for S0 exactly if the last task goes, in power save, from a firmware above S0 last
      asked for another level.  With the radio pinned on it can only ask for S3. */
  lemma UnregisterExactly(p: Power, t: Task)
    requires Sound(p)
    ensures
      var q := Unregister(p, t);
      var idle := p.pwrMode != PS_MODE_ACTIVE && p.fwInPS && p.alives - {t} == {} && p.cpwm > S0;
      && q.alives == p.alives - {t} && SameMode(p, q)
      && (if idle && !p.rfOn && p.rpwm != S0 then Wrote(p, q, S0)
          else if idle && p.rfOn && p.rpwm < S2 then Wrote(p, q, S3)
          else Untouched(p, q))
  {
    hide SetRpwm, LowOnlyWhenIdle, Alternates;
    SetRpwmWrites(p.(alives := p.alives - {t}), S0, false);
  }

  /** So the last task to go in power save leaves the firmware told to sleep, if and only if that was so
      before or the firmware counted as above S0: not while its acknowledgement is still to come. */
  lemma UnregisterSleepsExactly(p: Power, t: Task)
    requires Sound(p) && p.pwrMode != PS_MODE_ACTIVE && p.fwInPS && !p.rfOn && p.alives - {t} == {}
    ensures
      var q := Unregister(p, t);
      && (q.rpwm == S0 <==> p.rpwm == S0 || p.cpwm > S0)
      && (p.rpwm != S0 && p.cpwm > S0 ==> q.cpwm == S0 && |q.issued| == |p.issued| + 1)
  {
    UnregisterExactly(p, t);
  }

  /** Entering power save asks for S0 exactly if nobody is registered, leaving it for S4 exactly if a level
      below S2 was asked for last; the mode is as told, if it is taken at all. */
  lemma SetPsModeExactly(p: Power, mode: nat, oppPs: bool, ready: bool)
    requires Sound(p)
    ensures
      var q := SetPsMode(p, mode, oppPs, ready);
      && q.alives == p.alives && q.rfOn == p.rfOn && q.present == p.present && q.stopped == p.stopped
      && (mode == PS_MODE_ACTIVE ==>
            if oppPs then q == p
            else
              && q.pwrMode == PS_MODE_ACTIVE && !q.fwInPS
              && (if p.rpwm < S2 then Wrote(p, q, S4) else Untouched(p, q)))
      && (mode != PS_MODE_ACTIVE ==>
            if !ready then q == p
            else
              && q.pwrMode == mode && q.fwInPS
              && (if p.alives == {} && !p.rfOn && p.rpwm != S0 then Wrote(p, q, S0)
                  else if p.alives == {} && p.rfOn && p.rpwm < S2 then Wrote(p, q, S3)
                  else Untouched(p, q)))
  {
    hide SetRpwm, LowOnlyWhenIdle, Alternates;
    if mode == PS_MODE_ACTIVE {
      SetRpwmWrites(p.(pwrMode := mode), S4, false);
    } else {
      SetRpwmWrites(p.(fwInPS := true, pwrMode := mode), S0, false);
    }
  }

  /** A re-send is written exactly while an acknowledgement is awaited: the level last asked for, or S3 if the
      radio has been pinned on meanwhile. */
  lemma ResendExactly(p: Power)
    requires Sound(p)
    ensures
      var q := Resend(p);
      if Waiting(p)
      then Wrote(p, q, if p.rfOn && p.rpwm < S4 then S3 else p.rpwm) && q.alives == p.alives && SameMode(p, q)
      else q == p
  {
    hide SetRpwm, LowOnlyWhenIdle, Alternates;
    SetRpwmWrites(p, p.rpwm, true);
  }

  /** The handshake is done exactly when no acknowledgement is awaited. */
  lemma DoneOrWaiting(p: Power)
    requires Sound(p)
    ensures HandshakeDone(p) <==> !Waiting(p)
  {
  }
}

/** The code: struct pwrctrl_priv, and the functions that change it under its lock. */
module PowerCtrl {
  import opened PowerSpec

  class PwrCtrl {
    var rpwm: nat
    var cpwm: nat
    var tog: nat
    var alives: set<Task>
    var pwrMode: nat
    var fwInPS: bool
    var rfOn: bool
    var present: bool
    var stopped: bool
    var brpwmtimeout: bool
    var timerArmed: bool
    ghost var owed: bool
    ghost var issued: seq<Issue>

    /** rtw_init_pwrctrl_priv. */
    constructor ()
      ensures View() == INITIAL
      ensures !brpwmtimeout && Sound(View())
    {
      rpwm, cpwm, tog := 0, S4, 0x80;
      alives := {};
      pwrMode, fwInPS := PS_MODE_ACTIVE, false;
      rfOn, present, stopped := false, true, false;
      brpwmtimeout, timerArmed := false, false;
      owed, issued := false, [];
    }

    ghost function View(): Power
      reads this
    {
      Power(rpwm, cpwm, tog, alives, pwrMode, fwInPS, rfOn, present, stopped, timerArmed, owed, issued)
    }

    method SetRpwm(pslv0: nat)
      modifies this`rpwm, this`cpwm, this`tog, this`timerArmed, this`owed, this`issued
      ensures View() == PowerSpec.SetRpwm(old(View()), pslv0, brpwmtimeout)
    {
      var pslv := pslv0 % LEVELS;
      if rfOn {
        if pslv < S4 {
          pslv := S3;
        }
      }
      assert pslv == Level(View(), pslv0);
      hide Level;
      if !brpwmtimeout {
        if rpwm == pslv || (rpwm >= S2 && pslv >= S2) {
          return;
        }
      }
      if !present {
        cpwm := S4;
        return;
      }
      if stopped {
        if pslv < S2 {
          return;
        }
      }
      var ack := false;
      if cpwm < S2 && pslv >= S2 {
        ack := true;
      }
      rpwm := pslv;
      if ack {
        timerArmed := true;
      }
      issued := issued + [Issue(pslv, tog, ack, alives == {})];
      owed := ack;
      tog := (tog + 0x80) % 0x100;
      if !ack {
        cpwm := pslv;
      }
    }

    method Register(t: Task) returns (ok: bool)
      requires !brpwmtimeout
      modifies this
      ensures (View(), ok) == PowerSpec.Register(old(View()), t) && !brpwmtimeout
    {
      hide PowerSpec.SetRpwm;
      ok := true;
      var pslv := S2;
      if rfOn {
        pslv := S3;
      }
      alives := alives + {t};
      if fwInPS {
        if cpwm < pslv {
          if cpwm < S2 {
            ok := false;
          }
          if rpwm < pslv {
            SetRpwm(pslv);
          }
        }
      }
    }

    method Unregister(t: Task)
      requires !brpwmtimeout
      modifies this
      ensures View() == PowerSpec.Unregister(old(View()), t) && !brpwmtimeout
    {
      hide PowerSpec.SetRpwm;
      alives := alives - {t};
      if pwrMode != PS_MODE_ACTIVE && fwInPS {
        if alives == {} && cpwm > S0 {
          SetRpwm(S0);
        }
      }
    }

    method CpwmInt(state: nat) returns (up: bool)
      modifies this`cpwm, this`owed
      ensures (View(), up) == PowerSpec.CpwmInt(old(View()), state)
    {
      up := false;
      if rpwm < S2 {
        return;
      }
      cpwm := state % LEVELS;
      owed := owed && cpwm < S2;
      if cpwm >= S2 {
        if Cmd in alives {
          up := true;
        }
      }
    }

    method SetPsMode(mode: nat, oppPs: bool, ready: bool)
      requires !brpwmtimeout
      modifies this
      ensures View() == PowerSpec.SetPsMode(old(View()), mode, oppPs, ready) && !brpwmtimeout
    {
      hide PowerSpec.SetRpwm;
      if mode == PS_MODE_ACTIVE {
        if !oppPs {
          pwrMode := mode;
          assert View() == old(View()).(pwrMode := mode);
          SetRpwm(S4);
          fwInPS := false;
        }
      } else {
        if ready {
          fwInPS := true;
          pwrMode := mode;
          assert View() == old(View()).(fwInPS := true, pwrMode := mode);
          if alives == {} {
            SetRpwm(S0);
          }
        }
      }
    }

    method Resend()
      requires !brpwmtimeout
      modifies this
      ensures View() == PowerSpec.Resend(old(View())) && !brpwmtimeout
    {
      hide PowerSpec.SetRpwm;
      if rpwm == cpwm || cpwm >= S2 {
        return;
      }
      brpwmtimeout := true;
      SetRpwm(rpwm);
      brpwmtimeout := false;
    }
  }
}
