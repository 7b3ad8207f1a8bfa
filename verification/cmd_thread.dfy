/**
  The command thread of core/rtw_cmd.c running beside the power handshake: any number of
  enqueuers, the thread that drains the queue, other tasks, the CPWM interrupt, and the
  RPWM timer with its work item, interleaved at the grain of their locks.
 */
module CmdProtocol {
  import opened PowerSpec

  datatype Command = Command(code: nat, id: nat)

  /** Where rtw_cmd_thread stands. */
  datatype Pc =
    | Blocked          // at down(cmd_queue_sema)
    | Registering      // holds a token
    | Draining         // at _next
    | Unregistering    // found the queue empty

  /** Where the RPWM time-out work item stands, between its locked regions. */
  datatype Work = Idle | Probing | Resending

  datatype System = System(
    power: Power,
    queue: seq<Command>,
    sema: nat,
    adding: nat,                 // enqueuers between the list insertion and up()
    accepted: seq<Command>,      // everything ever put on the queue
    handled: seq<Command>,       // everything the thread has taken off it
    pc: Pc,
    beganAwake: bool,            // the firmware was awake when the thread began this drain
    workPending: bool,
    work: Work)

  const START := System(INITIAL, [], 0, 0, [], [], Blocked, false, false, Idle)

  datatype Event =
    | ListAdd(c: Command)                  // the locked half of rtw_enqueue_cmd
    | Up                                   // its other half
    | Thread                               // the command thread takes its next step
    | TaskOn(t: Task)                      // another task registers
    | TaskOff(t: Task)
    | PsMode(mode: nat, oppPs: bool, ready: bool)
    | PinRadio(on: bool)                   // Bluetooth coexistence
    | Cpwm(state: nat)
    | TimerFires
    | WorkStarts
    | WorkProbes(awake: bool)              // the register read between the two regions
    | WorkResends

  function ThreadStep(s: System): System {
    match s.pc
    case Blocked => if s.sema == 0 then s else s.(sema := s.sema - 1, pc := Registering)
    case Registering =>
      var (p, ok) := Register(s.power, Cmd);
      s.(power := p, pc := if ok then Draining else Blocked, beganAwake := p.cpwm >= S2)
    case Draining =>
      if s.queue == [] then s.(pc := Unregistering)
      else s.(handled := s.handled + [s.queue[0]], queue := s.queue[1..])
    case Unregistering => s.(power := Unregister(s.power, Cmd), pc := Blocked)
  }

  function Interrupt(s: System, state: nat): System {
    var (p, up) := CpwmInt(s.power, state);
    s.(power := p, sema := if up then s.sema + 1 else s.sema)
  }

  /** The other parties that change the power state under its lock. */
  function Others(p: Power, e: Event): Power {
    match e
    case TaskOn(Xmit) => Register(p, Xmit).0
    case TaskOn(Recv) => p.(alives := p.alives + {Recv})
    case TaskOn(Evt) => p.(alives := p.alives + {Evt})
    case TaskOff(Xmit) => Unregister(p, Xmit)
    case TaskOff(Recv) => p.(alives := p.alives - {Recv})
    case PsMode(mode, oppPs, ready) => SetPsMode(p, mode, oppPs, ready)
    case PinRadio(on) => p.(rfOn := on)
    case _ => p
  }

  function Step(s: System, e: Event): System {
    match e
    case ListAdd(c) => s.(queue := s.queue + [c], accepted := s.accepted + [c], adding := s.adding + 1)
    case Up => if s.adding == 0 then s else s.(adding := s.adding - 1, sema := s.sema + 1)
    case Thread => ThreadStep(s)
    case TaskOn(_) => s.(power := Others(s.power, e))
    case TaskOff(_) => s.(power := Others(s.power, e))
    case PsMode(_, _, _) => s.(power := Others(s.power, e))
    case PinRadio(_) => s.(power := Others(s.power, e))
    case Cpwm(state) => Interrupt(s, state)
    case TimerFires =>
      if !s.power.timerArmed then s
      else s.(power := s.power.(timerArmed := false), workPending := s.workPending || !HandshakeDone(s.power))
    case WorkStarts =>
      if !s.workPending || s.work != Idle then s
      else s.(workPending := false, work := if HandshakeDone(s.power) then Idle else Probing)
    case WorkProbes(awake) =>
      if s.work != Probing then s
      else if awake then Interrupt(s, S2).(work := Idle)
      else s.(work := Resending)
    case WorkResends =>
      if s.work != Resending then s else s.(power := Resend(s.power), work := Idle)
  }

  /** The firmware reports only levels of S2 and above. */
  predicate Expected(e: Event) {
    e.Cpwm? ==> e.state % LEVELS >= S2
  }

  // ---------------------------------------------------------------------------
  // The invariant
  // ---------------------------------------------------------------------------

  /** Someone is about to wake the thread: a token is there, an enqueuer is about to add one, or
      the firmware owes an acknowledgement whose handler will. */
  ghost predicate WillWake(s: System) {
    s.sema + s.adding > 0 || (s.pc == Blocked && AckWillWake(s.power))
  }

  ghost predicate AckWillWake(p: Power) {
    Cmd in p.alives && Waiting(p) && p.owed
  }

  /** The acknowledgement is chased: the timer is set, or its work item is on the way. */
  ghost predicate Chased(s: System) {
    s.power.timerArmed || s.workPending || s.work != Idle
  }

  ghost predicate Inv(s: System) {
    && Sound(s.power)
    && s.accepted == s.handled + s.queue
    && (s.queue != [] && (s.pc == Blocked || s.pc == Unregistering) ==> WillWake(s))
    && (Waiting(s.power) ==> Chased(s))
    && (s.pc == Draining || s.pc == Unregistering ==>
          Cmd in s.power.alives && (s.beganAwake ==> s.power.cpwm >= S2))
  }

  lemma ThreadKeeps(s: System)
    requires Inv(s)
    ensures Inv(ThreadStep(s))
    ensures s.power.cpwm < S2 ==> ThreadStep(s).power.cpwm < S2
  {
    hide SetRpwm, Register, Unregister, LowOnlyWhenIdle, Alternates;
    match s.pc
    case Registering => RegisterEffect(s.power, Cmd);
    case Unregistering => UnregisterEffect(s.power, Cmd);
    case Blocked =>
    case Draining =>
      if s.queue != [] {
        assert s.queue == [s.queue[0]] + s.queue[1..];
      }
  }

  lemma InterruptKeeps(s: System, state: nat)
    requires Inv(s) && state % LEVELS >= S2
    ensures Inv(Interrupt(s, state)) && !Waiting(Interrupt(s, state).power)
  {
    CpwmEffect(s.power, state);
  }

  /** What another party may do to the power state without disturbing the thread. */
  ghost predicate Harmless(p: Power, q: Power) {
    && Sound(q)
    && (Cmd in p.alives <==> Cmd in q.alives)
    && (Waiting(q) ==> Waiting(p) || q.timerArmed)
    && (p.timerArmed ==> q.timerArmed)
    && (Cmd in p.alives ==> (Waiting(p) ==> Waiting(q)) && (p.cpwm >= S2 ==> q.cpwm >= S2))
  }

  lemma HarmlessKeeps(s: System, q: Power)
    requires Inv(s) && Harmless(s.power, q)
    ensures Inv(s.(power := q))
  {
    hide LowOnlyWhenIdle, Alternates;
  }

  lemma OthersHarmless(p: Power, e: Event)
    requires Sound(p)
    ensures Harmless(p, Others(p, e)) && (p.cpwm < S2 ==> Others(p, e).cpwm < S2)
  {
    hide SetRpwm, Register, Unregister, SetPsMode, LowOnlyWhenIdle, Alternates;
    match e
    case TaskOn(Xmit) => XmitOnHarmless(p);
    case TaskOff(Xmit) => XmitOffHarmless(p);
    case PsMode(mode, oppPs, ready) => PsModeHarmless(p, mode, oppPs, ready);
    case _ =>
  }

  lemma XmitOnHarmless(p: Power)
    requires Sound(p)
    ensures Harmless(p, Register(p, Xmit).0) && (p.cpwm < S2 ==> Register(p, Xmit).0.cpwm < S2)
  {
    hide Sound, Register;
    RegisterEffect(p, Xmit);
  }

  lemma PsModeHarmless(p: Power, mode: nat, oppPs: bool, ready: bool)
    requires Sound(p)
    ensures
      var q := SetPsMode(p, mode, oppPs, ready);
      Harmless(p, q) && (p.cpwm < S2 ==> q.cpwm < S2)
  {
    hide Sound, SetPsMode;
    SetPsModeEffect(p, mode, oppPs, ready);
  }

  lemma XmitOffHarmless(p: Power)
    requires Sound(p)
    ensures Harmless(p, Unregister(p, Xmit)) && (p.cpwm < S2 ==> Unregister(p, Xmit).cpwm < S2)
  {
    hide Sound, Unregister;
    UnregisterEffect(p, Xmit);
    assert Cmd in p.alives <==> Cmd in p.alives - {Xmit};
  }

  lemma OthersKeep(s: System, e: Event)
    requires Inv(s) && (e.TaskOn? || e.TaskOff? || e.PsMode? || e.PinRadio?)
    ensures Inv(Step(s, e))
    ensures s.power.cpwm < S2 ==> Step(s, e).power.cpwm < S2
  {
    hide Others, Harmless, LowOnlyWhenIdle, Alternates;
    OthersHarmless(s.power, e);
    HarmlessKeeps(s, Others(s.power, e));
  }

  lemma TimerKeeps(s: System, e: Event)
    requires Inv(s) && (e.TimerFires? || e.WorkStarts? || e.WorkProbes? || e.WorkResends?)
    ensures Inv(Step(s, e))
    ensures s.power.cpwm < S2 && !(e.WorkProbes? && e.awake && s.work == Probing) ==> Step(s, e).power.cpwm < S2
  {
    hide SetRpwm, Resend, Interrupt, LowOnlyWhenIdle, Alternates;
    match e
    case WorkProbes(awake) => InterruptKeeps(s, S2);
    case WorkResends => ResendEffect(s.power);
    case TimerFires =>
    case WorkStarts =>
  }

  lemma StepKeeps(s: System, e: Event)
    requires Inv(s) && Expected(e)
    ensures Inv(Step(s, e))
  {
    hide SetRpwm, Register, Unregister, CpwmInt, SetPsMode, Resend, ThreadStep, Interrupt, LowOnlyWhenIdle, Alternates;
    match e
    case ListAdd(c) => assert s.handled + (s.queue + [c]) == (s.handled + s.queue) + [c];
    case Up =>
    case Thread => ThreadKeeps(s);
    case Cpwm(state) => InterruptKeeps(s, state);
    case TaskOn(_) => OthersKeep(s, e);
    case TaskOff(_) => OthersKeep(s, e);
    case PsMode(_, _, _) => OthersKeep(s, e);
    case PinRadio(_) => OthersKeep(s, e);
    case TimerFires => TimerKeeps(s, e);
    case WorkStarts => TimerKeeps(s, e);
    case WorkProbes(_) => TimerKeeps(s, e);
    case WorkResends => TimerKeeps(s, e);
  }

  ghost function Run(s: System, es: seq<Event>): (t: System)
    requires Inv(s) && forall e :: e in es ==> Expected(e)
    ensures Inv(t)
    decreases |es|
  {
    if es == [] then s
    else
      StepKeeps(s, es[0]);
      Run(Step(s, es[0]), es[1..])
  }

  // ---------------------------------------------------------------------------
  // Over every run
  // ---------------------------------------------------------------------------

  /** No wake-up is lost: when the thread is blocked, no token is there and no enqueuer is on its
      way to add one, a command still queued means that the thread is registered, that S2
      or above has been asked for with an acknowledgement outstanding, and that the
      acknowledgement is being chased. */
  lemma NoLostWakeUp(es: seq<Event>)
    requires forall e :: e in es ==> Expected(e)
    ensures Inv(START)
    ensures
      var t := Run(START, es);
      t.pc == Blocked && t.sema == 0 && t.adding == 0 && t.queue != [] ==>
        Cmd in t.power.alives && t.power.rpwm >= S2 && t.power.cpwm < S2 && t.power.owed && Chased(t)
  {
  }

  /** Commands are handled in the order they were queued, none twice and none skipped. */
  lemma HandledInOrder(es: seq<Event>)
    requires forall e :: e in es ==> Expected(e)
    ensures Inv(START) && Run(START, es).handled + Run(START, es).queue == Run(START, es).accepted
  {
  }

  /** RPWM goes below S2 only when no task is registered, and toggle bits alternate. */
  lemma RpwmDiscipline(es: seq<Event>)
    requires forall e :: e in es ==> Expected(e)
    ensures Inv(START)
    ensures
      var issued := Run(START, es).power.issued;
      && (forall i :: 0 <= i < |issued| && issued[i].level < S2 ==> issued[i].idle)
      && (forall i :: 0 < i < |issued| ==> issued[i].toggle != issued[i - 1].toggle)
  {
    var issued := Run(START, es).power.issued;
    forall i | 0 < i < |issued| ensures issued[i].toggle != issued[i - 1].toggle {
      assert (i - 1) % 2 != i % 2;
    }
  }

  /** A drain that began with the firmware awake has it awake until the thread unregisters. */
  lemma AwakeWhileDraining(es: seq<Event>)
    requires forall e :: e in es ==> Expected(e)
    ensures Inv(START)
    ensures
      var t := Run(START, es);
      (t.pc == Draining || t.pc == Unregistering) && t.beganAwake ==> t.power.cpwm >= S2
  {
  }

  /** Only the CPWM handler, run by the interrupt or by the work item, brings cpwm from below
      S2 to S2 or above. */
  lemma OnlyCpwmWakes(s: System, e: Event)
    requires Inv(s) && Expected(e)
    requires s.power.cpwm < S2 <= Step(s, e).power.cpwm
    ensures e.Cpwm? || (e.WorkProbes? && e.awake && s.work == Probing)
  {
    hide Inv, Register, Unregister, CpwmInt, SetPsMode, Resend, ThreadStep, Interrupt;
    match e
    case Thread => ThreadKeeps(s);
    case TaskOn(_) => OthersKeep(s, e);
    case TaskOff(_) => OthersKeep(s, e);
    case PsMode(_, _, _) => OthersKeep(s, e);
    case PinRadio(_) => OthersKeep(s, e);
    case TimerFires => TimerKeeps(s, e);
    case WorkStarts => TimerKeeps(s, e);
    case WorkProbes(_) => TimerKeeps(s, e);
    case WorkResends => TimerKeeps(s, e);
    case _ =>
  }

  // ---------------------------------------------------------------------------
  // What the acknowledgement brings about
  // ---------------------------------------------------------------------------

  ghost function ThreadRun(s: System, k: nat): System
    decreases k
  {
    if k == 0 then s else ThreadRun(ThreadStep(s), k - 1)
  }

  lemma {:induction false} DrainsQueue(s: System)
    requires s.pc == Draining && s.accepted == s.handled + s.queue
    ensures
      var t := ThreadRun(s, |s.queue| + 1);
      t.pc == Unregistering && t.queue == [] && t.handled == s.accepted && t.power == s.power
    decreases |s.queue|
  {
    var t := ThreadStep(s);
    if s.queue == [] {
      assert ThreadRun(t, 0) == t;
      assert s.handled + s.queue == s.handled;
    } else {
      assert s.queue == [s.queue[0]] + s.queue[1..];
      DrainsQueue(t);
    }
  }

  /** From any state in which the thread waits for the acknowledgement, its arrival lets the thread
      alone finish every queued command, in as many steps as there are commands and
      three more. */
  lemma AckDrains(s: System, state: nat)
    requires Inv(s) && s.pc == Blocked && s.sema == 0 && s.adding == 0 && s.queue != []
    requires state % LEVELS >= S2
    ensures
      var t := ThreadRun(Step(s, Cpwm(state)), |s.queue| + 3);
      t.pc == Unregistering && t.queue == [] && t.handled == s.accepted && t.power.cpwm >= S2
  {
    CpwmEffect(s.power, state);
    var s1 := Step(s, Cpwm(state));
    assert s1.sema == 1;
    var s2 := ThreadStep(s1);
    RegisterEffect(s2.power, Cmd);
    var s3 := ThreadStep(s2);
    assert s3.pc == Draining by {
      assert !Waiting(s3.power);
    }
    DrainsQueue(s3);
    assert ThreadRun(s1, |s.queue| + 3) == ThreadRun(s2, |s.queue| + 2) == ThreadRun(s3, |s.queue| + 1);
  }

  /** The thread gets to its queue exactly if power save is not in force or the firmware is awake. */
  lemma GrantedExactly(s: System)
    requires Sound(s.power) && s.pc == Registering
    ensures
      var t := ThreadStep(s);
      && t.pc == (if s.power.fwInPS && s.power.cpwm < S2 then Blocked else Draining)
      && t == s.(power := t.power, pc := t.pc, beganAwake := t.power.cpwm >= S2)
  {
    hide Register;
    RegisterExactly(s.power, Cmd);
  }

  /** What other tasks do: transmission may have to wait or let the firmware sleep, reception and events only
      note that they are there.  Events never leave, and the radio is pinned without a word. */
  lemma TasksExactly(s: System, t: Task)
    requires Sound(s.power)
    ensures
      var on, off := Step(s, TaskOn(t)), Step(s, TaskOff(t));
      && (t != Cmd ==> on.power.alives == s.power.alives + {t})
      && (t == Xmit || t == Recv ==> off.power.alives == s.power.alives - {t})
      && on == s.(power := on.power) && off == s.(power := off.power)
      && (t != Xmit ==> && on.power == s.power.(alives := on.power.alives)
                        && off.power == s.power.(alives := off.power.alives))
      && (t == Cmd ==> on == s) && (t == Cmd || t == Evt ==> off == s)
    ensures forall pin: bool :: Step(s, PinRadio(pin)) == s.(power := s.power.(rfOn := pin))
  {
    hide Register, Unregister, LowOnlyWhenIdle, Alternates;
    RegisterExactly(s.power, Xmit);
    UnregisterExactly(s.power, Xmit);
  }

  /** The timer and its work item, step by step: an expiry starts the work item exactly if an
      acknowledgement is awaited, and the work item gives up exactly if it is not any more. */
  lemma TimerExactly(s: System)
    requires Sound(s.power)
    ensures
      && Step(s, TimerFires) ==
         (if s.power.timerArmed
          then s.(power := s.power.(timerArmed := false), workPending := s.workPending || Waiting(s.power)) else s)
      && Step(s, WorkStarts) ==
         (if s.workPending && s.work == Idle
          then s.(workPending := false, work := if Waiting(s.power) then Probing else Idle) else s)
      && Step(s, WorkProbes(false)) == (if s.work == Probing then s.(work := Resending) else s)
      && (s.work == Probing ==> Step(s, WorkProbes(true)) == Step(s, Cpwm(S2)).(work := Idle))
      && (s.work == Resending ==> Step(s, WorkResends) == s.(power := Resend(s.power), work := Idle))
  {
    DoneOrWaiting(s.power);
    hide Resend, CpwmInt, HandshakeDone, Waiting;
  }

  /** How many tokens the events add to the semaphore at most. */
  function TokensAdded(es: seq<Event>): nat {
    if es == [] then 0
    else (if es[0].ListAdd? || es[0].Cpwm? || es[0].WorkProbes? then 1 else 0) + TokensAdded(es[1..])
  }

  /** Every token stands for a command queued or a report: over every run there are no more of them, those
      that enqueuers are about to add included. */
  lemma {:induction false} TokensBounded(s: System, es: seq<Event>)
    requires Inv(s) && forall e :: e in es ==> Expected(e)
    ensures
      var t := Run(s, es);
      t.sema + t.adding <= s.sema + s.adding + TokensAdded(es)
    decreases |es|
  {
    if es != [] {
      StepKeeps(s, es[0]);
      TokenStep(s, es[0]);
      hide Step, Inv;
      TokensBounded(Step(s, es[0]), es[1..]);
    }
  }

  lemma TokenStep(s: System, e: Event)
    ensures
      var t := Step(s, e);
      t.sema + t.adding <= s.sema + s.adding + if e.ListAdd? || e.Cpwm? || e.WorkProbes? then 1 else 0
  {
    hide Register, Unregister, SetPsMode, Resend, Others;
  }

  /** With nobody else registered, a drained queue puts the firmware back to sleep: one write, of S0. */
  lemma SleepsAgain(s: System)
    requires Inv(s) && s.pc == Draining && s.power.alives == {Cmd}
    requires s.power.pwrMode != PS_MODE_ACTIVE && s.power.fwInPS && !s.power.rfOn
    requires s.power.cpwm >= S2 && s.power.rpwm >= S2
    ensures
      var t := ThreadRun(s, |s.queue| + 2);
      && t.pc == Blocked && t.queue == [] && t.handled == s.accepted && t.power.alives == {}
      && t.power.rpwm == S0 == t.power.cpwm
      && t.power.issued == s.power.issued + [Issue(S0, s.power.tog, false, true)]
  {
    DrainsQueue(s);
    ThreadRunSnoc(s, |s.queue| + 1);
    hide ThreadRun, Inv, Unregister;
    assert s.power.alives - {Cmd} == {};
    SoundOf(s);
    UnregisterExactly(s.power, Cmd);
  }

  lemma SoundOf(s: System)
    requires Inv(s)
    ensures Sound(s.power)
  {
  }

  lemma {:induction false} ThreadRunSnoc(s: System, k: nat)
    ensures ThreadRun(s, k + 1) == ThreadStep(ThreadRun(s, k))
    decreases k
  {
    hide ThreadStep;
    if k > 0 {
      ThreadRunSnoc(ThreadStep(s), k - 1);
    } else {
      assert ThreadRun(ThreadStep(s), 0) == ThreadStep(s);
    }
  }

  /** A task that registers in power save and leaves before the acknowledgement comes: the firmware wakes
      up for nobody, and stays awake. */
  lemma AwakeForNobody()
    ensures
      var p := SetPsMode(INITIAL, 2, false, true);
      var left := Unregister(Register(p, Xmit).0, Xmit);
      var (q, _) := CpwmInt(left, S2);
      q.alives == {} && q.fwInPS && q.pwrMode == 2 && q.cpwm == S2 == q.rpwm
  {
  }

  // ---------------------------------------------------------------------------
  // The acknowledgement among other events
  // ---------------------------------------------------------------------------

  /** The commands `goal` are handled, or will be with the thread's next `steps` steps: it is
      registered, the firmware is awake, and nothing on its way can stop it. */
  ghost predicate Serving(s: System, goal: seq<Command>, steps: nat) {
    && Inv(s) && goal <= s.accepted
    && (goal <= s.handled || (Unstoppable(s) && |goal| - |s.handled| + StepsAhead(s.pc) <= steps))
  }

  ghost predicate Unstoppable(s: System) {
    && Cmd in s.power.alives && s.power.cpwm >= S2
    && s.pc != Unregistering && (s.pc == Blocked ==> s.sema > 0)
  }

  /** Steps until the thread takes a command off the queue. */
  function StepsAhead(pc: Pc): nat {
    match pc case Blocked => 2 case Registering => 1 case _ => 0
  }

  lemma PrefixOfBoth<T>(a: seq<T>, b: seq<T>, c: seq<T>)
    requires a <= c && b <= c && |a| <= |b|
    ensures a <= b
  {
  }

  /** The thread comes a step nearer. */
  lemma ThreadServes(s: System, goal: seq<Command>, steps: nat)
    requires Serving(s, goal, steps)
    ensures Serving(ThreadStep(s), goal, if steps > 0 then steps - 1 else 0)
  {
    hide SetRpwm, Register, Unregister, LowOnlyWhenIdle, Alternates;
    ThreadKeeps(s);
    if goal <= s.handled {
    } else {
      if |goal| <= |s.handled| {
        PrefixOfBoth(goal, s.handled, s.accepted);
      }
      match s.pc
      case Registering => RegisterEffect(s.power, Cmd);
      case Blocked =>
      case Draining =>
    }
  }

  /** The other parties leave it its course. */
  lemma OthersServe(s: System, e: Event, goal: seq<Command>, steps: nat)
    requires Serving(s, goal, steps) && Expected(e) && !e.Thread?
    ensures Serving(Step(s, e), goal, steps)
  {
    hide SetRpwm, Register, Unregister, SetPsMode, Resend, Others, Inv, LowOnlyWhenIdle, Alternates;
    StepKeeps(s, e);
    InvSound(s);
    match e
    case TaskOn(_) => OthersHarmless(s.power, e);
    case TaskOff(_) => OthersHarmless(s.power, e);
    case PsMode(_, _, _) => OthersHarmless(s.power, e);
    case PinRadio(_) => OthersHarmless(s.power, e);
    case WorkResends => ResendEffect(s.power);
    case _ =>
  }

  lemma InvSound(s: System)
    requires Inv(s)
    ensures Sound(s.power)
  {
  }

  function ThreadSteps(es: seq<Event>): nat {
    if es == [] then 0 else (if es[0].Thread? then 1 else 0) + ThreadSteps(es[1..])
  }

  lemma {:induction false} RunServes(s: System, es: seq<Event>, goal: seq<Command>, steps: nat)
    requires Serving(s, goal, steps) && ThreadSteps(es) >= steps && forall e :: e in es ==> Expected(e)
    ensures Inv(s) && goal <= Run(s, es).handled
    decreases |es|
  {
    hide Step, Unstoppable;
    if es == [] {
      if |goal| <= |s.handled| {
        PrefixOfBoth(goal, s.handled, s.accepted);
      }
    } else {
      if es[0].Thread? {
        ThreadServes(s, goal, steps);
        assert Step(s, es[0]) == ThreadStep(s) by { ThreadIsStep(s); }
        RunServes(Step(s, es[0]), es[1..], goal, if steps > 0 then steps - 1 else 0);
      } else {
        OthersServe(s, es[0], goal, steps);
        RunServes(Step(s, es[0]), es[1..], goal, steps);
      }
    }
  }

  lemma ThreadIsStep(s: System)
    ensures Step(s, Thread) == ThreadStep(s)
  {
  }

  lemma InterruptIsStep(s: System, e: Event)
    ensures e.Cpwm? ==> Step(s, e) == Interrupt(s, e.state)
  {
  }

  /** From any wait, once the acknowledgement has come, every command queued by then is handled in
      whatever run follows, as soon as the thread has had two steps more than there are
      commands: enqueuers, other tasks, mode changes and the timer cannot stop it. */
  lemma AckServes(s: System, state: nat, es: seq<Event>)
    requires Inv(s) && s.pc == Blocked && s.sema == 0 && s.adding == 0 && s.queue != []
    requires state % LEVELS >= S2 && forall e :: e in es ==> Expected(e)
    requires ThreadSteps(es) >= |s.queue| + 2
    ensures
      var t := Step(s, Cpwm(state));
      Inv(t) && s.accepted <= Run(t, es).handled
  {
    var t := Step(s, Cpwm(state));
    InterruptKeeps(s, state);
    CpwmEffect(s.power, state);
    assert Unstoppable(t) && |s.accepted| == |s.handled| + |s.queue|;
    RunServes(t, es, s.accepted, |s.queue| + 2);
  }

  // ---------------------------------------------------------------------------
  // The hardware goes away
  // ---------------------------------------------------------------------------

  /** Once the hardware is gone, one re-send leaves a waiting thread blocked with nobody left to
      wake it; while it is there, none does. */
  lemma HardwareLossStrands(s: System)
    requires s.pc == Blocked && s.sema == 0 && s.adding == 0 && s.queue != []
    requires AckWillWake(s.power) && s.work == Resending && s.power.rpwm < LEVELS
    ensures
      var t := Step(s, WorkResends);
      t.pc == Blocked && t.sema == 0 && t.adding == 0 && (!WillWake(t) <==> !s.power.present)
  {
    ResendWithoutHardware(s.power);
  }

  /** All is as it should be but for the hardware. */
  ghost predicate InvGone(s: System) {
    !s.power.present && Inv(s.(power := s.power.(present := true)))
  }

  /** The thread waits for a token, commands are queued, and nobody is about to wake it. */
  ghost predicate Stranded(s: System) {
    s.pc == Blocked && s.queue != [] && !WillWake(s)
  }

  /** The steps that strand it: the re-send it is waiting for, and its own request for S2. */
  predicate Strands(s: System, e: Event) {
    s.queue != [] && s.sema == 0 == s.adding && (
      || (e.WorkResends? && s.work == Resending && s.pc == Blocked)
      || (e.Thread? && s.pc == Registering && s.power.fwInPS && s.power.cpwm < S2 && s.power.rpwm < S2))
  }

  lemma SetRpwmGone(p: Power, pslv: nat, forced: bool)
    requires !p.present
    ensures
      var level := Level(p, pslv);
      SetRpwm(p, pslv, forced) ==
      if !forced && (p.rpwm == level || (p.rpwm >= S2 && level >= S2)) then p else p.(cpwm := S4)
  {
  }

  /** Registering is refused exactly in power save with the firmware asleep; then it either leaves all
      else alone or, when it had to ask for S2, makes the firmware count as awake. */
  lemma RegisterGone(p: Power)
    requires !p.present
    ensures
      var (q, ok) := Register(p, Cmd);
      var on := p.(alives := p.alives + {Cmd});
      && (ok <==> !(p.fwInPS && p.cpwm < S2))
      && (ok ==> q == on || q == on.(cpwm := S4))
      && (!ok ==> q == if p.rpwm < S2 then on.(cpwm := S4) else on)
  {
    hide SetRpwm;
    SetRpwmGone(p.(alives := p.alives + {Cmd}), if p.rfOn then S3 else S2, false);
  }

  lemma UnregisterGone(p: Power)
    requires !p.present
    ensures
      var q, off := Unregister(p, Cmd), p.(alives := p.alives - {Cmd});
      q == off || q == off.(cpwm := S4)
  {
    hide SetRpwm;
    SetRpwmGone(p.(alives := p.alives - {Cmd}), S0, false);
  }

  lemma ThreadGone(s: System)
    requires InvGone(s)
    ensures Stranded(ThreadStep(s)) <==> Strands(s, Thread)
    ensures !Strands(s, Thread) ==> InvGone(ThreadStep(s))
  {
    hide Register, Unregister, LowOnlyWhenIdle, Alternates;
    match s.pc
    case Registering => RegisteringGone(s);
    case Unregistering => UnregisteringGone(s);
    case Blocked =>
    case Draining =>
      if s.queue != [] {
        assert s.queue == [s.queue[0]] + s.queue[1..];
      }
  }

  lemma RegisteringGone(s: System)
    requires InvGone(s) && s.pc == Registering
    ensures Stranded(ThreadStep(s)) <==> Strands(s, Thread)
    ensures !Strands(s, Thread) ==> InvGone(ThreadStep(s))
  {
    hide Register, LowOnlyWhenIdle, Alternates;
    RegisterGone(s.power);
  }

  lemma UnregisteringGone(s: System)
    requires InvGone(s) && s.pc == Unregistering
    ensures !Stranded(ThreadStep(s)) && InvGone(ThreadStep(s))
  {
    hide Unregister, LowOnlyWhenIdle, Alternates;
    UnregisterGone(s.power);
  }

  /** Another party may make the firmware count as awake, but not while the thread waits for it. */
  ghost predicate HarmlessGone(p: Power, q: Power) {
    && !q.present && (Cmd in p.alives <==> Cmd in q.alives)
    && (q == p.(alives := q.alives, pwrMode := q.pwrMode, fwInPS := q.fwInPS, rfOn := q.rfOn)
        || (q == p.(alives := q.alives, pwrMode := q.pwrMode, fwInPS := q.fwInPS, cpwm := S4)
            && !(Cmd in p.alives && Waiting(p))))
  }

  lemma OthersGone(p: Power, e: Event)
    requires !p.present
    ensures HarmlessGone(p, Others(p, e))
  {
    hide SetRpwm, Level;
    match e
    case TaskOn(Xmit) => XmitOnGone(p);
    case TaskOff(Xmit) => XmitOffGone(p);
    case PsMode(mode, oppPs, ready) => PsModeGone(p, mode, oppPs, ready);
    case _ =>
  }

  lemma XmitOnGone(p: Power)
    requires !p.present
    ensures HarmlessGone(p, Register(p, Xmit).0)
  {
    hide SetRpwm;
    SetRpwmGone(p.(alives := p.alives + {Xmit}), if p.rfOn then S3 else S2, false);
  }

  lemma XmitOffGone(p: Power)
    requires !p.present
    ensures HarmlessGone(p, Unregister(p, Xmit))
  {
    hide SetRpwm;
    SetRpwmGone(p.(alives := p.alives - {Xmit}), S0, false);
    assert Cmd in p.alives <==> Cmd in p.alives - {Xmit};
  }

  lemma PsModeGone(p: Power, mode: nat, oppPs: bool, ready: bool)
    requires !p.present
    ensures HarmlessGone(p, SetPsMode(p, mode, oppPs, ready))
  {
    hide SetRpwm;
    SetRpwmGone(p.(pwrMode := mode), S4, false);
    SetRpwmGone(p.(fwInPS := true, pwrMode := mode), S0, false);
  }

  lemma HarmlessGoneKeeps(s: System, q: Power)
    requires InvGone(s) && HarmlessGone(s.power, q)
    ensures InvGone(s.(power := q)) && !Stranded(s.(power := q))
  {
    hide LowOnlyWhenIdle, Alternates;
  }

  lemma TimerGone(s: System, e: Event)
    requires InvGone(s) && (e.TimerFires? || e.WorkStarts? || e.WorkProbes? || e.WorkResends?)
    ensures Stranded(Step(s, e)) <==> Strands(s, e)
    ensures !Strands(s, e) ==> InvGone(Step(s, e))
  {
    hide Resend, Interrupt, LowOnlyWhenIdle, Alternates;
    match e
    case WorkProbes(_) => InterruptGone(s, S2);
    case WorkResends => ResendGone(s.power);
    case _ =>
  }

  lemma ResendGone(p: Power)
    requires !p.present
    ensures Resend(p) == if HandshakeDone(p) then p else p.(cpwm := S4)
  {
    hide SetRpwm;
    SetRpwmGone(p, p.rpwm, true);
  }

  lemma InterruptGone(s: System, state: nat)
    requires InvGone(s) && state % LEVELS >= S2
    ensures InvGone(Interrupt(s, state)) && !Stranded(Interrupt(s, state))
    ensures Interrupt(s, state).work == s.work && Interrupt(s, state).workPending == s.workPending
    ensures !Waiting(Interrupt(s, state).power)
  {
    hide LowOnlyWhenIdle, Alternates;
  }

  /** With the hardware gone, whatever step comes next: exactly these two strand the thread, and every
      other keeps all as it should be. */
  lemma StrandsExactly(s: System, e: Event)
    requires InvGone(s) && Expected(e)
    ensures Stranded(Step(s, e)) <==> Strands(s, e)
    ensures !Strands(s, e) ==> InvGone(Step(s, e))
  {
    hide Others, HarmlessGone, ThreadStep, Interrupt, Resend, LowOnlyWhenIdle, Alternates, Sound;
    match e
    case ListAdd(c) => assert s.handled + (s.queue + [c]) == (s.handled + s.queue) + [c];
    case Up =>
    case Thread => ThreadGone(s);
    case Cpwm(state) => InterruptGone(s, state);
    case TaskOn(_) => OthersGone(s.power, e); HarmlessGoneKeeps(s, Others(s.power, e));
    case TaskOff(_) => OthersGone(s.power, e); HarmlessGoneKeeps(s, Others(s.power, e));
    case PsMode(_, _, _) => OthersGone(s.power, e); HarmlessGoneKeeps(s, Others(s.power, e));
    case PinRadio(_) => OthersGone(s.power, e); HarmlessGoneKeeps(s, Others(s.power, e));
    case _ => TimerGone(s, e);
  }

  lemma RunFirst(s: System, e: Event, rest: seq<Event>)
    requires Inv(s) && Expected(e) && forall x :: x in rest ==> Expected(x)
    ensures Inv(Step(s, e)) && (forall x :: x in [e] + rest ==> Expected(x))
    ensures Run(s, [e] + rest) == Run(Step(s, e), rest)
  {
    hide Step, Inv, Expected;
    StepKeeps(s, e);
    assert ([e] + rest)[1..] == rest;
  }

  const SOME_COMMAND := Command(0, 0)

  /** Power save is entered, a command queued, and the thread refused. */
  const TO_REFUSAL: seq<Event> :=
    [PsMode(2, false, true)] + ([ListAdd(SOME_COMMAND)] + ([Up] + ([Thread] + ([Thread] + []))))

  /** The timer runs out, and the firmware has not moved. */
  const TO_RESEND: seq<Event> := [TimerFires] + ([WorkStarts] + ([WorkProbes(false)] + []))

  /** A thread refused with the firmware asleep, and its timer running. */
  lemma RefusalRuns() returns (s: System)
    ensures Inv(START) && (forall e :: e in TO_REFUSAL ==> Expected(e)) && s == Run(START, TO_REFUSAL)
    ensures s.pc == Blocked && s.queue == [SOME_COMMAND] && s.sema == 0 == s.adding && s.work == Idle
    ensures s.power.timerArmed && s.power.rpwm == S2 && s.power.cpwm == S0 && s.power.owed && s.power.alives == {Cmd}
  {
    var s1 := Step(START, PsMode(2, false, true));
    assert s1.power.rpwm == S0 == s1.power.cpwm && s1.power.fwInPS && s1.power.alives == {};
    var s4 := Step(Step(Step(s1, ListAdd(SOME_COMMAND)), Up), Thread);
    assert s4.pc == Registering && s4.power == s1.power && s4.sema == 0;
    s := Step(s4, Thread);
    assert s.pc == Blocked && s.power.rpwm == S2 && s.power.owed && s.power.timerArmed && s.power.alives == {Cmd};
    hide Step, Inv;
    RunFirst(START, PsMode(2, false, true), []);
    RunFirst(s1, ListAdd(SOME_COMMAND), []);
    RunFirst(Step(s1, ListAdd(SOME_COMMAND)), Up, []);
    RunFirst(Step(Step(s1, ListAdd(SOME_COMMAND)), Up), Thread, []);
    RunFirst(s4, Thread, []);
    RunFirst(Step(Step(s1, ListAdd(SOME_COMMAND)), Up), Thread, [Thread] + []);
    RunFirst(Step(s1, ListAdd(SOME_COMMAND)), Up, [Thread] + ([Thread] + []));
    RunFirst(s1, ListAdd(SOME_COMMAND), [Up] + ([Thread] + ([Thread] + [])));
    RunFirst(START, PsMode(2, false, true), [ListAdd(SOME_COMMAND)] + ([Up] + ([Thread] + ([Thread] + []))));
  }

  lemma ResendRuns(r: System) returns (s: System)
    requires Inv(r) && r.pc == Blocked && r.sema == 0 == r.adding && r.queue != [] && r.work == Idle
    requires r.power.timerArmed && Waiting(r.power) && r.power.owed && Cmd in r.power.alives
    ensures (forall e :: e in TO_RESEND ==> Expected(e)) && s == Run(r, TO_RESEND)
    ensures s == r.(power := s.power, workPending := false, work := Resending)
    ensures s.power == r.power.(timerArmed := false)
  {
    hide *;
    s := ResendSteps(r);
    var r1 := Step(r, TimerFires);
    var r2 := Step(r1, WorkStarts);
    RunFirst(r, TimerFires, []);
    RunFirst(r1, WorkStarts, []);
    RunFirst(r2, WorkProbes(false), []);
    RunFirst(r1, WorkStarts, [WorkProbes(false)] + []);
    RunFirst(r, TimerFires, [WorkStarts] + ([WorkProbes(false)] + []));
    RunNothing(s);
  }

  lemma RunNothing(s: System)
    requires Inv(s)
    ensures Run(s, []) == s
    ensures TO_RESEND == [TimerFires] + ([WorkStarts] + ([WorkProbes(false)] + []))
  {
  }

  lemma ResendSteps(r: System) returns (s: System)
    requires r.work == Idle && r.power.timerArmed && Waiting(r.power)
    ensures s == Step(Step(Step(r, TimerFires), WorkStarts), WorkProbes(false))
    ensures s == r.(power := r.power.(timerArmed := false), workPending := false, work := Resending)
    ensures Expected(TimerFires) && Expected(WorkStarts) && Expected(WorkProbes(false))
  {
    hide Resend, CpwmInt, Register, Unregister, SetPsMode, ThreadStep, Interrupt;
    var r1 := Step(r, TimerFires);
    assert r1.power == r.power.(timerArmed := false) && r1.workPending;
    var r2 := Step(r1, WorkStarts);
    s := Step(r2, WorkProbes(false));
  }

  /** From there the work item comes to its re-send; if the hardware goes away just then, the thread is
      left with a command queued and nobody to wake it. */
  lemma LossExample()
    ensures Inv(START) && (forall e :: e in TO_REFUSAL + TO_RESEND ==> Expected(e))
    ensures
      var s := Run(Run(START, TO_REFUSAL), TO_RESEND);
      var t := Step(s.(power := s.power.(present := false)), WorkResends);
      && s.pc == Blocked && s.queue != [] && s.work == Resending && AckWillWake(s.power)
      && t.pc == Blocked && t.queue != [] && t.sema == 0 == t.adding && !WillWake(t)
  {
    hide Inv, SetRpwm, Run;
    var r := RefusalRuns();
    var s := ResendRuns(r);
    HardwareLossStrands(s.(power := s.power.(present := false)));
  }

  /** Power save is entered, a command queued, and the thread has taken its token. */
  const TO_ASKING: seq<Event> := [PsMode(2, false, true)] + ([ListAdd(SOME_COMMAND)] + ([Up] + ([Thread] + [])))

  /** The other step that strands: the hardware goes away before the thread asks for S2. */
  lemma AskingExample()
    ensures Inv(START) && (forall e :: e in TO_ASKING ==> Expected(e))
    ensures
      var s := Run(START, TO_ASKING);
      var t := Step(s.(power := s.power.(present := false)), Thread);
      s.pc == Registering && s.queue != [] && Stranded(t)
  {
    var s1 := Step(START, PsMode(2, false, true));
    assert s1.power.rpwm == S0 == s1.power.cpwm && s1.power.fwInPS && s1.power.present;
    var s2 := Step(s1, ListAdd(SOME_COMMAND));
    var s4 := Step(Step(s2, Up), Thread);
    assert s4.pc == Registering && s4.power == s1.power && s4.sema == 0 == s4.adding && s4.queue != [];
    hide Step, Stranded, InvGone;
    RunFirst(Step(s2, Up), Thread, []);
    RunFirst(s2, Up, [Thread] + []);
    RunFirst(s1, ListAdd(SOME_COMMAND), [Up] + ([Thread] + []));
    RunFirst(START, PsMode(2, false, true), [ListAdd(SOME_COMMAND)] + ([Up] + ([Thread] + [])));
    GoneFrom(s4);
    StrandsExactly(s4.(power := s4.power.(present := false)), Thread);
  }

  lemma GoneFrom(s: System)
    requires Inv(s)
    ensures InvGone(s.(power := s.power.(present := false)))
  {
    hide LowOnlyWhenIdle, Alternates;
    assert s.power.(present := false).(present := true) == s.power;
  }
}

/** The code: the command queue and its semaphore, the thread's program counter, and the work
    item, around one PwrCtrl.  Each event is one atomic region. */
module CmdThread {
  import opened PowerSpec
  import opened PowerCtrl
  import opened CmdProtocol

  class Adapter {
    const pwr: PwrCtrl
    var cmdQueue: seq<Command>
    var sema: nat
    var adding: nat
    var pc: Pc
    var workPending: bool
    var work: Work
    ghost var accepted: seq<Command>
    ghost var handled: seq<Command>
    ghost var beganAwake: bool

    constructor ()
      ensures Ready() && View() == START && fresh(pwr)
    {
      pwr := new PwrCtrl();
      cmdQueue, sema, adding := [], 0, 0;
      pc, workPending, work := Blocked, false, Idle;
      accepted, handled, beganAwake := [], [], false;
    }

    ghost predicate Ready()
      reads pwr
    {
      !pwr.brpwmtimeout
    }

    ghost function View(): System
      reads this, pwr
    {
      System(pwr.View(), cmdQueue, sema, adding, accepted, handled, pc, beganAwake, workPending, work)
    }

    /** The next atomic step of rtw_cmd_thread. */
    method ThreadStep()
      requires Ready()
      modifies this, pwr
      ensures Ready() && View() == CmdProtocol.ThreadStep(old(View()))
    {
      hide PowerSpec.Register, PowerSpec.Unregister;
      match pc {
        case Blocked =>
          if sema > 0 {
            sema := sema - 1;
            pc := Registering;
          }
        case Registering =>
          var ok := pwr.Register(Cmd);
          beganAwake := pwr.cpwm >= S2;
          pc := if ok then Draining else Blocked;
        case Draining =>
          if cmdQueue == [] {
            pc := Unregistering;
          } else {
            handled := handled + [cmdQueue[0]];
            cmdQueue := cmdQueue[1..];
          }
        case Unregistering =>
          pwr.Unregister(Cmd);
          pc := Blocked;
      }
    }

    /** cpwm_int_hdl, raising the command semaphore. */
    method Interrupt(state: nat)
      requires Ready()
      modifies this`sema, pwr`cpwm, pwr`owed
      ensures View() == CmdProtocol.Interrupt(old(View()), state)
    {
      var up := pwr.CpwmInt(state);
      if up {
        sema := sema + 1;
      }
    }

    /** pwr_rpwm_timeout_handler and the three parts of rpwmtimeout_workitem_callback. */
    method TimerStep(e: Event)
      requires Ready() && (e.TimerFires? || e.WorkStarts? || e.WorkProbes? || e.WorkResends?)
      modifies this, pwr
      ensures Ready() && View() == Step(old(View()), e)
    {
      hide PowerSpec.Resend, PowerSpec.CpwmInt, PowerSpec.Register, PowerSpec.Unregister, PowerSpec.SetPsMode,
           CmdProtocol.ThreadStep, CmdProtocol.Interrupt;
      match e {
        case TimerFires =>
          if pwr.timerArmed {
            pwr.timerArmed := false;
            if !(pwr.rpwm == pwr.cpwm || pwr.cpwm >= S2) {
              workPending := true;
            }
          }
        case WorkStarts =>
          if workPending && work == Idle {
            workPending := false;
            if !(pwr.rpwm == pwr.cpwm || pwr.cpwm >= S2) {
              work := Probing;
            }
          }
        case WorkProbes(awake) =>
          if work == Probing {
            if awake {
              Interrupt(S2);
              work := Idle;
            } else {
              work := Resending;
            }
          }
        case WorkResends =>
          if work == Resending {
            pwr.Resend();
            work := Idle;
          }
      }
    }

    /** The critical sections of the enqueuers. */
    method QueueStep(e: Event)
      requires Ready() && (e.ListAdd? || e.Up?)
      modifies this
      ensures Ready() && View() == Step(old(View()), e)
    {
      hide PowerSpec.Register, PowerSpec.Unregister, PowerSpec.SetPsMode, PowerSpec.Resend,
           CmdProtocol.ThreadStep, CmdProtocol.Interrupt;
      match e {
        case ListAdd(c) =>
          cmdQueue := cmdQueue + [c];
          accepted := accepted + [c];
          adding := adding + 1;
        case Up =>
          if adding > 0 {
            adding := adding - 1;
            sema := sema + 1;
          }
      }
    }

    /** Other tasks, the power save mode, and the radio. */
    method PowerStep(e: Event)
      requires Ready() && (e.TaskOn? || e.TaskOff? || e.PsMode? || e.PinRadio?)
      modifies pwr
      ensures Ready() && View() == Step(old(View()), e)
    {
      hide PowerSpec.Register, PowerSpec.Unregister, PowerSpec.SetPsMode, PowerSpec.Resend,
           CmdProtocol.ThreadStep, CmdProtocol.Interrupt;
      match e {
        case TaskOn(t) =>
          match t {
            case Xmit => var _ := pwr.Register(Xmit);
            case Recv => pwr.alives := pwr.alives + {Recv};
            case Evt => pwr.alives := pwr.alives + {Evt};
            case _ =>
          }
        case TaskOff(t) =>
          match t {
            case Xmit => pwr.Unregister(Xmit);
            case Recv => pwr.alives := pwr.alives - {Recv};
            case _ =>
          }
        case PsMode(mode, oppPs, ready) => pwr.SetPsMode(mode, oppPs, ready);
        case PinRadio(on) => pwr.rfOn := on;
      }
    }

    method Perform(e: Event)
      requires Ready()
      modifies this, pwr
      ensures Ready() && View() == Step(old(View()), e)
    {
      ThreadIsStep(View());
      InterruptIsStep(View(), e);
      hide Step, CmdProtocol.ThreadStep, CmdProtocol.Interrupt;
      match e {
        case ListAdd(_) => QueueStep(e);
        case Up => QueueStep(e);
        case Thread => ThreadStep();
        case TaskOn(_) => PowerStep(e);
        case TaskOff(_) => PowerStep(e);
        case PsMode(_, _, _) => PowerStep(e);
        case PinRadio(_) => PowerStep(e);
        case Cpwm(state) => Interrupt(state);
        case _ => TimerStep(e);
      }
    }
  }

  /** Any interleaving, carried out by the code, ends where the protocol says. */
  method Replay(events: seq<Event>) returns (a: Adapter)
    requires forall e :: e in events ==> Expected(e)
    ensures a.Ready() && Inv(START) && a.View() == Run(START, events)
  {
    hide Step;
    a := new Adapter();
    var i := 0;
    while i < |events|
      invariant 0 <= i <= |events|
      invariant fresh(a) && fresh(a.pwr) && a.Ready()
      invariant Inv(a.View()) && Run(a.View(), events[i..]) == Run(START, events)
    {
      assert events[i..][0] == events[i] && events[i..][1..] == events[i + 1..];
      StepKeeps(a.View(), events[i]);
      a.Perform(events[i]);
      i := i + 1;
    }
  }
}
