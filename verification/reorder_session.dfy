/**
  One block-acknowledgement session as the driver runs it: frames arrive from a single
  receive tasklet, a one-shot timer fires concurrently, and each side changes the buffer
  only under the queue lock.  The two locked regions are the steps `Arrive` and
  `RunHandler`.  The timer is cancelled after the lock has been dropped, so `FinishArrival`
  is a step of its own.
 */
module ReorderSession {
  import opened BlockAck

  /** `seqNum` is the twelve-bit number in the header, `msdu` stands for the contents. */
  datatype Frame = Frame(seqNum: nat, msdu: nat)

  datatype Event =
    | Arrive(frame: Frame)
    | FinishArrival        // cancel the timer, outside the lock
    | TimerExpires         // the timer leaves the wheel, its handler is about to ask for the lock
    | RunHandler

  /** `passedUp` is everything released so far, `taken` every frame ever accepted, both
      under the unwrapped numbers the frames were filed under. */
  datatype Session = Session(
    buffer: Buffer<Frame>, armed: bool, firing: bool, cancelDue: bool,
    passedUp: seq<(int, Frame)>, taken: map<int, Frame>)

  const FRESH := Session(Unset, false, false, false, [], map[])

  ghost predicate Holding(b: Buffer<Frame>) {
    b.Window? && b.held != map[]
  }

  /** The unwrapped number an arriving frame gets. */
  function NumberOf(b: Buffer<Frame>, seqNum: nat): int {
    match b
    case Unset => seqNum
    case Window(start, _) => Nearest(start, seqNum)
  }

  ghost function Step(s: Session, e: Event, size: nat): Session
    requires Valid(s.buffer, size)
  {
    match e
    case Arrive(f) =>
      var r := Receive(s.buffer, size, f.seqNum, f);
      if s.cancelDue || !r.accepted then s
      else Session(r.buffer, s.armed || Holding(r.buffer), s.firing, !Holding(r.buffer),
                   s.passedUp + r.passedUp, s.taken[NumberOf(s.buffer, f.seqNum) := f])
    case FinishArrival =>
      if s.cancelDue then s.(armed := false, cancelDue := false) else s
    case TimerExpires =>
      if s.armed && !s.firing then s.(armed := false, firing := true) else s
    case RunHandler =>
      if !s.firing then s
      else
        // An empty queue makes the handler re-arm the timer, as a non-empty one does.
        var r := GiveUp(s.buffer);
        s.(buffer := r.buffer, firing := false,
           armed := s.armed || !Holding(s.buffer) || Holding(r.buffer),
           passedUp := s.passedUp + r.passedUp)
  }

  // ---------------------------------------------------------------------------
  // Invariants over runs
  // ---------------------------------------------------------------------------

  ghost predicate Kept(s: Session, size: nat) {
    && Valid(s.buffer, size)
    && (s.buffer.Unset? ==> s.passedUp == [] && s.taken == map[])
    && (s.buffer.Window? ==> Ordered(s.passedUp, s.buffer.start))
    && Conserved(s.taken, s.passedUp, s.buffer)
    && (Holding(s.buffer) ==> s.armed || s.firing)
    && (s.cancelDue ==> !Holding(s.buffer))
  }

  /** Passed up in strictly increasing order, all of it below the window start. */
  ghost predicate Ordered(up: seq<(int, Frame)>, start: int) {
    Increasing(up) && forall i :: 0 <= i < |up| ==> up[i].0 < start
  }

  lemma AppendKeepsOrder(a: seq<(int, Frame)>, b: seq<(int, Frame)>, mid: int, hi: int)
    requires Ordered(a, mid) && Increasing(b) && AllIn(b, mid, hi)
    requires mid <= hi
    ensures Ordered(a + b, hi)
  {
  }

  /** Frames `held0` go through one window move; whatever had been passed up before stays. */
  lemma MoveConserves(taken: map<int, Frame>, up: seq<(int, Frame)>, held0: map<int, Frame>,
                      more: seq<(int, Frame)>, b: Buffer<Frame>, start: int)
    requires Conserved(taken, up, Window(start, held0)) && Conserved(held0, more, b)
    ensures Conserved(taken, up + more, b)
  {
    forall n, f ensures Accounted(up + more, b, n, f) <==> n in taken && taken[n] == f {
      assert Accounted(up, Window(start, held0), n, f) <==> n in taken && taken[n] == f;
      assert Accounted(more, b, n, f) <==> n in held0 && held0[n] == f;
    }
  }

  /** Accepting a frame under a number at or above the start, not held, adds it to the account. */
  lemma FilingConserves(taken: map<int, Frame>, up: seq<(int, Frame)>, b: Buffer<Frame>, n: int, f: Frame)
    requires Conserved(taken, up, b) && b.Window?
    requires Ordered(up, b.start) && b.start <= n && n !in b.held
    ensures Conserved(taken[n := f], up, Window(b.start, b.held[n := f]))
  {
    var w := Window(b.start, b.held[n := f]);
    forall m, g ensures Accounted(up, w, m, g) <==> m in taken[n := f] && taken[n := f][m] == g {
      assert Accounted(up, b, m, g) <==> m in taken && taken[m] == g;
    }
  }

  lemma ArriveKeeps(s: Session, f: Frame, size: nat)
    requires Kept(s, size) && 1 <= size
    ensures Kept(Step(s, Arrive(f), size), size)
  {
    var r := Receive(s.buffer, size, f.seqNum, f);
    ReceiveEffect(s.buffer, size, f.seqNum, f);
    if !s.cancelDue && r.accepted {
      var n := NumberOf(s.buffer, f.seqNum);
      var w: Buffer<Frame> := if s.buffer.Unset? then Window(n, map[]) else s.buffer;
      assert Conserved(s.taken, s.passedUp, w) by {
        forall m, g ensures Accounted(s.passedUp, w, m, g) <==> Accounted(s.passedUp, s.buffer, m, g) {}
      }
      FilingConserves(s.taken, s.passedUp, w, n, f);
      AdvanceEffect(w.start, w.held[n := f], if w.start + size <= n then n + 1 - size else w.start, size);
      MoveConserves(s.taken[n := f], s.passedUp, w.held[n := f], r.passedUp, r.buffer, w.start);
      AppendKeepsOrder(s.passedUp, r.passedUp, w.start, r.buffer.start);
    }
  }

  lemma HandlerKeeps(s: Session, size: nat)
    requires Kept(s, size) && 1 <= size
    ensures Kept(Step(s, RunHandler, size), size)
  {
    GiveUpEffect(s.buffer, size);
    if s.firing && Holding(s.buffer) {
      var r := GiveUp(s.buffer);
      AdvanceEffect(s.buffer.start, s.buffer.held, Least(s.buffer.held.Keys), size);
      MoveConserves(s.taken, s.passedUp, s.buffer.held, r.passedUp, r.buffer, s.buffer.start);
      AppendKeepsOrder(s.passedUp, r.passedUp, s.buffer.start, r.buffer.start);
    } else {
      assert s.passedUp + [] == s.passedUp;
    }
  }

  lemma StepKeeps(s: Session, e: Event, size: nat)
    requires Kept(s, size) && 1 <= size
    ensures Kept(Step(s, e, size), size)
    ensures s.buffer.Window? ==>
              Step(s, e, size).buffer.Window? && s.buffer.start <= Step(s, e, size).buffer.start
    ensures s.passedUp <= Step(s, e, size).passedUp
  {
    match e
    case Arrive(f) =>
      ArriveKeeps(s, f, size);
      ReceiveEffect(s.buffer, size, f.seqNum, f);
    case RunHandler =>
      HandlerKeeps(s, size);
      GiveUpEffect(s.buffer, size);
    case FinishArrival =>
    case TimerExpires =>
  }

  ghost function Run(s: Session, es: seq<Event>, size: nat): (t: Session)
    requires Kept(s, size) && 1 <= size
    ensures Kept(t, size)
    decreases |es|
  {
    if es == [] then s
    else
      StepKeeps(s, es[0], size);
      Run(Step(s, es[0], size), es[1..], size)
  }

  /** Over every run of arrivals, expiries, handlers and cancellations, across any number
      of wraps of the sequence space: frames come up in strictly increasing unwrapped order,
      each accepted frame comes up once or is still held, fewer than `size` are held, and a
      held frame always has the timer, or its handler, on the way. */
  lemma EveryRun(es: seq<Event>, size: nat)
    requires 1 <= size
    ensures Kept(FRESH, size)
    ensures
      var t := Run(FRESH, es, size);
      && Increasing(t.passedUp) && Conserved(t.taken, t.passedUp, t.buffer)
      && (Holding(t.buffer) ==> t.armed || t.firing)
      && (t.buffer.Window? ==>
            |t.buffer.held| <= size - 1
            && forall n :: n in t.buffer.held ==> t.buffer.start < n < t.buffer.start + size)
  {
    var t := Run(FRESH, es, size);
    if t.buffer.Window? {
      HeldBound(t.buffer, size);
    }
  }

  /** A frame is kept back only for a gap: over every run, a frame accepted and not yet passed up has a
      number below it, at the window's start, under which nothing was accepted. */
  lemma HeldForGap(es: seq<Event>, size: nat, n: int)
    requires 1 <= size
    ensures Kept(FRESH, size)
    ensures
      var t := Run(FRESH, es, size);
      n in t.taken && (n, t.taken[n]) !in t.passedUp ==>
        t.buffer.Window? && t.buffer.start < n && t.buffer.start !in t.taken
  {
    var t := Run(FRESH, es, size);
    hide Run, Increasing;
    if n in t.taken && (n, t.taken[n]) !in t.passedUp {
      assert Accounted(t.passedUp, t.buffer, n, t.taken[n]);
      var k := t.buffer.start;
      assert k in t.taken ==> Accounted(t.passedUp, t.buffer, k, t.taken[k]);
    }
  }

  /** So does an accepted arrival with its cancellation: the timer then runs exactly if frames are held. */
  lemma TimerAfterArrival(s: Session, f: Frame, size: nat)
    requires Kept(s, size) && 1 <= size && !s.cancelDue
    ensures Kept(Step(s, Arrive(f), size), size)
    ensures
      var t := Step(Step(s, Arrive(f), size), FinishArrival, size);
      Receive(s.buffer, size, f.seqNum, f).accepted ==> (t.armed <==> Holding(t.buffer)) && !t.cancelDue
  {
    ArriveKeeps(s, f, size);
    hide Receive, Kept;
  }

  /** An expiry makes the handler wait exactly if the timer was running and no handler waits yet; nothing
      else changes. */
  lemma ExpiryExactly(s: Session, size: nat)
    requires Kept(s, size)
    ensures
      var t := Step(s, TimerExpires, size);
      && t == s.(armed := t.armed, firing := t.firing)
      && (t.firing <==> s.firing || s.armed) && (t.armed <==> s.armed && s.firing)
  {
  }

  /** The handler sets the timer again exactly if frames are still held, or there was nothing to give up. */
  lemma TimerAfterHandler(s: Session, size: nat)
    requires Kept(s, size) && 1 <= size && s.firing && !s.armed
    ensures
      var t := Step(s, RunHandler, size);
      !t.firing && (t.armed <==> Holding(t.buffer) || !Holding(s.buffer))
  {
    hide GiveUp;
  }

  /** The window start never moves back, and what has been passed up is never withdrawn. */
  lemma {:induction false} WindowOnlyAdvances(s: Session, es: seq<Event>, size: nat)
    requires Kept(s, size) && 1 <= size
    ensures
      var t := Run(s, es, size);
      && s.passedUp <= t.passedUp
      && (s.buffer.Window? ==> t.buffer.Window? && s.buffer.start <= t.buffer.start)
    decreases |es|
  {
    if es != [] {
      StepKeeps(s, es[0], size);
      WindowOnlyAdvances(Step(s, es[0], size), es[1..], size);
    }
  }

  // ---------------------------------------------------------------------------
  // The sender's order
  // ---------------------------------------------------------------------------

  /** Every frame accepted was filed under the sender's own counter, less a fixed base. */
  ghost predicate Tracks(s: Session, sentAs: Frame -> int, base: int) {
    forall n :: n in s.taken ==> sentAs(s.taken[n]) == n + base
  }

  /** The frame carries the low twelve bits of its sender's counter, and that counter is
      within half the sequence space of the window. */
  ghost predicate NearWindow(s: Session, e: Event, sentAs: Frame -> int, base: int) {
    e.Arrive? ==>
      && sentAs(e.frame) % SEQ_SPACE == e.frame.seqNum
      && (s.buffer.Unset? ==> sentAs(e.frame) == e.frame.seqNum + base)
      && (s.buffer.Window? ==>
            s.buffer.start - HALF_SPACE <= sentAs(e.frame) - base < s.buffer.start + HALF_SPACE)
  }

  ghost predicate AllNear(s: Session, es: seq<Event>, size: nat, sentAs: Frame -> int, base: int)
    requires Kept(s, size) && 1 <= size
    decreases |es|
  {
    es == [] ||
    (NearWindow(s, es[0], sentAs, base)
     && (StepKeeps(s, es[0], size); AllNear(Step(s, es[0], size), es[1..], size, sentAs, base)))
  }

  lemma BaseDropsOut(sent: int, base: int)
    requires base % SEQ_SPACE == 0
    ensures (sent - base) % SEQ_SPACE == sent % SEQ_SPACE
  {
  }

  /** A frame near the window is filed under its sender's own counter. */
  lemma FiledAsSent(b: Buffer<Frame>, sent: int, seqNum: nat, base: int)
    requires base % SEQ_SPACE == 0 && sent % SEQ_SPACE == seqNum
    requires b.Unset? ==> sent == seqNum + base
    requires b.Window? ==> b.start - HALF_SPACE <= sent - base < b.start + HALF_SPACE
    ensures NumberOf(b, seqNum) + base == sent
  {
    hide Nearest;
    BaseDropsOut(sent, base);
    if b.Window? {
      NearestIsSender(b.start, sent - base);
    }
  }

  /** Only an arrival adds to what is taken, under the number the frame is filed under. */
  lemma TakenAfter(s: Session, e: Event, size: nat)
    requires Valid(s.buffer, size)
    ensures Step(s, e, size).taken == s.taken
            || (e.Arrive? && Step(s, e, size).taken == s.taken[NumberOf(s.buffer, e.frame.seqNum) := e.frame])
  {
    hide Receive, GiveUp, NumberOf, Holding;
  }

  lemma StepTracks(s: Session, e: Event, size: nat, sentAs: Frame -> int, base: int)
    requires Kept(s, size) && 1 <= size && base % SEQ_SPACE == 0
    requires Tracks(s, sentAs, base) && NearWindow(s, e, sentAs, base)
    ensures Tracks(Step(s, e, size), sentAs, base)
  {
    hide Step, NumberOf, Valid, Ordered, Conserved;
    TakenAfter(s, e, size);
    if e.Arrive? {
      FiledAsSent(s.buffer, sentAs(e.frame), e.frame.seqNum, base);
    }
  }

  lemma {:induction false} RunTracks(s: Session, es: seq<Event>, size: nat, sentAs: Frame -> int, base: int)
    requires Kept(s, size) && 1 <= size && base % SEQ_SPACE == 0
    requires Tracks(s, sentAs, base) && AllNear(s, es, size, sentAs, base)
    ensures Tracks(Run(s, es, size), sentAs, base)
    decreases |es|
  {
    if es != [] {
      StepKeeps(s, es[0], size);
      StepTracks(s, es[0], size, sentAs, base);
      RunTracks(Step(s, es[0], size), es[1..], size, sentAs, base);
    }
  }

  /** As long as no frame strays half the sequence space from the window, the frames come
      up in the order the sender numbered them, without duplicates. */
  lemma SenderOrder(es: seq<Event>, size: nat, sentAs: Frame -> int, base: int)
    requires 1 <= size && base % SEQ_SPACE == 0
    requires Kept(FRESH, size)
    requires AllNear(FRESH, es, size, sentAs, base)
    ensures
      var up := Run(FRESH, es, size).passedUp;
      forall i, j :: 0 <= i < j < |up| ==> sentAs(up[i].1) < sentAs(up[j].1)
  {
    RunTracks(FRESH, es, size, sentAs, base);
    var t := Run(FRESH, es, size);
    forall i | 0 <= i < |t.passedUp| ensures sentAs(t.passedUp[i].1) == t.passedUp[i].0 + base {
      assert (t.passedUp[i].0, t.passedUp[i].1) in t.passedUp;
      assert Accounted(t.passedUp, t.buffer, t.passedUp[i].0, t.passedUp[i].1);
    }
  }

  // ---------------------------------------------------------------------------
  // Why one receive tasklet matters
  // ---------------------------------------------------------------------------

  /** The same session with a second receiver let in between the end of the locked region
      and the cancellation that follows it. */
  ghost function OverlappingArrival(s: Session, f: Frame, size: nat): Session
    requires Valid(s.buffer, size)
  {
    var t := Step(s.(cancelDue := false), Arrive(f), size);
    t.(cancelDue := s.cancelDue || t.cancelDue)
  }

  /** Were a second receiver let in, its cancellation would strand the held frames, with neither timer
      nor handler on the way, exactly when a cancellation is due, no handler waits, and the frame is
      numbered above the start of a window of more than one. */
  lemma OverlapStrands(s: Session, f: Frame, size: nat)
    requires Kept(s, size) && 1 <= size
    ensures
      var t := OverlappingArrival(s, f, size);
      Valid(t.buffer, size) &&
      var u := Step(t, FinishArrival, size);
      (Holding(u.buffer) && !u.armed && !u.firing)
      <==> && s.cancelDue && !s.firing && size > 1
           && s.buffer.Window? && s.buffer.start < Nearest(s.buffer.start, f.seqNum)
  {
    ReceiveEffect(s.buffer, size, f.seqNum, f);
    if s.cancelDue {
      HoldsAfter(s.buffer, f, size);
    }
  }

  /** A buffer that holds nothing keeps a frame exactly if it is above the start and the window has
      room for a gap below it. */
  lemma HoldsAfter(b: Buffer<Frame>, f: Frame, size: nat)
    requires Valid(b, size) && 1 <= size && !Holding(b)
    ensures Holding(Receive(b, size, f.seqNum, f).buffer)
            <==> size > 1 && b.Window? && b.start < Nearest(b.start, f.seqNum)
  {
    var r := Receive(b, size, f.seqNum, f);
    match b
    case Unset =>
      HoldsAbove(f.seqNum, f, f.seqNum, f.seqNum);
    case Window(start, held) =>
      var n := Nearest(start, f.seqNum);
      assert held[n := f] == map[n := f];
      if start <= n {
        HoldsAbove(n, f, start, if start + size <= n then n + 1 - size else start);
      }
  }

  /** What one window move leaves of a single frame. */
  lemma HoldsAbove(n: int, f: Frame, oldStart: int, lo: int)
    requires lo <= n
    ensures
      var b := Advance(oldStart, map[n := f], lo).buffer;
      Holding(b) <==> lo < n
  {
    var held := map[n := f];
    RunEndIs(held, lo, if lo == n then n + 1 else lo);
    var b := Advance(oldStart, held, lo).buffer;
    if lo < n {
      assert n in b.held;
    } else {
      assert forall k :: k !in b.held;
    }
  }

  /** Such a run exists: frame 0 passes straight up, and frame 2 is held before the
      cancellation that frame 0 owes. */
  lemma OverlapExample()
    ensures
      var size := 64;
      Kept(FRESH, size) &&
      var s := Run(FRESH, [Arrive(Frame(0, 0))], size);
      var t := OverlappingArrival(s, Frame(2, 1), size);
      Valid(t.buffer, size) &&
      var u := Step(t, FinishArrival, size);
      Holding(u.buffer) && !u.armed && !u.firing
  {
    var size := 64;
    var f0, f2 := Frame(0, 0), Frame(2, 1);
    var s := Run(FRESH, [Arrive(f0)], size);
    assert [Arrive(f0)][1..] == [];
    assert s == Run(Step(FRESH, Arrive(f0), size), [], size) == Step(FRESH, Arrive(f0), size);
    ReceiveEffect(Unset, size, 0, f0);
    assert s.buffer.held == map[] by {
      AdvanceEffect(0, map[0 := f0], 0, size);
    }
    OverlapStrands(s, f2, size);
    ReceiveEffect(s.buffer, size, 2, f2);
    var r := Receive(s.buffer, size, 2, f2);
    assert Nearest(1, 2) == 2;
    assert r.accepted && 1 !in s.buffer.held[2 := f2];
    assert r.buffer.start == 1;
    assert 2 in r.buffer.held;
  }
}
