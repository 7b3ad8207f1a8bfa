/**
  The receive reordering buffer of section 9.21.7.6 of IEEE Std 802.11-2012, written
  as that section describes it: a window start, and a map from unwrapped sequence
  numbers to held frames.  The linked-list code of core/rtw_recv.c is proved to refine
  it in module Reorder.

  A sequence number on the air has twelve bits.  Here a frame is filed under its
  unwrapped number, an integer that agrees with the transmitted one modulo 4096.
 */
module BlockAck {
  import opened Lists

  const SEQ_SPACE := 4096
  const HALF_SPACE := 2048

  datatype Buffer<F> =
    | Unset                                    // no frame seen in this session yet
    | Window(start: int, held: map<int, F>)

  datatype Outcome<F> = Outcome(buffer: Buffer<F>, passedUp: seq<(int, F)>, accepted: bool)

  /** Every held frame lies strictly inside the window, above its start. */
  ghost predicate Valid<F>(b: Buffer<F>, size: nat) {
    b.Window? ==> forall n :: n in b.held ==> b.start < n < b.start + size
  }

  /** The integer congruent to `seqNum` in the half space either side of `start`. */
  function Nearest(start: int, seqNum: int): (n: int)
    ensures start - HALF_SPACE <= n < start + HALF_SPACE
    ensures (n - seqNum) % SEQ_SPACE == 0
  {
    var ahead := (seqNum - start) % SEQ_SPACE;
    if ahead < HALF_SPACE then start + ahead else start + ahead - SEQ_SPACE
  }

  /** The first number at or after `n` that is not held. */
  ghost function RunEnd<F>(held: map<int, F>, n: int): (e: int)
    ensures n <= e && e !in held
    ensures forall k :: n <= k < e ==> k in held
    decreases |held|
  {
    if n in held then
      assert |held - {n}| < |held| by { assert held.Keys == (held - {n}).Keys + {n}; }
      var e := RunEnd(held - {n}, n + 1);
      assert forall k :: n <= k < e ==> k in held by {
        forall k | n < k < e ensures k in held { assert k in held - {n}; }
      }
      e
    else n
  }

  lemma RunEndIs<F>(held: map<int, F>, n: int, e: int)
    requires n <= e && e !in held
    requires forall k :: n <= k < e ==> k in held
    ensures RunEnd(held, n) == e
  {
    var r := RunEnd(held, n);
    assert r < e ==> r in held;
    assert e < r ==> e in held;
  }

  /** The held frames numbered from `lo` up to `hi`, in order. */
  ghost function Ascending<F>(held: map<int, F>, lo: int, hi: int): (s: seq<(int, F)>)
    decreases hi - lo
  {
    if hi <= lo then []
    else (if lo in held then [(lo, held[lo])] else []) + Ascending(held, lo + 1, hi)
  }

  /** Moves the start to `lo` or past the contiguous run found there, passing up
      everything numbered below the place where it ends. */
  ghost function Advance<F>(oldStart: int, held: map<int, F>, lo: int): Outcome<F> {
    var end := RunEnd(held, lo);
    Outcome(Window(end, map n | n in held && end <= n :: held[n]), Ascending(held, oldStart, end), true)
  }

  /** A frame arrives. */
  ghost function Receive<F>(b: Buffer<F>, size: nat, seqNum: nat, f: F): Outcome<F>
    requires Valid(b, size)
  {
    match b
    case Unset => Advance(seqNum, map[seqNum := f], seqNum)
    case Window(start, held) =>
      var n := Nearest(start, seqNum);
      if n < start || n in held then Outcome(b, [], false)
      else Advance(start, held[n := f], if start + size <= n then n + 1 - size else start)
  }

  /** The reordering timer gives up on the gap below the first held frame. */
  ghost function GiveUp<F>(b: Buffer<F>): Outcome<F> {
    if b.Unset? || b.held == map[] then Outcome(b, [], false)
    else Advance(b.start, b.held, Least(b.held.Keys))
  }

  ghost function Least(s: set<int>): (m: int)
    requires s != {}
    ensures m in s && forall k :: k in s ==> m <= k
  {
    var x := Pick(s);
    var rest := s - {x};
    assert forall k :: k in s ==> k == x || k in rest;
    if rest == {} then x
    else
      var m := Least(rest);
      if x < m then x else m
  }

  // ---------------------------------------------------------------------------
  // What one step does
  // ---------------------------------------------------------------------------

  ghost predicate Increasing<F>(s: seq<(int, F)>) {
    forall i, j :: 0 <= i < j < |s| ==> s[i].0 < s[j].0
  }

  ghost predicate AllIn<F>(s: seq<(int, F)>, lo: int, hi: int) {
    forall i :: 0 <= i < |s| ==> lo <= s[i].0 < hi
  }

  /** Frame `f` is accounted for under the number `n`: passed up, or still held. */
  ghost predicate Accounted<F>(up: seq<(int, F)>, b: Buffer<F>, n: int, f: F) {
    (n, f) in up || (b.Window? && n in b.held && b.held[n] == f)
  }

  /** The frames of `all` are exactly those passed up or still held. */
  ghost predicate Conserved<F(!new)>(all: map<int, F>, up: seq<(int, F)>, b: Buffer<F>) {
    forall n, f :: Accounted(up, b, n, f) <==> n in all && all[n] == f
  }

  /** What Ascending lists: exactly the held frames of the range, once each, in order. */
  lemma {:induction false} AscendingLists<F(!new)>(held: map<int, F>, lo: int, hi: int)
    ensures Increasing(Ascending(held, lo, hi)) && AllIn(Ascending(held, lo, hi), lo, hi)
    ensures forall n, f :: (n, f) in Ascending(held, lo, hi) <==> n in held && held[n] == f && lo <= n < hi
    decreases hi - lo
  {
    if lo < hi {
      AscendingLists(held, lo + 1, hi);
    }
  }

  /** When the sender's number is within half the space of the start, the code's
      choice of unwrapped number is the sender's. */
  lemma NearestIsSender(start: int, sent: int)
    ensures Nearest(start, sent % 4096) == sent <==> start - 2048 <= sent < start + 2048
  {
    var n := Nearest(start, sent % SEQ_SPACE);
    assert (n - sent) % SEQ_SPACE == 0;
  }

  /** Both operations that move the window go through here: frames come up in order,
      none is lost or made up, and the start moves past all of them. */
  lemma AdvanceEffect<F(!new)>(oldStart: int, held: map<int, F>, lo: int, size: nat)
    requires forall n :: n in held ==> oldStart <= n < lo + size
    requires oldStart <= lo && size > 0
    ensures
      var r := Advance(oldStart, held, lo);
      && Valid(r.buffer, size) && lo <= r.buffer.start
      && (lo in held ==> lo < r.buffer.start)
      && Increasing(r.passedUp) && AllIn(r.passedUp, oldStart, r.buffer.start)
      && Conserved(held, r.passedUp, r.buffer)
  {
    AscendingLists(held, oldStart, RunEnd(held, lo));
  }

  /** The window start never moves back, and no more than size - 1 frames are held. */
  lemma ReceiveEffect<F(!new)>(b: Buffer<F>, size: nat, seqNum: nat, f: F)
    requires Valid(b, size) && size > 0
    ensures
      var r := Receive(b, size, seqNum, f);
      && Valid(r.buffer, size)
      && (b.Window? ==> r.buffer.Window? && b.start <= r.buffer.start)
      && (!r.accepted ==> r.buffer == b && r.passedUp == [])
      && Increasing(r.passedUp)
      && (b.Window? ==> AllIn(r.passedUp, b.start, r.buffer.start))
      && (b.Unset? ==> AllIn(r.passedUp, seqNum, r.buffer.start) && r.buffer.start == seqNum + 1)
  {
    match b
    case Unset =>
      AdvanceEffect(seqNum, map[seqNum := f], seqNum, size);
      assert RunEnd(map[seqNum := f], seqNum) - 1 in map[seqNum := f];
    case Window(start, held) =>
      var n := Nearest(start, seqNum);
      if start <= n && n !in held {
        AdvanceEffect(start, held[n := f], if start + size <= n then n + 1 - size else start, size);
      }
  }

  lemma GiveUpEffect<F(!new)>(b: Buffer<F>, size: nat)
    requires Valid(b, size)
    ensures
      var r := GiveUp(b);
      && Valid(r.buffer, size)
      && (r.accepted <==> b.Window? && b.held != map[])
      && (!r.accepted ==> r.buffer == b && r.passedUp == [])
      && (r.accepted ==> |r.passedUp| > 0 && b.start < r.buffer.start)
      && Increasing(r.passedUp)
      && (b.Window? ==> r.buffer.Window? && AllIn(r.passedUp, b.start, r.buffer.start))
  {
    if b.Window? && b.held != map[] {
      var lo := Least(b.held.Keys);
      assert size > 0;
      AdvanceEffect(b.start, b.held, lo, size);
      assert Accounted(GiveUp(b).passedUp, GiveUp(b).buffer, lo, b.held[lo]);
    }
  }

  // ---------------------------------------------------------------------------
  // Exactly what one step releases
  // ---------------------------------------------------------------------------

  /** Number `n` comes up when a window over `held` moves to `lo`: it is below, or no number from `lo` to it
      is missing. */
  ghost predicate ComesUp<F>(held: map<int, F>, lo: int, n: int) {
    n in held && (n < lo || forall k :: lo <= k <= n ==> k in held)
  }

  /** `r` releases exactly the frames of `held` that come up, and its window starts at the first number
      from `lo` on that is not held, with the frames left in it. */
  ghost predicate MovesTo<F(!new)>(r: Outcome<F>, held: map<int, F>, lo: int) {
    && r.accepted && r.buffer.Window? && Increasing(r.passedUp)
    && (forall n, f :: (n, f) in r.passedUp <==> ComesUp(held, lo, n) && held[n] == f)
    && lo <= r.buffer.start && r.buffer.start !in held && (forall k :: lo <= k < r.buffer.start ==> k in held)
    && (forall n :: n in r.buffer.held <==> n in held && !ComesUp(held, lo, n))
    && (forall n <- r.buffer.held :: r.buffer.held[n] == held[n])
  }

  lemma AdvanceExactly<F(!new)>(oldStart: int, held: map<int, F>, lo: int)
    requires oldStart <= lo && forall n :: n in held ==> oldStart <= n
    ensures MovesTo(Advance(oldStart, held, lo), held, lo)
  {
    var end := RunEnd(held, lo);
    AscendingLists(held, oldStart, end);
    hide RunEnd, Ascending;
    forall n | n in held ensures ComesUp(held, lo, n) <==> n < end {
      if n >= end {
        assert lo <= end <= n && end !in held;
      }
    }
  }

  /** One arrival.  `n` is the number of the frame that is congruent to the transmitted one and within half
      the sequence space of the start.  The frame is taken exactly if that is not below the start and not
      held; the window moves only as far as it must to reach it, and beyond that only over held numbers. */
  lemma ReceiveExactly<F(!new)>(b: Buffer<F>, size: nat, seqNum: nat, f: F, n: int)
    requires Valid(b, size) && size > 0
    requires b.Unset? ==> n == seqNum
    requires b.Window? ==> (n - seqNum) % SEQ_SPACE == 0 && b.start - HALF_SPACE <= n < b.start + HALF_SPACE
    ensures
      var r := Receive(b, size, seqNum, f);
      && (b.Unset? ==> r == Outcome(Window(n + 1, map[]), [(n, f)], true))
      && (b.Window? ==>
            && (r.accepted <==> b.start <= n && n !in b.held)
            && (!r.accepted ==> r.buffer == b && r.passedUp == [])
            && (r.accepted ==> MovesTo(r, b.held[n := f], if n < b.start + size then b.start else n + 1 - size)))
  {
    hide Nearest, MovesTo;
    match b
    case Unset =>
      hide Valid;
      FirstAlone(n, f);
    case Window(start, held) =>
      hide RunEnd, Advance, Ascending;
      NearestIs(start, seqNum, n);
      if start <= n && n !in held {
        AdvanceExactly(start, held[n := f], if start + size <= n then n + 1 - size else start);
      }
  }

  lemma FirstAlone<F>(n: int, f: F)
    ensures Advance(n, map[n := f], n) == Outcome(Window(n + 1, map[]), [(n, f)], true)
  {
    var all := map[n := f];
    RunEndIs(all, n, n + 1);
    assert Ascending(all, n + 1, n + 1) == [];
  }

  lemma NearestIs(start: int, seqNum: int, n: int)
    requires (n - seqNum) % SEQ_SPACE == 0 && start - HALF_SPACE <= n < start + HALF_SPACE
    ensures Nearest(start, seqNum) == n
  {
    assert (n - Nearest(start, seqNum)) % SEQ_SPACE == 0;
  }

  /** One timeout: of the frames held, the first and those that follow it without a gap. */
  lemma GiveUpExactly<F(!new)>(b: Buffer<F>, size: nat, m: int)
    requires Valid(b, size) && b.Window? && m in b.held && forall k :: k in b.held ==> m <= k
    ensures
      var r := GiveUp(b);
      && r.accepted && Increasing(r.passedUp)
      && (forall n, f :: (n, f) in r.passedUp <==>
            n in b.held && b.held[n] == f && forall k :: m <= k <= n ==> k in b.held)
      && r.buffer.Window? && m < r.buffer.start && r.buffer.start !in b.held
      && (forall k :: m <= k < r.buffer.start ==> k in b.held)
      && (forall n :: n in r.buffer.held <==> n in b.held && r.buffer.start < n)
      && (forall n <- r.buffer.held :: r.buffer.held[n] == b.held[n])
  {
    assert Least(b.held.Keys) == m;
    AdvanceExactly(b.start, b.held, m);
    hide GiveUp, Advance, Least;
    var r := Advance(b.start, b.held, m);
    assert GiveUp(b) == r by { GiveUpUnfolds(b, m); }
    var start := r.buffer.start;
    assert start != m;
    forall n | n in b.held ensures ComesUp(b.held, m, n) <==> n < start {
      if n >= start {
        assert m <= start <= n && start !in b.held;
      }
    }
  }

  lemma GiveUpUnfolds<F>(b: Buffer<F>, m: int)
    requires b.Window? && m in b.held && forall k :: k in b.held ==> m <= k
    ensures GiveUp(b) == Advance(b.start, b.held, m)
  {
    assert Least(b.held.Keys) == m;
  }

  /** A window of `size` numbers holds at most size - 1 frames, since its start is never held. */
  lemma HeldBound<F>(b: Buffer<F>, size: nat)
    requires Valid(b, size) && b.Window?
    ensures size > 0 ==> |b.held| <= size - 1
    ensures size == 0 ==> |b.held| == 0
  {
    RangeBound(b.held.Keys, b.start + 1, if size > 0 then b.start + size else b.start + 1);
    assert |b.held| == |b.held.Keys|;
  }

  lemma {:induction false} RangeBound(s: set<int>, lo: int, hi: int)
    requires lo <= hi && forall k :: k in s ==> lo <= k < hi
    ensures |s| <= hi - lo
    decreases hi - lo
  {
    if lo == hi {
      assert forall k :: k !in s;
      assert s == {};
    } else {
      RangeBound(s - {lo}, lo + 1, hi);
      assert s <= (s - {lo}) + {lo};
      assert |s| <= |s - {lo}| + 1;
    }
  }
}
