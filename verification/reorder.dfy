/**
  The reordering code of core/rtw_recv.c: a twelve-bit window start and a sorted list of
  pending frames, changed in place.  Each method is proved to do what module BlockAck says
  on the unwrapped numbers kept beside the list.
 */
module Reorder {
  import opened BlockAck
  import opened ReorderSession

  /** What a number looks like on the air: its low twelve bits. */
  function Low(x: int): (r: nat)
    ensures r < SEQ_SPACE
  {
    x % SEQ_SPACE
  }

  lemma LowAdds(x: int, c: int)
    ensures Low(Low(x) + c) == Low(x + c)
  {
  }

  lemma LowOf(x: nat)
    requires x < SEQ_SPACE
    ensures Low(x) == x
  {
  }

  /** The driver's serial-number comparison: bit 11 of the difference. */
  predicate SnLess(a: int, b: int) {
    (a - b) % SEQ_SPACE >= HALF_SPACE
  }

  /** On numbers at most half the space apart, comparing what was transmitted compares the
      numbers themselves. */
  lemma SnLessCompares(a: int, b: int, x: int, y: int)
    requires Low(x) == a && Low(y) == b
    requires -HALF_SPACE <= x - y < HALF_SPACE
    ensures SnLess(a, b) <==> x < y
    ensures a == b <==> x == y
  {
    assert (a - b) % SEQ_SPACE == (x - y) % SEQ_SPACE;
  }

  lemma NearestCongruent(from: int, seqNum: nat)
    requires seqNum < SEQ_SPACE
    ensures Low(Nearest(from, seqNum)) == seqNum
  {
    assert (Nearest(from, seqNum) - seqNum) % SEQ_SPACE == 0;
  }

  /** Where the window starts once a frame numbered `n`, at or above `from`, has been looked at. */
  function MovedStart(from: int, n: int, wsize: nat): int {
    if n == from then n + 1
    else if from + wsize <= n then n + 1 - wsize
    else from
  }

  lemma MovedStartIs(from: int, n: int, wsize: nat)
    ensures MovedStart(from, n, wsize)
            == if n == from then n + 1 else if from + wsize <= n then n + 1 - wsize else from
  {
  }

  /** The two cases of the window shift are one subtraction modulo the sequence space. */
  lemma ShiftArithmetic(seqNum: nat, n: int, wsize: nat)
    requires Low(n) == seqNum && 1 <= wsize <= 255
    ensures Low(n + 1 - wsize)
            == if seqNum >= wsize - 1 then seqNum + 1 - wsize else 0xFFF - (wsize - (seqNum + 1)) + 1
  {
  }

  // ---------------------------------------------------------------------------
  // The pending list as a map
  // ---------------------------------------------------------------------------

  ghost predicate Sorted(nums: seq<int>) {
    forall i, j :: 0 <= i < j < |nums| ==> nums[i] < nums[j]
  }

  ghost function HeldMap(nums: seq<int>, frames: seq<Frame>): map<int, Frame>
    requires |nums| == |frames|
  {
    if nums == [] then map[] else HeldMap(nums[1..], frames[1..])[nums[0] := frames[0]]
  }

  lemma {:induction false} HeldLooksUp(nums: seq<int>, frames: seq<Frame>)
    requires |nums| == |frames| && Sorted(nums)
    ensures forall n :: n in HeldMap(nums, frames) <==> n in nums
    ensures forall i :: 0 <= i < |nums| ==> HeldMap(nums, frames)[nums[i]] == frames[i]
  {
    if nums != [] {
      HeldLooksUp(nums[1..], frames[1..]);
      forall i | 0 <= i < |nums| ensures HeldMap(nums, frames)[nums[i]] == frames[i] {
        assert i > 0 ==> nums[i] == nums[1..][i - 1];
      }
    }
  }

  ghost function Listed(nums: seq<int>, frames: seq<Frame>): seq<(int, Frame)>
    requires |nums| == |frames|
  {
    seq(|nums|, i requires 0 <= i < |nums| => (nums[i], frames[i]))
  }

  lemma {:induction false} InsertIntoHeld(nums: seq<int>, frames: seq<Frame>, i: nat, n: int, f: Frame)
    requires |nums| == |frames| && i <= |nums|
    requires forall k :: 0 <= k < i ==> nums[k] != n
    ensures HeldMap(nums[..i] + [n] + nums[i..], frames[..i] + [f] + frames[i..]) == HeldMap(nums, frames)[n := f]
  {
    var nums', frames' := nums[..i] + [n] + nums[i..], frames[..i] + [f] + frames[i..];
    if i == 0 {
      assert nums'[1..] == nums && frames'[1..] == frames;
    } else {
      InsertIntoHeld(nums[1..], frames[1..], i - 1, n, f);
      assert nums'[1..] == nums[1..][..i - 1] + [n] + nums[1..][i - 1..];
      assert frames'[1..] == frames[1..][..i - 1] + [f] + frames[1..][i - 1..];
    }
  }

  lemma InsertSorts(nums: seq<int>, i: nat, n: int)
    requires Sorted(nums) && i <= |nums|
    requires forall k :: 0 <= k < i ==> nums[k] < n
    requires i < |nums| ==> n < nums[i]
    ensures Sorted(nums[..i] + [n] + nums[i..]) && n !in nums
    ensures forall m :: m in nums[..i] + [n] + nums[i..] <==> m == n || m in nums
  {
    assert nums == nums[..i] + nums[i..];
  }

  /** Listing the map up to `hi` reads off the list's first part. */
  lemma AscendingIsPrefix(nums: seq<int>, frames: seq<Frame>, lo: int, hi: int, k: nat)
    requires |nums| == |frames| && Sorted(nums) && k <= |nums|
    requires forall j :: 0 <= j < |nums| ==> lo <= nums[j]
    requires forall j :: 0 <= j < k ==> nums[j] < hi
    requires forall j :: k <= j < |nums| ==> hi <= nums[j]
    ensures Ascending(HeldMap(nums, frames), lo, hi) == Listed(nums[..k], frames[..k])
  {
    AscendingWithin(nums, frames, lo, hi, 0, k);
    assert nums[0..k] == nums[..k] && frames[0..k] == frames[..k];
  }

  lemma {:induction false} AscendingWithin(nums: seq<int>, frames: seq<Frame>, lo: int, hi: int, j: nat, k: nat)
    requires |nums| == |frames| && Sorted(nums) && j <= k <= |nums|
    requires forall i :: 0 <= i < j ==> nums[i] < lo
    requires forall i :: j <= i < |nums| ==> lo <= nums[i]
    requires forall i :: j <= i < k ==> nums[i] < hi
    requires forall i :: k <= i < |nums| ==> hi <= nums[i]
    ensures Ascending(HeldMap(nums, frames), lo, hi) == Listed(nums[j..k], frames[j..k])
    decreases hi - lo
  {
    hide HeldMap;
    var m := HeldMap(nums, frames);
    HeldLooksUp(nums, frames);
    var first := if j < k then nums[j] else lo;
    if hi <= lo {
      assert j == k;
    } else if j < |nums| && nums[j] == lo {
      assert j < k;
      AscendingWithin(nums, frames, lo + 1, hi, j + 1, k);
      assert Listed(nums[j..k], frames[j..k]) == [(lo, frames[j])] + Listed(nums[j + 1..k], frames[j + 1..k]);
    } else {
      assert lo !in nums;
      AscendingWithin(nums, frames, lo + 1, hi, j, k);
    }
  }

  /** What is left of the list is what the map keeps. */
  lemma {:induction false} RestIsKept(nums: seq<int>, frames: seq<Frame>, end: int, k: nat)
    requires |nums| == |frames| && Sorted(nums) && k <= |nums|
    requires k > 0 ==> nums[k - 1] < end
    requires k < |nums| ==> end < nums[k]
    ensures HeldMap(nums[k..], frames[k..]) ==
            map n | n in HeldMap(nums, frames) && end <= n :: HeldMap(nums, frames)[n]
  {
    if k == 0 {
      assert nums[0..] == nums && frames[0..] == frames;
      HeldLooksUp(nums, frames);
      HeadIsLeast(nums);
      forall n | n in HeldMap(nums, frames) ensures end <= n {}
    } else {
      RestIsKept(nums[1..], frames[1..], end, k - 1);
      assert nums[1..][k - 1..] == nums[k..] && frames[1..][k - 1..] == frames[k..];
      assert nums[0] < end;
    }
  }

  /** A list from which the first `k` entries were taken, ending at a gap, is the buffer
      after a window move. */
  lemma ReleasedIsAdvance(nums: seq<int>, frames: seq<Frame>, oldStart: int, lo: int, end: int, k: nat)
    requires |nums| == |frames| && Sorted(nums) && k <= |nums|
    requires forall n :: n in nums ==> oldStart <= n
    requires k > 0 ==> nums[k - 1] < end
    requires k < |nums| ==> end < nums[k]
    requires lo <= end && forall n :: lo <= n < end ==> n in nums
    ensures Sorted(nums[k..]) && forall n :: n in nums[k..] ==> end < n
    ensures Advance(oldStart, HeldMap(nums, frames), lo)
            == Outcome(Window(end, HeldMap(nums[k..], frames[k..])), Listed(nums[..k], frames[..k]), true)
  {
    hide HeldMap, RunEnd, Ascending, Listed;
    HeldLooksUp(nums, frames);
    assert end !in nums;
    RunEndIs(HeldMap(nums, frames), lo, end);
    forall j | 0 <= j < |nums| ensures oldStart <= nums[j] { assert nums[j] in nums; }
    AscendingIsPrefix(nums, frames, oldStart, end, k);
    RestIsKept(nums, frames, end, k);
  }

  // ---------------------------------------------------------------------------
  // struct recv_reorder_ctrl
  // ---------------------------------------------------------------------------

  const UNSET := 0xFFFF

  class ReorderCtrl {
    var indicateSeq: nat          // u16; 0xFFFF until the first frame
    const wsize: nat              // wsize_b, a u8
    var pending: seq<Frame>       // pending_recvframe_queue
    var timerArmed: bool
    ghost var start: int          // indicateSeq, unwrapped
    ghost var nums: seq<int>      // the unwrapped numbers of the pending frames
    ghost var indicated: seq<(int, Frame)>

    constructor (wsize: nat)
      requires 1 <= wsize <= 255
      ensures Valid() && this.wsize == wsize
      ensures Contents() == Unset && !timerArmed && indicated == []
    {
      indicateSeq := UNSET;
      this.wsize := wsize;
      pending := [];
      timerArmed := false;
      start := 0;
      nums := [];
      indicated := [];
    }

    /** The list carries the transmitted numbers of `nums`, in order. */
    ghost predicate Linked()
      reads this
    {
      && 1 <= wsize <= 255
      && |nums| == |pending| && Sorted(nums)
      && forall i :: 0 <= i < |nums| ==> Low(nums[i]) == pending[i].seqNum
    }

    ghost predicate Valid()
      reads this
    {
      && Linked()
      && (indicateSeq == UNSET ==> pending == [])
      && (indicateSeq != UNSET ==> indicateSeq == Low(start))
      && forall n :: n in nums ==> start < n < start + wsize
    }

    ghost function Contents(): Buffer<Frame>
      requires Valid()
      reads this
    {
      if indicateSeq == UNSET then Unset else Window(start, HeldMap(nums, pending))
    }

    lemma ContentsValid()
      requires Valid()
      ensures BlockAck.Valid(Contents(), wsize)
      ensures pending == [] <==> !Holding(Contents())
      ensures indicateSeq == UNSET ==> HeldMap(nums, pending) == map[]
    {
      HeldLooksUp(nums, pending);
      if pending != [] {
        assert nums[0] in HeldMap(nums, pending);
      }
    }

    /** check_indicate_seq: whether the frame is new enough, moving the window if it must. */
    method CheckIndicateSeq(seqNum: nat) returns (ok: bool)
      requires Valid() && seqNum < SEQ_SPACE
      modifies this`indicateSeq, this`start
      ensures
        var from := if old(indicateSeq) == UNSET then seqNum else old(start);
        var n := Nearest(from, seqNum);
        && (ok <==> from <= n)
        && (!ok ==> indicateSeq == old(indicateSeq) && start == old(start))
        && (ok ==> indicateSeq == Low(start) && start == MovedStart(from, n, wsize))
    {
      hide Nearest, SnLess, MovedStart, Sorted, Low;
      var wend := Low(indicateSeq + wsize - 1);
      ghost var from := if indicateSeq == UNSET then seqNum else start;
      ghost var n := Nearest(from, seqNum);
      NearestCongruent(from, seqNum);
      if indicateSeq == UNSET {
        assert Low(seqNum) == seqNum by { LowOf(seqNum); }
        indicateSeq := seqNum;
        start := seqNum;
      }
      SnLessCompares(seqNum, indicateSeq, n, start);
      if SnLess(seqNum, indicateSeq) {
        return false;
      }
      if seqNum == indicateSeq {
        LowAdds(start, 1);
        indicateSeq := Low(indicateSeq + 1);
        start := start + 1;
      } else {
        LowAdds(start, wsize - 1);
        SnLessCompares(wend, seqNum, start + wsize - 1, n);
        if SnLess(wend, seqNum) {
          ShiftArithmetic(seqNum, n, wsize);
          if seqNum >= wsize - 1 {
            indicateSeq := seqNum + 1 - wsize;
          } else {
            indicateSeq := 0xFFF - (wsize - (seqNum + 1)) + 1;
          }
          start := n + 1 - wsize;
        }
      }
      MovedStartIs(from, n, wsize);
      return true;
    }

    /** enqueue_reorder_recvframe: insert in order, unless the number is already there. */
    method EnqueueReorder(f: Frame, ghost n: int) returns (ok: bool)
      requires Linked() && Low(n) == f.seqNum
      requires forall m :: m in nums ==> -HALF_SPACE <= m - n < HALF_SPACE
      modifies this`pending, this`nums
      ensures ok <==> n !in old(nums)
      ensures !ok ==> nums == old(nums) && pending == old(pending)
      ensures ok ==> Linked() && HeldMap(nums, pending) == old(HeldMap(nums, pending))[n := f]
      ensures ok ==> forall m :: m in nums <==> m == n || m in old(nums)
    {
      hide HeldMap, SnLess, Low;
      var plist := 0;
      while plist < |pending|
        invariant 0 <= plist <= |pending|
        invariant nums == old(nums) && pending == old(pending)
        invariant forall i :: 0 <= i < plist ==> nums[i] < n
      {
        assert nums[plist] in nums;
        SnLessCompares(pending[plist].seqNum, f.seqNum, nums[plist], n);
        if SnLess(pending[plist].seqNum, f.seqNum) {
          plist := plist + 1;
        } else if pending[plist].seqNum == f.seqNum {
          return false;
        } else {
          break;
        }
      }
      InsertSorts(nums, plist, n);
      InsertIntoHeld(nums, pending, plist, n, f);
      pending := pending[..plist] + [f] + pending[plist..];
      nums := nums[..plist] + [n] + nums[plist..];
      return true;
    }

    /** Unlinks the first pending frame and hands it up, stepping the window past it if it
        was at the start. */
    method ReleaseHead(ghost n: int)
      requires Linked() && indicateSeq == Low(start)
      requires pending != [] && n == nums[0] && start - HALF_SPACE < n <= start
      modifies this`indicateSeq, this`pending, this`start, this`nums, this`indicated
      ensures Linked() && indicateSeq == Low(start)
      ensures start == if n == old(start) then n + 1 else old(start)
      ensures nums == old(nums)[1..] && pending == old(pending)[1..]
      ensures indicated == old(indicated) + [(n, old(pending)[0])]
    {
      var head := pending[0];
      pending := pending[1..];
      nums := nums[1..];
      SnLessCompares(indicateSeq, head.seqNum, start, n);
      LowAdds(start, 1);
      if indicateSeq == head.seqNum {
        indicateSeq := Low(indicateSeq + 1);
        start := start + 1;
      }
      indicated := indicated + [(n, head)];
    }

    /** The loop of recv_indicatepkts_in_order.  `from` is any number at or below the start
        and the pending frames. */
    method ReleaseRun(ghost from: int) returns (inBuf: bool)
      requires Linked() && indicateSeq == Low(start)
      requires forall n :: n in nums ==> start - HALF_SPACE < n < start + HALF_SPACE
      requires from <= start && forall n :: n in nums ==> from <= n
      modifies this`indicateSeq, this`pending, this`start, this`nums, this`indicated
      ensures Linked() && indicateSeq == Low(start)
      ensures old(start) <= start
      ensures forall n :: n in nums ==> start < n && n in old(nums)
      ensures inBuf <==> pending != []
      ensures
        var r := Advance(from, old(HeldMap(nums, pending)), old(start));
        r.buffer == Window(start, HeldMap(nums, pending)) && indicated == old(indicated) + r.passedUp
    {
      hide Advance, RunEnd, Ascending, HeldMap, Listed, SnLess, Sorted;
      ghost var nums0, pending0, lo, k := nums, pending, start, 0;
      ListedEmpty();
      inBuf := false;
      while pending != []
        invariant 0 <= k <= |nums0|
        invariant nums == nums0[k..] && pending == pending0[k..]
        invariant Linked() && indicateSeq == Low(start)
        invariant indicated == old(indicated) + Listed(nums0[..k], pending0[..k])
        invariant lo <= start && (start == lo || (k > 0 && start == nums0[k - 1] + 1))
        invariant k > 0 ==> nums0[k - 1] < start
        invariant forall n :: lo <= n < start ==> n in nums0
        invariant !inBuf
        decreases |pending|
      {
        var head := pending[0];
        ghost var n := nums0[k];
        HeadInReach(nums0, k, start, lo);
        SnLessCompares(indicateSeq, head.seqNum, start, n);
        if SnLess(indicateSeq, head.seqNum) {
          inBuf := true;
          break;
        }
        ListedGrows(nums0, pending0, k);
        ReleaseHead(n);
        k := k + 1;
      }
      ReleasedIsAdvance(nums0, pending0, from, lo, start, k);
    }

    /** recv_indicatepkts_in_order: hand up what the window has passed, then the contiguous
        run; when forced, start from the first pending frame. */
    method IndicateInOrder(forced: bool, ghost from: int) returns (inBuf: bool)
      requires Linked() && indicateSeq == Low(start)
      requires forall n :: n in nums ==> start - HALF_SPACE < n < start + HALF_SPACE
      requires forced ==> forall n :: n in nums ==> start < n
      requires from <= start && forall n :: n in nums ==> from <= n
      modifies this`indicateSeq, this`pending, this`start, this`nums, this`indicated
      ensures Linked() && indicateSeq == Low(start)
      ensures old(start) <= start
      ensures forall n :: n in nums ==> start < n && n in old(nums)
      ensures forced && old(pending) == [] ==>
                inBuf && start == old(start) && pending == [] && indicated == old(indicated)
      ensures !(forced && old(pending) == []) ==>
                && (inBuf <==> pending != [])
                && var r := Advance(from, old(HeldMap(nums, pending)), if forced then old(nums)[0] else old(start));
                   r.buffer == Window(start, HeldMap(nums, pending)) && indicated == old(indicated) + r.passedUp
    {
      hide Advance, RunEnd, Ascending, HeldMap;
      if forced {
        if pending == [] {
          return true;
        }
        assert nums[0] in nums;
        HeadIsLeast(nums);
        indicateSeq := pending[0].seqNum;
        start := nums[0];
      }
      inBuf := ReleaseRun(from);
    }

    /** Steps s2 and s3 of recv_indicatepkt_reorder: look at the window, then insert.  A frame
        refused by either step leaves everything as it was. */
    method Admit(f: Frame, ghost from: int, ghost n: int) returns (accepted: bool)
      requires Valid() && f.seqNum < SEQ_SPACE
      requires from == if indicateSeq == UNSET then f.seqNum else start
      requires n == Nearest(from, f.seqNum)
      modifies this`indicateSeq, this`start, this`pending, this`nums
      ensures accepted <==> from <= n && n !in old(nums)
      ensures !accepted ==> unchanged(this`indicateSeq, this`pending, this`nums)
                            && (indicateSeq == UNSET || start == old(start))
      ensures accepted ==>
                && Linked() && indicateSeq == Low(start)
                && start == MovedStart(from, n, wsize)
                && HeldMap(nums, pending) == old(HeldMap(nums, pending))[n := f]
                && forall m :: m in nums <==> m == n || m in old(nums)
    {
      hide HeldMap, Sorted, SnLess, Low, Nearest;
      NearestCongruent(from, f.seqNum);
      accepted := CheckIndicateSeq(f.seqNum);
      if accepted {
        accepted := EnqueueReorder(f, n);
        // A number already pending is inside the window and above its start, so nothing moved.
      }
    }

    /** recv_indicatepkt_reorder up to the point where the lock is dropped.  `cancel` is set
        when the caller still owes the timer's cancellation. */
    method IndicateReorder(f: Frame) returns (accepted: bool, cancel: bool)
      requires Valid() && f.seqNum < SEQ_SPACE
      modifies this
      ensures Valid()
      ensures BlockAck.Valid(old(Contents()), wsize)
      ensures
        var r := Receive(old(Contents()), wsize, f.seqNum, f);
        && accepted == r.accepted
        && Contents() == r.buffer
        && indicated == old(indicated) + r.passedUp
        && timerArmed == (old(timerArmed) || (accepted && Holding(r.buffer)))
        && cancel == (accepted && !Holding(r.buffer))
    {
      hide Receive, Advance, RunEnd, Ascending, Nearest, HeldMap, Sorted, Holding, SnLess, Low;
      ContentsValid();
      ghost var from := if indicateSeq == UNSET then f.seqNum else start;
      ghost var n := Nearest(from, f.seqNum);
      ghost var held := HeldMap(nums, pending);
      ghost var b := Contents();
      HeldLooksUp(nums, pending);
      cancel := false;
      accepted := Admit(f, from, n);
      if !accepted {
        ReceiveRefuses(b, from, held, wsize, f);
        return;
      }
      var inBuf := IndicateInOrder(false, from);
      AdvanceFrom(from, held[n := f], if from + wsize <= n then n + 1 - wsize else from, MovedStart(from, n, wsize));
      ReceiveFrom(b, from, held, wsize, f);
      ContentsValid();
      if inBuf {
        timerArmed := true;
      } else {
        cancel := true;
      }
    }

    /** The cancellation that follows the locked region. */
    method FinishArrival()
      modifies this`timerArmed
      ensures !timerArmed
    {
      timerArmed := false;
    }

    /** rtw_reordering_ctrl_timeout_handler, the adapter running. */
    method TimeoutHandler()
      requires Valid()
      modifies this
      ensures Valid()
      ensures
        var r := GiveUp(old(Contents()));
        && Contents() == r.buffer
        && indicated == old(indicated) + r.passedUp
        && timerArmed == (old(timerArmed) || !Holding(old(Contents())) || Holding(r.buffer))
    {
      ContentsValid();
      if pending == [] {
        // The empty list is reported as "still in the buffer", so the timer is set again.
        timerArmed := true;
      } else {
        HeldLooksUp(nums, pending);
        LeastIs(HeldMap(nums, pending).Keys, nums[0]);
        var inBuf := IndicateInOrder(true, start);
        if inBuf {
          timerArmed := true;
        }
        ContentsValid();
      }
    }
  }

  lemma HeadIsLeast(nums: seq<int>)
    requires Sorted(nums)
    ensures forall n :: n in nums ==> nums[0] <= n
  {
  }

  lemma ListedEmpty()
    ensures Listed([], []) == []
  {
  }

  /** While the run is being released, the next number stays comparable with the start. */
  lemma HeadInReach(nums: seq<int>, k: nat, start: int, lo: int)
    requires Sorted(nums) && k < |nums| && lo <= start
    requires forall n :: n in nums ==> lo - HALF_SPACE < n < lo + HALF_SPACE
    requires start == lo || (k > 0 && start == nums[k - 1] + 1)
    ensures start - HALF_SPACE < nums[k] < start + HALF_SPACE
    ensures k > 0 ==> nums[k - 1] < nums[k]
  {
    assert nums[k] in nums && (k > 0 ==> nums[k - 1] in nums);
  }

  lemma ListedGrows(nums: seq<int>, frames: seq<Frame>, k: nat)
    requires |nums| == |frames| && k < |nums|
    ensures Listed(nums[..k + 1], frames[..k + 1]) == Listed(nums[..k], frames[..k]) + [(nums[k], frames[k])]
  {
  }

  lemma LeastIs(s: set<int>, m: int)
    requires m in s && forall k :: k in s ==> m <= k
    ensures Least(s) == m
  {
    assert Least(s) in s;
  }

  /** Whether or not the window was set, an accepted frame moves it from `from`. */
  lemma ReceiveFrom(b: Buffer<Frame>, from: int, held: map<int, Frame>, size: nat, f: Frame)
    requires BlockAck.Valid(b, size) && 1 <= size
    requires match b case Unset => from == f.seqNum && held == map[]
                     case Window(start, h) => from == start && held == h
    requires from <= Nearest(from, f.seqNum) && Nearest(from, f.seqNum) !in held
    ensures
      var n := Nearest(from, f.seqNum);
      Receive(b, size, f.seqNum, f)
      == Advance(from, held[n := f], if from + size <= n then n + 1 - size else from)
      && Receive(b, size, f.seqNum, f).accepted
  {
  }

  lemma ReceiveRefuses(b: Buffer<Frame>, from: int, held: map<int, Frame>, size: nat, f: Frame)
    requires BlockAck.Valid(b, size) && f.seqNum < SEQ_SPACE
    requires match b case Unset => from == f.seqNum && held == map[]
                     case Window(start, h) => from == start && held == h
    requires Nearest(from, f.seqNum) < from || Nearest(from, f.seqNum) in held
    ensures Receive(b, size, f.seqNum, f) == Outcome(b, [], false)
  {
  }

  /** The code steps over the start before it inserts the frame that was at it. */
  lemma AdvanceFrom(from: int, held: map<int, Frame>, lo: int, lo': int)
    requires lo' == lo || (lo' == lo + 1 && lo in held)
    ensures Advance(from, held, lo) == Advance(from, held, lo')
  {
    var e := RunEnd(held, lo);
    assert lo' <= e by {
      assert lo in held || lo' == lo;
    }
    RunEndIs(held, lo', e);
  }

  // ---------------------------------------------------------------------------
  // A whole session
  // ---------------------------------------------------------------------------

  /** Drives one control block through a sequence of events.  It ends where the session of
      module ReorderSession ends, having handed up the same frames. */
  method Replay(wsize: nat, events: seq<Event>)
    returns (c: ReorderCtrl, firing: bool, cancelDue: bool)
    requires 1 <= wsize <= 255
    requires forall e :: e in events && e.Arrive? ==> e.frame.seqNum < SEQ_SPACE
    ensures c.Valid() && Kept(FRESH, wsize)
    ensures
      var t := Run(FRESH, events, wsize);
      && c.Contents() == t.buffer && c.indicated == t.passedUp
      && c.timerArmed == t.armed && firing == t.firing && cancelDue == t.cancelDue
  {
    hide Receive, GiveUp, Increasing, Conserved, Ordered, AllIn, HeldMap, Sorted, Low;
    c := new ReorderCtrl(wsize);
    firing, cancelDue := false, false;
    FreshKept(wsize);
    ghost var s := FRESH;
    var i := 0;
    while i < |events|
      invariant 0 <= i <= |events|
      invariant c.Valid() && c.wsize == wsize && fresh(c)
      invariant Kept(s, wsize)
      invariant c.Contents() == s.buffer && c.indicated == s.passedUp
      invariant c.timerArmed == s.armed && firing == s.firing && cancelDue == s.cancelDue
      invariant Run(s, events[i..], wsize) == Run(FRESH, events, wsize)
    {
      var e := events[i];
      assert events[i..][0] == e && events[i..][1..] == events[i + 1..];
      ghost var t := Step(s, e, wsize);
      StepKeeps(s, e, wsize);
      match e {
        case Arrive(f) =>
          // The receive tasklet is not back before it has finished with the last frame.
          ReceiveEffect(s.buffer, wsize, f.seqNum, f);
          assert s.passedUp + [] == s.passedUp;
          if !cancelDue {
            var accepted, cancel := c.IndicateReorder(f);
            cancelDue := cancel;
          }
        case FinishArrival =>
          if cancelDue {
            c.FinishArrival();
            cancelDue := false;
          }
        case TimerExpires =>
          if c.timerArmed && !firing {
            c.timerArmed := false;
            firing := true;
          }
        case RunHandler =>
          if firing {
            firing := false;
            c.TimeoutHandler();
          }
      }
      s := t;
      i := i + 1;
    }
  }

  lemma FreshKept(size: nat)
    ensures Kept(FRESH, size)
  {
  }
}
