/** Lists of distinct nodes, as the kernel's linked queues hold them, and a choice from a set. */
module Lists {

  ghost predicate NoDup<T>(s: seq<T>) {
    forall i, j :: 0 <= i < j < |s| ==> s[i] != s[j]
  }

  /** list_del: takes a node out of the list it is in. */
  function Drop<T(==)>(s: seq<T>, x: T): (r: seq<T>)
    ensures forall y <- r :: y in s
  {
    if s == [] then [] else if s[0] == x then s[1..] else [s[0]] + Drop(s[1..], x)
  }

  lemma {:induction false} DropOne<T>(s: seq<T>, x: T)
    requires NoDup(s)
    ensures NoDup(Drop(s, x)) && forall y :: y in Drop(s, x) <==> y in s && y != x
    ensures |Drop(s, x)| == if x in s then |s| - 1 else |s|
  {
    if s != [] {
      var t := s[1..];
      assert forall y :: y in s <==> y == s[0] || y in t;
      assert s[0] !in t;
      if s[0] != x {
        DropOne(t, x);
        assert forall y :: y in Drop(s, x) <==> y == s[0] || y in Drop(t, x);
      }
    }
  }

  lemma TailsOf<T>(s: seq<T>, at: nat)
    requires NoDup(s) && 0 < at < |s|
    ensures
      var t := s[1..];
      && NoDup(t) && t[at - 1] == s[at] != s[0]
      && s[..at] == [s[0]] + t[..at - 1] && s[at + 1..] == t[at..]
      && Drop(s, s[at]) == [s[0]] + Drop(t, s[at])
  {
    Fronts(s, at);
  }

  lemma Fronts<T>(s: seq<T>, at: nat)
    requires 0 < at < |s|
    ensures s[..at] == [s[0]] + s[1..][..at - 1] && s[at + 1..] == s[1..][at..] && s[1..][at - 1] == s[at]
  {
  }

  lemma {:induction false} DropAt<T>(s: seq<T>, at: nat)
    requires NoDup(s) && at < |s|
    ensures Drop(s, s[at]) == s[..at] + s[at + 1..]
  {
    if at > 0 {
      hide NoDup, Drop;
      var t := s[1..];
      TailsOf(s, at);
      DropAt(t, at - 1);
      assert [s[0]] + (t[..at - 1] + t[at..]) == [s[0]] + t[..at - 1] + t[at..];
    }
  }

  /** One node moved from within one list to the end of the other: still the same nodes, each once. */
  lemma MoveAcross<T>(free: seq<T>, used: seq<T>, at: nat)
    requires NoDup(free + used) && at < |used|
    ensures NoDup(used)
    ensures
      var free2, used2 := free + [used[at]], used[..at] + used[at + 1..];
      && NoDup(free2 + used2)
      && forall x :: x in free2 + used2 <==> x in free + used
  {
    var all := free + used;
    var free2, used2 := free + [used[at]], used[..at] + used[at + 1..];
    forall i, j | 0 <= i < j < |used| ensures used[i] != used[j] {
      assert all[|free| + i] == used[i] && all[|free| + j] == used[j];
    }
    var from := seq(|all|, k requires 0 <= k < |all| =>
      if k < |free| then k else if k == |free| then |free| + at else if k <= |free| + at then k - 1 else k);
    assert |free2 + used2| == |all|;
    forall k | 0 <= k < |all| ensures (free2 + used2)[k] == all[from[k]] && 0 <= from[k] < |all| {
    }
    forall x ensures x in free2 + used2 <==> x in all {
      assert x in used <==> x == used[at] || x in used2;
    }
  }

  /** The head of one list moved to the end of the other. */
  lemma TakeAcross<T>(free: seq<T>, used: seq<T>)
    requires NoDup(free + used) && free != []
    ensures NoDup(free) && free[0] !in used
    ensures NoDup(free[1..] + (used + [free[0]]))
    ensures forall x :: x in free[1..] + (used + [free[0]]) <==> x in free + used
  {
    var all, moved := free + used, free[1..] + (used + [free[0]]);
    forall i, j | 0 <= i < j < |free| ensures free[i] != free[j] {
      assert all[i] == free[i] && all[j] == free[j];
    }
    forall j | 0 <= j < |used| ensures used[j] != free[0] {
      assert all[|free| + j] == used[j] && all[0] == free[0];
    }
    assert forall k :: 0 <= k < |moved| - 1 ==> moved[k] == all[k + 1];
    assert moved[|moved| - 1] == all[0];
    forall x ensures x in moved <==> x in all {
      assert x in free <==> x == free[0] || x in free[1..];
    }
  }

  /** Nodes of one list differ pairwise. */
  lemma EachOnce<T>(free: seq<T>, used: seq<T>)
    requires NoDup(free + used)
    ensures forall i, j :: 0 <= i < j < |used| ==> used[i] != used[j]
  {
    var all := free + used;
    forall i, j | 0 <= i < j < |used| ensures used[i] != used[j] {
      assert all[|free| + i] == used[i] && all[|free| + j] == used[j];
    }
  }

  /** Some element of a set. */
  ghost function Pick<T>(s: set<T>): (x: T)
    requires s != {}
    ensures x in s
  {
    var x :| x in s;
    x
  }

  lemma Apart<T>(free: seq<T>, used: seq<T>)
    requires NoDup(free + used)
    ensures forall x <- used :: x !in free
  {
    var all := free + used;
    forall i, j | 0 <= i < |free| && 0 <= j < |used| ensures free[i] != used[j] {
      assert all[i] == free[i] && all[|free| + j] == used[j];
    }
  }
}
