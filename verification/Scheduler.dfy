/**
 The process list and the choice of the next process (task/scheduler.c:7-44; task/process.c:121-123;
 syscall/syscalls.c:58-83).
 */
module Scheduler {

  import opened Basics

  datatype Process = Process(next: Ref, finished: bool)

  type Procs = map<Ref, Process>

  function NextOf(procs: Procs, p: Ref): Ref {
    if p in procs then procs[p].next else NULL
  }

  predicate Finished(procs: Procs, p: Ref) {
    p in procs && procs[p].finished
  }

  /** The next pointers from l[0] on spell out l, without repetition. */
  ghost predicate Chain(procs: Procs, l: seq<Ref>) {
    && (forall k | 0 <= k < |l| :: l[k] in procs && l[k] != NULL)
    && (forall i, j | 0 <= i < j < |l| :: l[i] != l[j])
    && (forall k: nat {:trigger NextOf(procs, l[k])} | k < |l| :: NextOf(procs, l[k]) == Nth(l, k + 1))
  }

  // ---- the choice ----------------------------------------------------------------------------------

  /** The first position from j on whose process is not finished; the length when there is none. */
  function FirstLive(procs: Procs, l: seq<Ref>, j: nat): (m: nat)
    requires j <= |l|
    ensures j <= m <= |l|
    ensures m < |l| ==> !Finished(procs, l[m])
    ensures forall k | j <= k < m :: Finished(procs, l[k])
    decreases |l| - j
  {
    if j == |l| || !Finished(procs, l[j]) then j else FirstLive(procs, l, j + 1)
  }

  /** The position chosen when the next pointer of the current process is at position j. */
  function Choice(procs: Procs, l: seq<Ref>, j: nat): (m: nat)
    requires j <= |l| && l != []
    ensures m < |l|
    ensures Finished(procs, l[m]) ==> m == 0
  {
    var m := FirstLive(procs, l, j);
    if m == |l| then 0 else m
  }

  /** The position chosen by the last of `steps` switches. */
  function After(procs: Procs, l: seq<Ref>, j: nat, steps: nat): (m: nat)
    requires j <= |l| && l != [] && steps > 0
    ensures m < |l|
    decreases steps
  {
    if steps == 1 then Choice(procs, l, j) else After(procs, l, Choice(procs, l, j) + 1, steps - 1)
  }

  /** Within one lap every unfinished process, and the head, is chosen. */
  lemma {:induction false} FairFrom(procs: Procs, l: seq<Ref>, j: nat, m: nat) returns (steps: nat)
    requires 0 < j <= |l| && m < |l| && (m == 0 || !Finished(procs, l[m]))
    ensures 0 < steps <= (if j <= m then m - j + 1 else |l| - j + 1 + m) && After(procs, l, j, steps) == m
    decreases if j <= m then m - j else |l| - j + 1 + m
  {
    var c := Choice(procs, l, j);
    if c == m {
      steps := 1;
    } else {
      var more := FairFrom(procs, l, c + 1, m);
      steps := more + 1;
    }
  }

  /** Round-robin fairness: from wherever the current process points into the list, every unfinished
      process of the list is chosen within as many switches as the list has processes. */
  lemma Fair(procs: Procs, l: seq<Ref>, j: nat, m: nat)
    requires 0 < j <= |l| && m < |l| && !Finished(procs, l[m])
    ensures exists steps: nat :: 0 < steps <= |l| && After(procs, l, j, steps) == m
  {
    var steps := FairFrom(procs, l, j, m);
  }

  // ---- removing finished processes -----------------------------------------------------------------

  /** What is left of a stretch behind the head; `skip` says that the node before it has just been cut off,
      so that the next finished one is not. */
  function Sweep(procs: Procs, l: seq<Ref>, skip: bool): seq<Ref>
    decreases |l|
  {
    if l == [] then []
    else if Finished(procs, l[0]) && !skip then Sweep(procs, l[1..], true)
    else [l[0]] + Sweep(procs, l[1..], false)
  }

  /** Nothing that runs is cut off. */
  lemma {:induction false} SweepKeepsLive(procs: Procs, l: seq<Ref>, skip: bool, p: Ref)
    requires p in l && !Finished(procs, p)
    ensures p in Sweep(procs, l, skip)
    decreases |l|
  {
    if l[0] != p {
      SweepKeepsLive(procs, l[1..], Finished(procs, l[0]) && !skip, p);
    }
  }

  /** The list after reap_finished_processes: the head always stays. */
  function Reaped(procs: Procs, l: seq<Ref>): seq<Ref> {
    if l == [] then [] else [l[0]] + Sweep(procs, l[1..], false)
  }

  ghost predicate AllLive(procs: Procs, l: seq<Ref>) {
    forall k | 0 <= k < |l| :: !Finished(procs, l[k])
  }

  ghost predicate NoTwoInARow(procs: Procs, l: seq<Ref>) {
    forall k: nat | k + 1 < |l| :: !(Finished(procs, l[k]) && Finished(procs, Nth(l, k + 1)))
  }

  lemma {:induction false} SweepLiveIff(procs: Procs, l: seq<Ref>, skip: bool)
    ensures AllLive(procs, Sweep(procs, l, skip)) <==>
            NoTwoInARow(procs, l) && (skip && l != [] ==> !Finished(procs, l[0]))
    decreases |l|
  {
    if l != [] {
      var f := Finished(procs, l[0]);
      SweepLiveIff(procs, l[1..], f && !skip);
      RowStep(procs, l);
      if !(f && !skip) {
        var s := Sweep(procs, l[1..], false);
        assert Sweep(procs, l, skip) == [l[0]] + s;
        assert AllLive(procs, [l[0]] + s) <==> !f && AllLive(procs, s) by {
          assert ([l[0]] + s)[0] == l[0];
          assert forall k | 0 <= k < |s| :: ([l[0]] + s)[k + 1] == s[k];
        }
      }
    }
  }

  lemma RowStep(procs: Procs, l: seq<Ref>)
    requires l != []
    ensures NoTwoInARow(procs, l) <==>
            NoTwoInARow(procs, l[1..]) && (|l| > 1 && Finished(procs, l[0]) ==> !Finished(procs, l[1]))
  {
    if NoTwoInARow(procs, l) {
      forall k: nat | k + 1 < |l[1..]|
        ensures !(Finished(procs, l[1..][k]) && Finished(procs, Nth(l[1..], k + 1)))
      {
        assert l[1..][k] == l[k + 1];
      }
    }
    if NoTwoInARow(procs, l[1..]) {
      forall k: nat | 0 < k && k + 1 < |l|
        ensures !(Finished(procs, l[k]) && Finished(procs, Nth(l, k + 1)))
      {
        assert l[1..][k - 1] == l[k];
      }
    }
  }

  /** Reaping leaves no finished process behind the head exactly when no two of them are neighbours. */
  lemma ReapCleanIff(procs: Procs, l: seq<Ref>)
    requires l != []
    ensures AllLive(procs, Reaped(procs, l)[1..]) <==> NoTwoInARow(procs, l[1..])
  {
    assert Reaped(procs, l)[1..] == Sweep(procs, l[1..], false);
    SweepLiveIff(procs, l[1..], false);
  }

  // ---- the list in memory --------------------------------------------------------------------------

  /** Taking the node behind position k out of the list by its predecessor's pointer. */
  lemma Unlink(procs: Procs, l: seq<Ref>, k: nat)
    requires Chain(procs, l) && k + 1 < |l|
    ensures Chain(procs[l[k] := procs[l[k]].(next := NextOf(procs, l[k + 1]))], l[..k + 1] + l[k + 2..])
  {
    var q, m := procs[l[k] := procs[l[k]].(next := NextOf(procs, l[k + 1]))], l[..k + 1] + l[k + 2..];
    forall i: nat | i < |m|
      ensures NextOf(q, m[i]) == Nth(m, i + 1)
    {
      assert NextOf(procs, l[k + 1]) == Nth(l, k + 2);
      if i <= k {
        assert NextOf(procs, l[i]) == Nth(l, i + 1);
      } else {
        assert m[i] == l[i + 1];
        assert NextOf(procs, l[i + 1]) == Nth(l, i + 2);
      }
    }
  }

  /** A pointer outside the list can change without changing the list. */
  lemma Elsewhere(procs: Procs, l: seq<Ref>, p: Ref, v: Process)
    requires Chain(procs, l) && p !in l && p in procs
    ensures Chain(procs[p := v], l)
  {
    forall k: nat | k < |l|
      ensures NextOf(procs[p := v], l[k]) == Nth(l, k + 1)
    {
      assert NextOf(procs, l[k]) == Nth(l, k + 1);
    }
  }

  lemma AppendLast(procs: Procs, l: seq<Ref>, child: Ref)
    requires Chain(procs, l) && l != [] && child !in procs && child != NULL
    ensures Chain(procs[l[|l| - 1] := procs[l[|l| - 1]].(next := child)][child := Process(NULL, false)], l + [child])
  {
    var last, m := l[|l| - 1], l + [child];
    var q := procs[last := procs[last].(next := child)][child := Process(NULL, false)];
    forall k: nat | k < |m|
      ensures NextOf(q, m[k]) == Nth(m, k + 1)
    {
      if k < |l| - 1 {
        assert NextOf(procs, l[k]) == Nth(l, k + 1);
      }
    }
  }

  /** Only next pointers have changed. */
  ghost predicate SameStates(procs: Procs, q: Procs) {
    q.Keys == procs.Keys && forall p | p in procs :: q[p].finished == procs[p].finished
  }

  /** Where the sweep stands before position k of the old list: `built` and the rest of it are linked. */
  ghost predicate Sweeping(procs0: Procs, l: seq<Ref>, procs: Procs, built: seq<Ref>, k: nat, pp: Ref, skip: bool) {
    && 0 < k <= |l| && pp == l[k - 1] && SameStates(procs0, procs)
    && Chain(procs, built + l[k..])
    && Reaped(procs0, l) == built + Sweep(procs0, l[k..], skip)
    && built != [] && (if skip then k > 1 && pp !in built + l[k..] else built[|built| - 1] == pp)
  }

  /** The current node stays. */
  lemma SweepKeeps(procs0: Procs, l: seq<Ref>, procs: Procs, procs': Procs, built: seq<Ref>, k: nat, pp: Ref, skip: bool)
    requires Sweeping(procs0, l, procs, built, k, pp, skip) && k < |l|
    requires !Finished(procs0, l[k]) || skip
    requires procs' == procs || (skip && pp in procs && procs' == procs[pp := procs[pp].(next := NextOf(procs, l[k]))])
    ensures Sweeping(procs0, l, procs', built + [l[k]], k + 1, l[k], false)
  {
    var rest := built + l[k..];
    assert l[k..] == [l[k]] + l[k + 1..];
    assert rest == built + [l[k]] + l[k + 1..];
    if procs' != procs {
      Elsewhere(procs, rest, pp, procs'[pp]);
    }
  }

  /** The current node is cut off. */
  lemma SweepCuts(procs0: Procs, l: seq<Ref>, procs: Procs, built: seq<Ref>, k: nat, pp: Ref)
    requires Sweeping(procs0, l, procs, built, k, pp, false) && k < |l| && Finished(procs0, l[k])
    ensures pp in procs && Sweeping(procs0, l, procs[pp := procs[pp].(next := NextOf(procs, l[k]))], built, k + 1, l[k], true)
  {
    var rest, b := built + l[k..], |built| - 1;
    assert l[k..] == [l[k]] + l[k + 1..];
    assert rest[b] == pp && rest[b + 1] == l[k];
    Unlink(procs, rest, b);
    assert rest[..b + 1] + rest[b + 2..] == built + l[k + 1..];
    assert forall i | 0 <= i < |rest| && i != b + 1 :: rest[i] != rest[b + 1];
  }

  lemma NextInSweep(procs0: Procs, l: seq<Ref>, procs: Procs, built: seq<Ref>, k: nat, pp: Ref, skip: bool)
    requires Sweeping(procs0, l, procs, built, k, pp, skip) && k < |l|
    ensures l[k] in procs && NextOf(procs, l[k]) == Nth(l, k + 1)
  {
    var rest := built + l[k..];
    assert rest[|built|] == l[k];
    assert NextOf(procs, rest[|built|]) == Nth(rest, |built| + 1);
  }

  class Tasks {
    var procs: Procs
    var head: Ref
    var current: Ref
    var next: Ref              // references from here on are not in use
    ghost var list: seq<Ref>

    /** The list is in order; the current process is in it, or, once it has exited, points into it. */
    ghost predicate Linked()
      reads this
    {
      && list != [] && list[0] == head && Chain(procs, list) && NULL !in procs
      && current in procs && InList(NextOf(procs, current), list) && (current in list || Finished(procs, current))
    }

    /** Between system calls, only the head may be finished. */
    ghost predicate Valid()
      reads this
    {
      Linked() && AllLive(procs, list[1..]) && next > 0 && forall p | p in procs :: p < next
    }

    constructor ()
      ensures Valid() && list == [head] && current == head && !Finished(procs, head)
    {
      procs, head, current, next := map[1 := Process(NULL, false)], 1, 1, 2;
      list := [1];
    }

    /** get_next_process. */
    method GetNextProcess() returns (p: Ref, ghost j: nat)
      requires Linked()
      ensures 0 < j <= |list| && Nth(list, j) == NextOf(procs, current)
      ensures j == PositionOf(list, NextOf(procs, current))
      ensures p == list[Choice(procs, list, PositionOf(list, NextOf(procs, current)))]
      ensures current in list ==> list[j - 1] == current
    {
      j := PositionOf(list, NextOf(procs, current));
      CurrentBefore(procs, list, current, j);
      if procs[current].next == NULL {
        return head, j;
      }
      var ret := procs[current].next;
      ghost var k := j;
      while ret != NULL && procs[ret].finished
        invariant j <= k <= |list| && ret == Nth(list, k)
        invariant FirstLive(procs, list, j) == FirstLive(procs, list, k)
        decreases |list| - k
      {
        assert NextOf(procs, list[k]) == Nth(list, k + 1);
        ret := procs[ret].next;
        k := k + 1;
      }
      if ret == NULL {
        return head, j;
      }
      return ret, j;
    }

    /** reap_finished_processes on the list; the head is never cut off, whatever its state. */
    method Reap()
      requires list != [] && list[0] == head && Chain(procs, list) && NULL !in procs
      modifies this`procs, this`list
      ensures list == Reaped(old(procs), old(list)) && list[0] == head
      ensures Chain(procs, list) && SameStates(old(procs), procs)
      ensures NoTwoInARow(old(procs), old(list)[1..]) ==> LeaversKept(old(procs), procs, list)
    {
      ghost var l, procs0 := list, procs;
      var pp, p := head, procs[head].next;
      ghost var built, k, skip := [head], 1, false;
      assert [head] + l[1..] == l;
      assert NextOf(procs, l[0]) == Nth(l, 1);
      while p != NULL
        invariant NULL !in procs && Sweeping(procs0, l, procs, built, k, pp, skip) && p == Nth(l, k) && built[0] == head
        invariant NoTwoInARow(procs0, l[1..]) ==> LeaversKept(procs0, procs, built) && (skip ==> Finished(procs0, pp))
        decreases |l| - k
      {
        NextInSweep(procs0, l, procs, built, k, pp, skip);
        ghost var before := procs;
        if skip && NoTwoInARow(procs0, l[1..]) {
          assert k > 1 && l[1..][k - 2] == l[k - 1] && Nth(l[1..], k - 1) == l[k];
        }
        if procs[p].finished {
          procs := procs[pp := procs[pp].(next := procs[p].next)];
        }
        if Finished(procs0, p) && !skip {
          SweepCuts(procs0, l, before, built, k, pp);
          skip := true;
        } else {
          SweepKeeps(procs0, l, before, procs, built, k, pp, skip);
          built, skip := built + [p], false;
        }
        k := k + 1;
        pp := p;
        p := procs[p].next;
      }
      assert l[k..] == [] && built + [] == built;
      list := built;
    }

    /** The walk of fork to the end of the list. */
    method LastProcess() returns (p: Ref)
      requires Valid()
      ensures p == list[|list| - 1] && p in procs
    {
      p := head;
      ghost var k := 0;
      while procs[p].next != NULL
        invariant 0 <= k < |list| && p == list[k]
        decreases |list| - k
      {
        assert NextOf(procs, list[k]) == Nth(list, k + 1);
        p := procs[p].next;
        k := k + 1;
      }
      assert NextOf(procs, list[k]) == Nth(list, k + 1);
    }

    /** The list part of fork: the child goes to the end. */
    method Fork() returns (child: Ref)
      requires Valid()
      modifies this`procs, this`next, this`list
      ensures Valid() && child == old(next) && list == old(list) + [child] && !Finished(procs, child)
      ensures forall p | p in old(procs) :: p in procs && procs[p].finished == old(procs)[p].finished
    {
      child := next;
      next := next + 1;
      var p := LastProcess();
      AppendLast(procs, list, child);
      PointersKept(procs, list, current, child);
      LiveKept(procs, list, p, child);
      procs := procs[p := procs[p].(next := child)][child := Process(NULL, false)];
      list := list + [child];
    }

    /** Reaping when the k-th process is the only one finished behind the head. */
    method ReapOne(ghost k: nat)
      requires list != [] && list[0] == head && Chain(procs, list) && NULL !in procs
      requires k < |list| && Finished(procs, list[k]) && NoTwoInARow(procs, list[1..])
      requires forall i | 0 < i < |list| && i != k :: !Finished(procs, list[i])
      modifies this`procs, this`list
      ensures list == (if k == 0 then old(list) else Without(old(list), old(list)[k])) && list != [] && list[0] == head
      ensures Chain(procs, list) && SameStates(old(procs), procs) && AllLive(procs, list[1..])
      ensures InList(NextOf(procs, old(list)[k]), list)
    {
      Reap();
      ReapedOne(old(procs), old(list), k);
      SameLive(old(procs), procs, list[1..]);
      ExitPoints(old(procs), procs, old(list), list, k);
    }

    /** _exit: the current process is finished and, unless it is the head, out of the list. */
    method Exit()
      requires Valid() && current in list && !Finished(procs, current)
      modifies this`procs, this`list
      ensures Valid() && Finished(procs, current)
      ensures list == if current == head then old(list) else Without(old(list), current)
      ensures forall p | p in old(procs) && p != current :: p in procs && procs[p].finished == old(procs)[p].finished
    {
      ghost var k: nat :| k < |list| && list[k] == current;
      MarkFinished(procs, list, k);
      procs := procs[current := procs[current].(finished := true)];
      ReapOne(k);
    }

    /** switch_task: the next process becomes the current one. */
    method SwitchTask() returns (ghost j: nat)
      requires Valid()
      modifies this`current
      ensures Valid() && 0 < j <= |list| && Nth(list, j) == NextOf(procs, old(current))
      ensures current == list[Choice(procs, list, j)] && (Finished(procs, current) ==> current == head)
    {
      var p;
      p, j := GetNextProcess();
      ListPoints(procs, list, Choice(procs, list, j));
      if p == current {
        return;
      }
      current := p;
    }

    /** k switches with no call of a program between them, and the processes that ran: with one lap or more
        every unfinished process of the list has run. */
    method Switches(k: nat) returns (ghost j: nat, ghost ran: seq<Ref>)
      requires Valid()
      modifies this`current
      ensures Valid() && |ran| == k && 0 < j <= |list| && Nth(list, j) == NextOf(procs, old(current))
      ensures forall m | 0 <= m < k :: ran[m] == list[After(procs, list, j, m + 1)]
      ensures current == if k == 0 then old(current) else ran[k - 1]
      ensures k >= |list| ==> forall p | p in list && !Finished(procs, p) :: p in ran
    {
      j, ran := PositionOf(list, NextOf(procs, current)), [];
      for i := 0 to k
        invariant Valid() && |ran| == i && current == if i == 0 then old(current) else ran[i - 1]
        invariant RanFrom(procs, list, j, ran)
      {
        ghost var from := current;
        ghost var at := SwitchTask();
        SamePosition(procs, list, from, at, if i == 0 then j else After(procs, list, j, i) + 1);
        RanNext(procs, list, j, ran, current);
        ran := ran + [current];
      }
      if k >= |list| {
        AllRun(procs, list, j, ran);
      }
    }
  }

  /** The next pointer of a process names one position. */
  lemma SamePosition(procs: Procs, l: seq<Ref>, cur: Ref, i: nat, j: nat)
    requires Chain(procs, l) && 0 < i <= |l| && 0 < j <= |l| && Nth(l, i) == NextOf(procs, cur)
    requires Nth(l, j) == NextOf(procs, cur) || l[j - 1] == cur
    ensures i == j
  {
    if l[j - 1] == cur {
      assert NextOf(procs, l[j - 1]) == Nth(l, j);
    }
  }

  /** One switch more. */
  lemma {:induction false} AfterNext(procs: Procs, l: seq<Ref>, j: nat, steps: nat)
    requires j <= |l| && l != [] && steps > 0
    ensures After(procs, l, j, steps + 1) == Choice(procs, l, After(procs, l, j, steps) + 1)
    decreases steps
  {
    if steps > 1 {
      AfterNext(procs, l, Choice(procs, l, j) + 1, steps - 1);
    }
  }

  /** What has run after |ran| switches from position j on. */
  ghost predicate RanFrom(procs: Procs, l: seq<Ref>, j: nat, ran: seq<Ref>)
    requires j <= |l| && l != []
  {
    forall m | 0 <= m < |ran| :: ran[m] == l[After(procs, l, j, m + 1)]
  }

  lemma RanNext(procs: Procs, l: seq<Ref>, j: nat, ran: seq<Ref>, p: Ref)
    requires j <= |l| && l != [] && RanFrom(procs, l, j, ran)
    requires p == l[Choice(procs, l, if ran == [] then j else After(procs, l, j, |ran|) + 1)]
    ensures RanFrom(procs, l, j, ran + [p])
  {
    if ran != [] {
      AfterNext(procs, l, j, |ran|);
    }
  }

  lemma AllRun(procs: Procs, l: seq<Ref>, j: nat, ran: seq<Ref>)
    requires 0 < j <= |l| <= |ran|
    requires forall m | 0 <= m < |ran| :: ran[m] == l[After(procs, l, j, m + 1)]
    ensures forall p | p in l && !Finished(procs, p) :: p in ran
  {
    forall p | p in l && !Finished(procs, p)
      ensures p in ran
    {
      var m :| 0 <= m < |l| && l[m] == p;
      Fair(procs, l, j, m);
      var steps: nat :| 0 < steps <= |l| && After(procs, l, j, steps) == m;
      assert ran[steps - 1] == p;
    }
  }

  /** Cutting off is all a sweep does to nodes that leave, when no two neighbours are finished. */
  ghost predicate LeaversKept(procs0: Procs, procs: Procs, l: seq<Ref>) {
    forall p | p in procs0 && p in procs && p !in l :: procs[p] == procs0[p]
  }

  /** A pointer that is NULL or points into the list behind its head. */
  ghost predicate InList(p: Ref, l: seq<Ref>) {
    p == NULL || exists k: nat :: 0 < k < |l| && l[k] == p
  }

  ghost function PositionOf(l: seq<Ref>, p: Ref): (j: nat)
    requires InList(p, l) && l != [] && NULL !in l
    ensures 0 < j <= |l| && Nth(l, j) == p
  {
    if p == NULL then |l| else var k: nat :| 0 < k < |l| && l[k] == p; k
  }

  lemma CurrentBefore(procs: Procs, l: seq<Ref>, cur: Ref, j: nat)
    requires Chain(procs, l) && l != [] && 0 < j <= |l| && Nth(l, j) == NextOf(procs, cur)
    ensures cur in l ==> l[j - 1] == cur
  {
    if cur in l {
      var k: nat :| k < |l| && l[k] == cur;
      assert NextOf(procs, l[k]) == Nth(l, k + 1);
    }
  }

  function Without(l: seq<Ref>, p: Ref): seq<Ref> {
    if l == [] then [] else if l[0] == p then l[1..] else [l[0]] + Without(l[1..], p)
  }

  lemma ListPoints(procs: Procs, l: seq<Ref>, k: nat)
    requires Chain(procs, l) && k < |l|
    ensures InList(NextOf(procs, l[k]), l) && l[k] in procs
  {
    assert NextOf(procs, l[k]) == Nth(l, k + 1);
  }

  lemma PointersKept(procs: Procs, l: seq<Ref>, cur: Ref, child: Ref)
    requires Chain(procs, l) && l != [] && child !in procs && child != NULL && cur in procs && InList(NextOf(procs, cur), l)
    ensures var last := l[|l| - 1];
            InList(NextOf(procs[last := procs[last].(next := child)][child := Process(NULL, false)], cur), l + [child])
  {
    var last, m := l[|l| - 1], l + [child];
    assert m[|l|] == child;
    if NextOf(procs, cur) != NULL {
      var k: nat :| 0 < k < |l| && l[k] == NextOf(procs, cur);
      assert m[k] == l[k];
    }
  }

  lemma LiveKept(procs: Procs, l: seq<Ref>, p: Ref, child: Ref)
    requires Chain(procs, l) && l != [] && p in procs && child !in procs && AllLive(procs, l[1..])
    ensures AllLive(procs[p := procs[p].(next := child)][child := Process(NULL, false)], (l + [child])[1..])
  {
    var m := l + [child];
    assert m[1..] == l[1..] + [child];
    forall k | 0 <= k < |m[1..]|
      ensures !Finished(procs[p := procs[p].(next := child)][child := Process(NULL, false)], m[1..][k])
    {
      if k < |l[1..]| {
        assert !Finished(procs, l[1..][k]);
      }
    }
  }

  /** Marking one process leaves the list as it is, with at most that one finished behind the head. */
  lemma MarkFinished(procs: Procs, l: seq<Ref>, k: nat)
    requires Chain(procs, l) && k < |l| && AllLive(procs, l[1..])
    ensures var q := procs[l[k] := procs[l[k]].(finished := true)];
            && Chain(q, l) && NoTwoInARow(q, l[1..])
            && forall i | 0 < i < |l| && i != k :: !Finished(q, l[i])
  {
    var q := procs[l[k] := procs[l[k]].(finished := true)];
    forall i: nat | i < |l|
      ensures NextOf(q, l[i]) == Nth(l, i + 1)
    {
      assert NextOf(procs, l[i]) == Nth(l, i + 1);
    }
    assert forall i | 0 < i < |l| :: l[i] == l[1..][i - 1];
  }

  lemma {:induction false} SweepOne(procs: Procs, l: seq<Ref>, p: Ref)
    requires forall i, j | 0 <= i < j < |l| :: l[i] != l[j]
    requires forall x | x in l :: Finished(procs, x) <==> x == p
    ensures Sweep(procs, l, false) == Without(l, p)
    ensures p !in l ==> Sweep(procs, l, true) == l && Without(l, p) == l
    decreases |l|
  {
    if l != [] {
      assert forall i | 0 <= i < |l[1..]| :: l[1..][i] == l[i + 1];
      SweepOne(procs, l[1..], p);
    }
  }

  /** Reaping right after one exit takes out that process and no other. */
  lemma ReapedOne(procs: Procs, l: seq<Ref>, k: nat)
    requires Chain(procs, l) && k < |l| && Finished(procs, l[k])
    requires forall i | 0 < i < |l| && i != k :: !Finished(procs, l[i])
    ensures Reaped(procs, l) == if k == 0 then l else Without(l, l[k])
    ensures AllLive(procs, Reaped(procs, l)[1..])
  {
    assert forall i | 0 <= i < |l[1..]| :: l[1..][i] == l[i + 1];
    SweepOne(procs, l[1..], l[k]);
    NoneLeft(procs, l, k);
  }

  lemma NoneLeft(procs: Procs, l: seq<Ref>, k: nat)
    requires k < |l| && forall i | 0 < i < |l| && i != k :: !Finished(procs, l[i])
    ensures AllLive(procs, Reaped(procs, l)[1..])
  {
    forall i: nat | i + 1 < |l[1..]|
      ensures !(Finished(procs, l[1..][i]) && Finished(procs, Nth(l[1..], i + 1)))
    {
      assert l[1..][i] == l[i + 1] && Nth(l[1..], i + 1) == l[i + 2];
    }
    ReapCleanIff(procs, l);
  }

  lemma {:induction false} WithoutOthers(l: seq<Ref>, p: Ref, x: Ref)
    requires forall i, j | 0 <= i < j < |l| :: l[i] != l[j]
    ensures x in Without(l, p) <==> x in l && x != p
    decreases |l|
  {
    if l != [] {
      assert forall i | 0 <= i < |l[1..]| :: l[1..][i] == l[i + 1];
      assert x in l <==> x == l[0] || x in l[1..];
      WithoutOthers(l[1..], p, x);
    }
  }

  lemma SameLive(marked: Procs, procs: Procs, l: seq<Ref>)
    requires SameStates(marked, procs) && AllLive(marked, l)
    ensures AllLive(procs, l)
  {
    forall k | 0 <= k < |l|
      ensures !Finished(procs, l[k])
    {
      assert !Finished(marked, l[k]);
    }
  }

  /** A process that has left the list still points into it. */
  lemma ExitPoints(marked: Procs, procs: Procs, l: seq<Ref>, m: seq<Ref>, k: nat)
    requires Chain(marked, l) && Chain(procs, m) && k < |l| && m != [] && m[0] == l[0]
    requires SameStates(marked, procs) && LeaversKept(marked, procs, m)
    requires m == if k == 0 then l else Without(l, l[k])
    ensures InList(NextOf(procs, l[k]), m)
  {
    if k == 0 {
      ListPoints(procs, m, 0);
    } else {
      WithoutOthers(l, l[k], l[k]);
      assert NextOf(marked, l[k]) == Nth(l, k + 1);
      if k + 1 < |l| {
        WithoutOthers(l, l[k], l[k + 1]);
        var i: nat :| i < |m| && m[i] == l[k + 1];
      }
    }
  }
}
