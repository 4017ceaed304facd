/**
  The ready and wait rings of src/visor/services/kernel/helios: circular doubly linked lists threaded
  through the task control blocks. `ready` and `waiting` are the rings read from their heads along
  `next`; the methods change links in place and are proved to do to these sequences what HeliosOrder says.
 */
module Helios {
  import opened HeliosOrder

  /** HELIOS_DELAY_MAX is SIZE_MAX. */
  const DELAY_MAX: nat := 0xFFFF_FFFF
  const IDLE_TASK_PRIORITY: nat := 1
  const PRIORITY_MAX: nat := 255

  /** The status codes from helios_sched_task_status_wait on. */
  predicate Suspended(status: Status) { status.Wait? || status.Pause? }

  function AfterResume(status: Status): Status { if Suspended(status) then Ready else status }

  ghost predicate NoRepeats(s: seq<Tcb>) {
    forall i, j :: 0 <= i < j < |s| ==> s[i] != s[j]
  }

  ghost function IndexOf(s: seq<Tcb>, t: Tcb): (i: nat)
    requires t in s
    ensures i < |s| && s[i] == t
  {
    if s[0] == t then 0 else 1 + IndexOf(s[1..], t)
  }

  ghost function Succ(i: nat, n: nat): nat { if i + 1 < n then i + 1 else 0 }

  ghost function First(s: seq<Tcb>): Tcb? { if s == [] then null else s[0] }

  /** Task i and its successor point at each other. */
  ghost predicate ReadyLinked(s: seq<Tcb>, i: nat)
    requires i < |s|
    reads s`readyNext, s`readyPrev
  {
    var j := Succ(i, |s|);
    s[i].readyNext == s[j] && s[j].readyPrev == s[i]
  }

  ghost predicate ReadyRing(s: seq<Tcb>)
    reads s`readyNext, s`readyPrev
  {
    NoRepeats(s) && forall i :: 0 <= i < |s| ==> ReadyLinked(s, i)
  }

  ghost predicate WaitLinked(s: seq<Tcb>, i: nat)
    requires i < |s|
    reads s`waitNext, s`waitPrev
  {
    var j := Succ(i, |s|);
    s[i].waitNext == s[j] && s[j].waitPrev == s[i]
  }

  ghost predicate WaitRing(s: seq<Tcb>)
    reads s`waitNext, s`waitPrev
  {
    NoRepeats(s) && forall i :: 0 <= i < |s| ==> WaitLinked(s, i)
  }

  lemma RotateNoRepeats(x: Tcb, s: seq<Tcb>)
    requires NoRepeats([x] + s)
    ensures NoRepeats(s + [x])
  {
    var r := [x] + s;
    forall i | 0 <= i < |s|
      ensures s[i] != x
    {
      assert r[0] != r[i + 1];
    }
    forall i, j | 0 <= i < j < |s|
      ensures s[i] != s[j]
    {
      assert r[i + 1] != r[j + 1];
    }
  }

  /** A ring can be read from any of its tasks. */
  lemma ReadyRotate(x: Tcb, s: seq<Tcb>)
    requires ReadyRing([x] + s)
    ensures ReadyRing(s + [x])
  {
    RotateNoRepeats(x, s);
    var r, t := [x] + s, s + [x];
    forall i | 0 <= i < |t|
      ensures ReadyLinked(t, i)
    {
      assert ReadyLinked(r, Succ(i, |r|));
    }
  }

  lemma WaitRotate(x: Tcb, s: seq<Tcb>)
    requires WaitRing([x] + s)
    ensures WaitRing(s + [x])
  {
    RotateNoRepeats(x, s);
    var r, t := [x] + s, s + [x];
    forall i | 0 <= i < |t|
      ensures WaitLinked(t, i)
    {
      assert WaitLinked(r, Succ(i, |r|));
    }
  }

  lemma WithoutNoRepeats(s: seq<Tcb>, i: nat)
    requires NoRepeats(s) && i < |s|
    ensures NoRepeats(Without(s, i))
  {
    var t := Without(s, i);
    forall j, k | 0 <= j < k < |t|
      ensures t[j] != t[k]
    {
      WithoutAt(s, i, j);
      WithoutAt(s, i, k);
    }
  }

  // ----- the link primitives -----

  /**
    `_helios_sched_insert_before` on the ready link; the result is the value of *ptr. Inserting the
    second task of a two-task ring before its head leaves it linked to itself.
   */
  method ReadyInsertBefore(ref: Tcb?, node: Tcb, ghost s: seq<Tcb>, ghost k: nat) returns (head: Tcb)
    requires ReadyRing(s) && (if s == [] then ref == null && k == 0 else k < |s| && ref == s[k])
    requires node !in s || (|s| == 2 && k == 0 && node == s[1])
    modifies node`readyNext, node`readyPrev, s`readyNext, s`readyPrev
    ensures node !in s ==> ReadyRing(s[..k] + [node] + s[k..])
    ensures node in s ==> node.readyNext == node && node.readyPrev == node
    ensures head == if ref == null then node else ref
  {
    ghost var t := s[..k] + [node] + s[k..];
    if ref == null {
      head := node;
      node.readyNext := node;
      node.readyPrev := node;
    } else {
      ghost var last := if k == 0 then |s| - 1 else k - 1;
      assert ReadyLinked(s, last) && ref.readyPrev == s[last];
      node.readyNext := ref;
      node.readyPrev := ref.readyPrev;
      ref.readyPrev := node;
      node.readyPrev.readyNext := node;
      head := ref;
      if node !in s {
        forall i | 0 <= i < |t|
          ensures ReadyLinked(t, i)
        {
          if i < k {
            assert old(ReadyLinked(s, i));
          } else if i > k {
            assert old(ReadyLinked(s, i - 1));
          }
        }
      }
    }
  }

  /** The unlinking of `_helios_sched_node_detach` on the ready link. */
  method ReadyUnlink(node: Tcb, ghost s: seq<Tcb>, ghost i: nat)
    requires ReadyRing(s) && i < |s| && node == s[i]
    modifies s`readyNext, s`readyPrev
    ensures ReadyRing(Without(s, i))
    ensures node.readyNext == null && node.readyPrev == null
  {
    ghost var last := if i == 0 then |s| - 1 else i - 1;
    assert ReadyLinked(s, i) && ReadyLinked(s, last);
    node.readyPrev.readyNext := node.readyNext;
    node.readyNext.readyPrev := node.readyPrev;
    node.readyPrev, node.readyNext := null, null;
    ghost var t := Without(s, i);
    WithoutNoRepeats(s, i);
    forall j | 0 <= j < |t|
      ensures ReadyLinked(t, j)
    {
      WithoutAt(s, i, j);
      WithoutAt(s, i, Succ(j, |t|));
      assert old(ReadyLinked(s, if j < i then j else j + 1));
    }
  }

  /** The same on the wait link. A node that is already in the ring breaks it, unless it is there alone. */
  method WaitInsertBefore(ref: Tcb?, node: Tcb, ghost s: seq<Tcb>) returns (head: Tcb)
    requires WaitRing(s) && ref == First(s)
    modifies node`waitNext, node`waitPrev, s`waitNext, s`waitPrev
    ensures node !in s ==> WaitRing([node] + s)
    ensures node in s ==> (WaitRing(s) <==> |s| == 1)
    ensures node in s ==> var i := IndexOf(s, node); node.waitNext == if 0 < i < |s| - 1 then s[0] else node
    ensures head == if ref == null then node else ref
  {
    ghost var t := [node] + s;
    if ref == null {
      head := node;
      node.waitNext := node;
      node.waitPrev := node;
    } else {
      assert WaitLinked(s, |s| - 1) && ref.waitPrev == s[|s| - 1];
      node.waitNext := ref;
      node.waitPrev := ref.waitPrev;
      ref.waitPrev := node;
      node.waitPrev.waitNext := node;
      head := ref;
      if node in s {
        ghost var i := IndexOf(s, node);
        assert WaitRing(s) ==> WaitLinked(s, i);
      } else {
        forall i | 0 <= i < |t|
          ensures WaitLinked(t, i)
        {
          if i > 0 {
            assert old(WaitLinked(s, i - 1));
          }
        }
      }
    }
  }

  method WaitUnlink(node: Tcb, ghost s: seq<Tcb>, ghost i: nat)
    requires WaitRing(s) && i < |s| && node == s[i]
    modifies s`waitNext, s`waitPrev
    ensures WaitRing(Without(s, i))
    ensures node.waitNext == null && node.waitPrev == null
  {
    ghost var last := if i == 0 then |s| - 1 else i - 1;
    assert WaitLinked(s, i) && WaitLinked(s, last);
    node.waitPrev.waitNext := node.waitNext;
    node.waitNext.waitPrev := node.waitPrev;
    node.waitPrev, node.waitNext := null, null;
    ghost var t := Without(s, i);
    WithoutNoRepeats(s, i);
    forall j | 0 <= j < |t|
      ensures WaitLinked(t, j)
    {
      WithoutAt(s, i, j);
      WithoutAt(s, i, Succ(j, |t|));
      assert old(WaitLinked(s, if j < i then j else j + 1));
    }
  }

  // ----- g_sched_ctrl -----

  /** Tasks from index i on have equal links, as control blocks that are not linked. */
  ghost predicate NewFrom(tasks: seq<Tcb>, i: nat)
    reads tasks`readyNext, tasks`readyPrev
  {
    forall j :: i <= j < |tasks| ==> tasks[j].readyNext == tasks[j].readyPrev
  }

  /** success, error_func_inval_arg, error_memory_low; or the call is still in the loop that pauses all tasks. */
  datatype Added = Success | BadArgument | MemoryLow | StillPausing

  class Scheduler {
    var readyHead: Tcb?
    var waitHead: Tcb?
    var curr: Tcb?
    ghost var ready: seq<Tcb>
    ghost var waiting: seq<Tcb>

    ghost predicate ReadyValid()
      reads `readyHead, `ready, ready`readyNext, ready`readyPrev
    {
      ReadyRing(ready) && readyHead == First(ready) && Sorted(ready)
    }

    ghost predicate WaitValid()
      reads `waitHead, `waiting, waiting`waitNext, waiting`waitPrev
    {
      WaitRing(waiting) && waitHead == First(waiting)
    }

    /** Lines 288-308: the task before which `node` belongs, and whether that is the head itself. */
    method Walk(node: Tcb) returns (ref: Tcb, leastPrio: bool)
      requires ReadyValid() && ready != []
      ensures var k := FirstAbove(ready, node.priority);
        ref == (if k < |ready| then ready[k] else ready[0]) && leastPrio == (k == 0)
    {
      ref := readyHead;
      leastPrio := true;
      ghost var k := 0;
      while node.priority >= ref.priority
        invariant k < |ready| && ref == ready[k] && leastPrio == (k == 0)
        invariant AtMost(ready[..k], node.priority)
        decreases |ready| - k
      {
        assert ReadyLinked(ready, k);
        leastPrio := false;
        ref := ref.readyNext;
        k := k + 1;
        if ref == readyHead {
          assert k == |ready|;
          break;
        }
      }
      FirstAboveIs(ready, node.priority, k);
    }

    /** `_helios_sched_node_detach` on the ready link. */
    method ReadyDetach(node: Tcb, ghost i: nat)
      requires ReadyRing(ready) && readyHead != null && i < |ready| && node == ready[i]
      modifies this`readyHead, ready`readyNext, ready`readyPrev
      ensures ReadyRing(Without(ready, i))
      ensures readyHead == if node == old(readyHead) then old(node.readyNext) else old(readyHead)
      ensures node.readyNext == null && node.readyPrev == null
    {
      if node == readyHead {
        readyHead := node.readyNext;
      }
      ReadyUnlink(node, ready, i);
    }

    /** A task at a position other than the head of a two-task ring. */
    ghost predicate SecondOfTwo(node: Tcb)
      reads this
    {
      |ready| == 2 && node == ready[1] && node != ready[0]
    }

    /**
      `_helios_sched_send_back_of_task_prio`. A task whose links are equal is taken for a new one; the
      second task of a two-task ring also has equal links, and for it, and for no other task, the
      ring does not survive.
     */
    method SendBackOfPrio(node: Tcb)
      requires ReadyValid()
      requires node !in ready ==> node.readyNext == node.readyPrev
      modifies this`readyHead, this`ready, node`readyNext, node`readyPrev, ready`readyNext, ready`readyPrev
      ensures old(SecondOfTwo(node)) ==> ready == old(ready) && !ReadyRing(ready)
      ensures !old(SecondOfTwo(node)) ==> ReadyValid()
      ensures old(ready) == [] || node == old(ready)[0] ==> ready == old(ready)
      ensures old(ready) != [] && node !in old(ready) ==> ready == Inserted(old(ready), node)
      ensures node in old(ready) && node != old(ready)[0] && |old(ready)| >= 3 ==>
                ready == SentBack(old(ready), IndexOf(old(ready), node))
    {
      if readyHead == null || node == readyHead {
        return;
      }
      var ref, leastPrio := Walk(node);
      if leastPrio {
        readyHead := node;
      }
      if node.readyNext == node.readyPrev {
        InsertNew(node, ref);
      } else {
        MoveBack(node, ref);
      }
    }

    /** Lines 316-320. */
    method InsertNew(node: Tcb, ref: Tcb)
      requires ready != [] && ReadyRing(ready) && Sorted(ready) && node != ready[0]
      requires var k := FirstAbove(ready, node.priority);
        && ref == (if k < |ready| then ready[k] else ready[0])
        && readyHead == (if k == 0 then node else ready[0])
      requires node.readyNext == node.readyPrev
      modifies this`ready, node`readyNext, node`readyPrev, ready`readyNext, ready`readyPrev
      ensures old(SecondOfTwo(node)) ==> ready == old(ready) && !ReadyRing(ready)
      ensures !old(SecondOfTwo(node)) ==> node !in old(ready) && ReadyValid() && ready == Inserted(old(ready), node)
    {
      ghost var k := FirstAbove(ready, node.priority);
      if node in ready {
        EqualLinksAreTwo(ready, node);
        WalkPasses(ready, 1);
      } else {
        InsertedSorted(ready, node);
        InsertedCases(ready, node);
      }
      var _ := ReadyInsertBefore(ref, node, ready, if k < |ready| then k else 0);
      if node in ready {
        assert ReadyRing(ready) ==> ReadyLinked(ready, 1);
      } else {
        InsertedRing(ready, node);
        ready := Inserted(ready, node);
      }
    }

    /** Lines 324-331. */
    method MoveBack(node: Tcb, ref: Tcb)
      requires ReadyValid() && node in ready && node != ready[0]
      requires var k := FirstAbove(ready, node.priority); ref == if k < |ready| then ready[k] else ready[0]
      requires node.readyNext != node.readyPrev
      modifies this`readyHead, this`ready, ready`readyNext, ready`readyPrev
      ensures ReadyValid() && |old(ready)| >= 3
      ensures ready == SentBack(old(ready), IndexOf(old(ready), node))
    {
      ghost var k := FirstAbove(ready, node.priority);
      ghost var i := IndexOf(ready, node);
      ghost var rest := Without(ready, i);
      MoveBackPlan(ready, i, rest, k);
      UnequalLinksAreThree(ready, node);
      ReadyDetach(node, i);
      var _ := ReadyInsertBefore(ref, node, rest, if k < |ready| then k - 1 else 0);
      InsertedRing(rest, node);
      ready := Inserted(rest, node);
    }

    // ----- round robin inside one priority -----

    /** The current first task x of its class, behind the tasks a, is sent behind the others. */
    method OneTurn(x: Tcb, ghost a: seq<Tcb>, ghost d: seq<Tcb>, ghost e: seq<Tcb>, ghost b: seq<Tcb>)
      requires ReadyValid() && |ready| >= 3 && a != [] && ready == a + ([x] + d + e) + b
      requires AtMost(a, x.priority) && AtMost(d, x.priority) && AtMost(e, x.priority)
      requires b != [] ==> b[0].priority > x.priority
      modifies this`readyHead, this`ready, ready`readyNext, ready`readyPrev
      ensures ReadyValid() && ready == a + (d + (e + [x])) + b
    {
      assert ready[|a|] == x && ready[0] == a[0];
      IndexIs(ready, |a|);
      assert x != ready[0];
      SendBackOfPrio(x);
      Turn(a, x, d, e, b);
    }

    /**
      The tasks of one priority, behind the head: sending each of them back once, the current first one
      at every turn, restores the ring.
     */
    method FullTurn(tasks: seq<Tcb>, ghost a: nat, ghost k: nat)
      requires ReadyValid() && |ready| >= 3 && 0 < a < k <= |ready| && tasks == ready[a..k]
      requires forall i :: a <= i < k ==> ready[i].priority == ready[a].priority
      requires k < |ready| ==> ready[k].priority > ready[a].priority
      modifies this`readyHead, this`ready, ready`readyNext, ready`readyPrev
      ensures ReadyValid() && ready == old(ready)
    {
      CutClass(ready, a, k);
      AroundClass(ready, a, k);
      Turns(tasks, ready[..a], ready[k..], ready[a].priority);
    }

    /** The loop over a class that stands between `front` and `back`. */
    method Turns(tasks: seq<Tcb>, ghost front: seq<Tcb>, ghost back: seq<Tcb>, ghost p: nat)
      requires ReadyValid() && |ready| >= 3 && ready == front + tasks + back && front != []
      requires AtMost(front, p) && AtMost(tasks, p) && (back != [] ==> back[0].priority > p)
      requires forall j :: 0 <= j < |tasks| ==> tasks[j].priority == p
      modifies this`readyHead, this`ready, ready`readyNext, ready`readyPrev
      ensures ReadyValid() && ready == old(ready)
    {
      NoTurnsOrAll(front, tasks, back);
      for j := 0 to |tasks|
        invariant ReadyValid() && ready == AfterTurns(front, tasks, j, back)
      {
        RotationMembers(front, tasks, j, back);
        assert forall i :: 0 <= i < |ready| ==> ready[i] in old(ready);
        TakeTurn(tasks, j, front, back, p);
      }
    }

    method TakeTurn(tasks: seq<Tcb>, j: nat, ghost front: seq<Tcb>, ghost back: seq<Tcb>, ghost p: nat)
      requires j < |tasks| && front != [] && |ready| >= 3
      requires ReadyValid() && ready == AfterTurns(front, tasks, j, back)
      requires tasks[j].priority == p && AtMost(front, p) && AtMost(tasks, p)
      requires back != [] ==> back[0].priority > p
      modifies this`readyHead, this`ready, ready`readyNext, ready`readyPrev
      ensures ReadyValid() && ready == AfterTurns(front, tasks, j + 1, back)
    {
      NextTurn(front, tasks, j, back);
      OneTurn(tasks[j], front, tasks[j + 1..], tasks[..j], back);
    }

    // ----- pause and resume -----

    /**
      `_helios_sched_send_to_pause`. It only looks for the status Pause, so a task that waits is linked a
      second time, and the wait ring survives that if and only if the task is alone in it.
     */
    method SendToPause(t: Tcb)
      requires WaitValid()
      modifies this`waitHead, this`waiting, t`status, t`delayTicks
      modifies t`waitNext, t`waitPrev, waiting`waitNext, waiting`waitPrev
      ensures t.status == Pause
      ensures t.delayTicks == if old(t.status) == Pause then old(t.delayTicks) else DELAY_MAX
      ensures old(t.status) == Pause ==> WaitValid() && waiting == old(waiting)
      ensures old(t.status) != Pause && t !in old(waiting) ==> WaitValid() && waiting == old(waiting) + [t]
      ensures old(t.status) != Pause && t in old(waiting) ==> waiting == old(waiting)
      ensures old(t.status) != Pause && t in old(waiting) ==> (WaitValid() <==> |waiting| == 1)
      ensures old(t.status) != Pause && t in old(waiting) ==>
                var i := IndexOf(waiting, t); t.waitNext == if 0 < i < |waiting| - 1 then waiting[0] else t
    {
      if t.status == Pause {
        return;
      }
      waitHead := WaitInsertBefore(waitHead, t, waiting);
      if t !in waiting {
        WaitRotate(t, waiting);
        waiting := waiting + [t];
      }
      t.delayTicks := DELAY_MAX;
      t.status := Pause;
    }

    /** `_helios_sched_node_detach` on the wait link; the head moves along the ready link (line 184). */
    method WaitDetach(t: Tcb, ghost i: nat)
      requires WaitRing(waiting) && i < |waiting| && t == waiting[i]
      modifies this`waitHead, waiting`waitNext, waiting`waitPrev
      ensures WaitRing(Without(waiting, i))
      ensures waitHead == if t == old(waitHead) then t.readyNext else old(waitHead)
    {
      if t == waitHead {
        waitHead := t.readyNext;
      }
      WaitUnlink(t, waiting, i);
    }

    /** `_helios_sched_send_to_resume`. */
    method SendToResume(t: Tcb)
      requires WaitValid() && (Suspended(t.status) ==> t in waiting)
      modifies this`waitHead, this`waiting, t`status, t`delayTicks, waiting`waitNext, waiting`waitPrev
      ensures WaitValid()
      ensures old(t.status) == Wait || old(t.status) == Pause ==>
                t.status == Ready && waiting == Without(old(waiting), IndexOf(old(waiting), t))
      ensures old(t.status) != Wait && old(t.status) != Pause ==> t.status == old(t.status) && waiting == old(waiting)
      ensures t.delayTicks == if old(t.status) == Wait || old(t.status) == Pause then 0 else old(t.delayTicks)
    {
      if !Suspended(t.status) {
        return;
      }
      ghost var i := IndexOf(waiting, t);
      assert WaitLinked(waiting, i) && WaitLinked(waiting, if i == 0 then |waiting| - 1 else i - 1);
      if t == waitHead {
        waitHead := t.waitNext;
        if t.waitNext == t && t.waitPrev == t {
          waitHead := null;
        }
      }
      WaitDetach(t, i);
      waiting := Without(waiting, i);
      t.delayTicks := 0;
      t.status := Ready;
    }

    /** The first i tasks of the ready ring, and only these, are paused and listed. */
    ghost predicate PausedUpTo(i: nat)
      reads `ready, `waitHead, `waiting, ready`status, waiting`waitNext, waiting`waitPrev
    {
      && i <= |ready| && WaitValid() && waiting == ready[..i]
      && forall j :: 0 <= j < |ready| ==> if j < i then ready[j].status == Pause else !Suspended(ready[j].status)
    }

    method PauseNext(t: Tcb, ghost i: nat)
      requires NoRepeats(ready) && PausedUpTo(i) && i < |ready| && t == ready[i]
      modifies this`waitHead, this`waiting
      modifies ready`delayTicks, ready`waitNext, ready`waitPrev, t`status
      ensures PausedUpTo(i + 1)
    {
      assert t !in ready[..i];
      SendToPause(t);
    }

    /** How far the loop of `helios_pause_all_task` gets: it spins at the current task. */
    ghost function PauseStops(): (k: nat)
      reads `curr, `ready
      ensures k <= |ready| && (k == |ready| <==> curr !in ready)
    {
      if curr in ready then IndexOf(ready, curr) else |ready|
    }

    /** How many tasks are paused after so many rounds. */
    ghost function PausedAfter(rounds: nat): (k: nat)
      reads `curr, `ready
    {
      if rounds < PauseStops() then rounds else PauseStops()
    }

    /**
      The first `rounds` rounds of the loop of `helios_pause_all_task`; `done` says that it has ended. With
      the current task in the ring it never does, and only the tasks before that one are ever paused.
     */
    method PauseRounds(rounds: nat) returns (done: bool)
      requires ReadyValid() && WaitValid() && waiting == []
      requires forall t :: t in ready ==> !Suspended(t.status)
      modifies this`waitHead, this`waiting
      modifies ready`status, ready`delayTicks, ready`waitNext, ready`waitPrev
      ensures done <==> curr !in ready && rounds >= |ready|
      ensures PausedUpTo(PausedAfter(rounds))
      ensures forall j :: PauseStops() <= j < |ready| ==> ready[j].status == old(ready[j].status)
    {
      var ptr := readyHead;
      assert ready[..0] == [];
      if ptr == null {
        return true;
      }
      var left: nat := rounds;
      ghost var i := 0;
      done := false;
      while left > 0 && !done
        invariant ReadyValid() && left <= rounds
        invariant i == PausedAfter(rounds - left)
        invariant PausedUpTo(i) && (done <==> i == |ready|) && (!done ==> ptr == ready[i])
        invariant forall j :: i <= j < |ready| ==> ready[j].status == old(ready[j].status)
        decreases left
      {
        left := left - 1;
        ptr, done, i := PauseRound(ptr, i);
      }
    }

    /** Lines 261-275. */
    method PauseRound(ptr: Tcb, ghost i: nat) returns (next: Tcb, done: bool, ghost k: nat)
      requires ReadyValid() && PausedUpTo(i) && i < |ready| && ptr == ready[i] && i <= PauseStops()
      modifies this`waitHead, this`waiting
      modifies ready`status, ready`delayTicks, ready`waitNext, ready`waitPrev
      ensures k == if i < PauseStops() then i + 1 else i
      ensures PausedUpTo(k) && next == (if k < |ready| then ready[k] else ready[0]) && (done <==> k == |ready|)
      ensures forall j :: k <= j < |ready| ==> ready[j].status == old(ready[j].status)
    {
      IndexIs(ready, i);
      if ptr == curr {
        return ptr, false, i;
      }
      PauseNext(ptr, i);
      NextOrHead(ready, i);
      next := ptr.readyNext;
      done := next == readyHead;
      k := i + 1;
    }

    /** `helios_pause_all_task` when its loop ends, which is when the current task is not in the ring (PauseRounds). */
    method PauseAll()
      requires ReadyValid() && WaitValid() && waiting == []
      requires forall t :: t in ready ==> !Suspended(t.status) && t != curr
      modifies this`waitHead, this`waiting
      modifies ready`status, ready`delayTicks, ready`waitNext, ready`waitPrev
      ensures WaitValid() && waiting == ready
      ensures forall t :: t in ready ==> t.status == Pause
    {
      var ptr := readyHead;
      if ptr == null {
        return;
      }
      ghost var i := 0;
      while true
        invariant ReadyValid()
        invariant i < |ready| && ptr == ready[i] && PausedUpTo(i)
        decreases |ready| - i
      {
        PauseNext(ptr, i);
        NextOrHead(ready, i);
        ptr := ptr.readyNext;
        i := i + 1;
        if ptr == readyHead {
          break;
        }
      }
      assert ready[..i] == ready;
    }

    /** The wait ring holds exactly the ready tasks that are waiting or paused. */
    ghost predicate WaitersListed()
      reads `ready, `waiting, ready`status
    {
      && (forall t :: t in waiting ==> t in ready && Suspended(t.status))
      && (forall t :: t in ready && Suspended(t.status) ==> t in waiting)
    }

    /** Resuming one ready task keeps the wait ring to the suspended tasks. */
    method ResumeListed(t: Tcb)
      requires WaitValid() && WaitersListed() && t in ready
      modifies this`waitHead, this`waiting, t`status, t`delayTicks, waiting`waitNext, waiting`waitPrev
      ensures WaitValid() && WaitersListed()
      ensures forall x :: x in waiting ==> x in old(waiting)
      ensures t.status == AfterResume(old(t.status))
    {
      if Suspended(t.status) {
        WithoutOne(waiting, t);
      }
      SendToResume(t);
    }

    /** `helios_resume_all_task`: from the task after the head round to the head. */
    method ResumeAll() returns (ok: bool)
      requires ReadyValid() && WaitValid() && WaitersListed()
      modifies this`waitHead, this`waiting
      modifies ready`status, ready`delayTicks, waiting`waitNext, waiting`waitPrev
      ensures ok == (ready != [])
      ensures WaitValid() && waiting == []
      ensures forall t :: t in ready ==>
                t.status == if old(t.status) == Wait || old(t.status) == Pause then Ready else old(t.status)
    {
      var ptr := readyHead;
      if ptr == null {
        HeadIn(waiting);
        return false;
      }
      ghost var i := 0;
      while true
        invariant i < |ready| && ptr == ready[i]
        invariant WaitValid() && WaitersListed()
        invariant forall t :: t in waiting ==> t in old(waiting)
        invariant forall j :: 0 <= j < |ready| ==>
                    ready[j].status == if 0 < j <= i then AfterResume(old(ready[j].status)) else old(ready[j].status)
        decreases |ready| - i
      {
        NextOrHead(ready, i);
        ptr := ptr.readyNext;
        assert ptr in old(ready);
        assert forall k :: 0 <= k < |waiting| ==> waiting[k] in old(waiting);
        ResumeListed(ptr);
        i := i + 1;
        if ptr == readyHead {
          assert i == |ready|;
          break;
        }
      }
      HeadIn(waiting);
      return true;
    }

    /**
      `helios_add_task` of the dynamic build from its priority checks on, followed for `rounds` rounds of
      the loop that pauses all tasks. With the current task in the ring it does not get further. `t` is
      the control block that the allocator returns, null when there is no memory for it; `stack` says
      whether there is memory for the stack.
     */
    method AddTask(t: Tcb?, priority: nat, stack: bool, rounds: nat) returns (result: Added)
      requires ReadyValid() && waiting == [] && waitHead == null
      requires forall x :: x in ready ==> !Suspended(x.status)
      requires t != null ==> t !in ready && t.readyNext == t.readyPrev && t.priority == priority
      modifies this`readyHead, this`waitHead, this`ready, this`waiting, ready
      modifies if t == null then {} else {t}
      ensures result == if !(IDLE_TASK_PRIORITY <= priority < PRIORITY_MAX) then BadArgument
                        else if curr in old(ready) || rounds < |old(ready)| then StillPausing
                        else if t == null || !stack then MemoryLow else Success
      ensures ready == if result.Success? then Inserted(old(ready), t) else old(ready)
      ensures ReadyValid() && WaitValid()
      ensures result.StillPausing? ==> PausedUpTo(PausedAfter(rounds))
      ensures !result.StillPausing? ==> waiting == [] && waitHead == null
      ensures !result.StillPausing? ==>
                forall x :: x in ready ==> x.status == if result.BadArgument? then old(x.status) else Ready
    {
      if priority < IDLE_TASK_PRIORITY || priority >= PRIORITY_MAX {
        return BadArgument;
      }
      var done := PauseRounds(rounds);
      if !done {
        return StillPausing;
      }
      assert ready[..|ready|] == ready;
      if t == null || !stack {
        var _ := ResumeAll();
        return MemoryLow;
      }
      AddPaused(t);
      return Success;
    }

    /** Lines 196-206, while every other task is paused. */
    method AddPaused(t: Tcb)
      requires ReadyValid() && WaitValid() && waiting == ready
      requires forall x :: x in ready ==> x.status == Pause
      requires t !in ready && t.readyNext == t.readyPrev
      modifies this`readyHead, this`waitHead, this`ready, this`waiting
      modifies t`status, t`delayTicks, t`readyNext, t`readyPrev
      modifies ready`status, ready`delayTicks, ready`readyNext, ready`readyPrev, ready`waitNext, ready`waitPrev
      ensures ReadyValid() && ready == Inserted(old(ready), t)
      ensures WaitValid() && waiting == []
      ensures forall x :: x in ready ==> x.status == Ready
    {
      Enlist(t);
      var _ := ResumeAll();
    }

    /** Lines 196-202. */
    method Enlist(t: Tcb)
      requires ReadyValid() && WaitValid() && waiting == ready
      requires forall x :: x in ready ==> x.status == Pause
      requires t !in ready && t.readyNext == t.readyPrev
      modifies this`readyHead, this`ready
      modifies t`status, t`readyNext, t`readyPrev, ready`readyNext, ready`readyPrev
      ensures ReadyValid() && ready == Inserted(old(ready), t)
      ensures WaitValid() && WaitersListed()
      ensures forall x :: x in ready ==> x.status == (if x == t then Ready else Pause)
    {
      LinkNew(t);
      MarkReady(t);
    }

    /** Line 202. */
    method MarkReady(t: Tcb)
      requires WaitValid() && t in ready && t !in waiting
      requires forall x :: x in waiting ==> x in ready && x.status == Pause
      requires forall x :: x in ready ==> x in waiting || x == t
      modifies t`status
      ensures WaitersListed() && t.status == Ready
    {
      t.status := Ready;
    }

    /** Lines 196-201. */
    method LinkNew(t: Tcb)
      requires ReadyValid() && t !in ready && t.readyNext == t.readyPrev
      modifies this`readyHead, this`ready, t`readyNext, t`readyPrev, ready`readyNext, ready`readyPrev
      ensures ReadyValid() && ready == Inserted(old(ready), t)
      ensures forall x :: x in old(ready) ==> x in ready
      ensures forall x :: x in ready ==> x in old(ready) || x == t
    {
      InsertedMembers(ready, t);
      if readyHead == null {
        readyHead := t;
        t.readyNext, t.readyPrev := t, t;
        ready := [t];
      }
      SendBackOfPrio(t);
    }

    /** Pausing and then resuming everything changes nothing but delay counters. */
    method PauseThenResume()
      requires ReadyValid() && WaitValid() && waiting == []
      requires forall t :: t in ready ==> !Suspended(t.status) && t != curr
      modifies this`waitHead, this`waiting
      modifies ready`status, ready`delayTicks, ready`waitNext, ready`waitPrev
      ensures ReadyValid() && WaitValid() && waiting == [] && waitHead == null
      ensures forall t :: t in ready ==> t.status == Ready
    {
      PauseAll();
      var _ := ResumeAll();
    }

    /** The first i tasks have been added and all are ready. */
    ghost predicate AddedUpTo(tasks: seq<Tcb>, i: nat)
      reads `readyHead, `waitHead, `ready, `waiting, ready`readyNext, ready`readyPrev, ready`status
    {
      && i <= |tasks| && ready == Built(tasks[..i])
      && ReadyValid() && waiting == [] && waitHead == null
      && (forall t :: t in ready ==> t.status == Ready)
    }

    method AddNext(tasks: seq<Tcb>, i: nat)
      requires NoRepeats(tasks) && curr !in tasks && i < |tasks| && AddedUpTo(tasks, i) && NewFrom(tasks, i)
      requires IDLE_TASK_PRIORITY <= tasks[i].priority < PRIORITY_MAX
      modifies this`readyHead, this`waitHead, this`ready, this`waiting, tasks
      ensures AddedUpTo(tasks, i + 1) && NewFrom(tasks, i + 1)
    {
      NextIsNew(tasks, i);
      forall k | 0 <= k < |ready|
        ensures ready[k] in tasks
      {
        BuiltFrom(tasks, i, k);
      }
      BuiltLength(tasks[..i]);
      AddOne(tasks[i], i);
    }

    /** AddTask when everything is in order. */
    method AddOne(t: Tcb, rounds: nat)
      requires ReadyValid() && waiting == [] && waitHead == null && curr !in ready && rounds >= |ready|
      requires forall x :: x in ready ==> x.status == Ready
      requires t !in ready && t.readyNext == t.readyPrev && IDLE_TASK_PRIORITY <= t.priority < PRIORITY_MAX
      modifies this`readyHead, this`waitHead, this`ready, this`waiting, ready, t
      ensures ready == Inserted(old(ready), t)
      ensures ReadyValid() && waiting == [] && waitHead == null && forall x :: x in ready ==> x.status == Ready
    {
      var _ := AddTask(t, t.priority, true, rounds);
    }

    /** Any sequence of additions to an empty scheduler builds their stable sort (BuiltIsStableSort). */
    method AddAll(tasks: seq<Tcb>)
      requires readyHead == null && ready == [] && waiting == [] && waitHead == null
      requires NoRepeats(tasks) && curr !in tasks
      requires forall j :: 0 <= j < |tasks| ==> IDLE_TASK_PRIORITY <= tasks[j].priority < PRIORITY_MAX
      requires NewFrom(tasks, 0)
      modifies this`readyHead, this`waitHead, this`ready, this`waiting, tasks
      ensures ReadyValid() && ready == Built(tasks)
    {
      for i := 0 to |tasks|
        invariant AddedUpTo(tasks, i) && NewFrom(tasks, i)
      {
        AddNext(tasks, i);
      }
      assert tasks[..|tasks|] == tasks;
    }
  }

  lemma NextIsNew(tasks: seq<Tcb>, i: nat)
    requires NoRepeats(tasks) && i < |tasks|
    ensures forall j :: i <= j < |tasks| ==> tasks[j] !in Built(tasks[..i])
    ensures Built(tasks[..i + 1]) == Inserted(Built(tasks[..i]), tasks[i])
  {
    forall j | i <= j < |tasks|
      ensures tasks[j] !in Built(tasks[..i])
    {
      BuiltMembers(tasks[..i], tasks[j]);
    }
    assert tasks[..i + 1][..i] == tasks[..i];
  }

  lemma {:induction false} BuiltLength(added: seq<Tcb>)
    ensures |Built(added)| == |added|
  {
    if added != [] {
      BuiltLength(added[..|added| - 1]);
    }
  }

  lemma BuiltFrom(tasks: seq<Tcb>, i: nat, k: nat)
    requires i <= |tasks| && k < |Built(tasks[..i])|
    ensures Built(tasks[..i])[k] in tasks
  {
    var x := Built(tasks[..i])[k];
    BuiltMembers(tasks[..i], x);
  }

  lemma InsertedMembers(s: seq<Tcb>, t: Tcb)
    ensures forall x :: x in Inserted(s, t) <==> x in s || x == t
  {
    var k := FirstAbove(s, t.priority);
    assert s == s[..k] + s[k..];
  }

  lemma HeadIn(s: seq<Tcb>)
    ensures s != [] ==> s[0] in s
  {
  }

  /** Taking out the one occurrence of a task. */
  lemma WithoutOne(s: seq<Tcb>, t: Tcb)
    requires NoRepeats(s) && t in s
    ensures forall x :: x in Without(s, IndexOf(s, t)) <==> x in s && x != t
  {
    var i := IndexOf(s, t);
    var w := Without(s, i);
    forall x | x in s && x != t
      ensures x in w
    {
      var j :| 0 <= j < |s| && s[j] == x;
      assert w[if j < i then j else j - 1] == x;
    }
  }

  /** Where the walk's task is once task i has been taken out. */
  lemma MoveBackPlan(s: seq<Tcb>, i: nat, rest: seq<Tcb>, k: nat)
    requires Sorted(s) && NoRepeats(s) && 0 < i < |s|
    requires rest == Without(s, i) && k == FirstAbove(s, s[i].priority)
    ensures 2 <= k && FirstAbove(rest, s[i].priority) == k - 1
    ensures s[i] !in rest && rest[0] == s[0] && (k < |s| ==> rest[k - 1] == s[k])
    ensures Sorted(Inserted(rest, s[i])) && Inserted(rest, s[i])[0] == s[0]
  {
    WalkPasses(s, i);
    WithoutFirstAbove(s, i, rest, k);
    WithoutAt(s, i, 0);
    if k < |s| { WithoutAt(s, i, k - 1); }
    WithoutSorted(s, i);
    InsertedSorted(rest, s[i]);
    InsertedCases(rest, s[i]);
  }

  lemma IndexIs(s: seq<Tcb>, i: nat)
    requires NoRepeats(s) && i < |s|
    ensures IndexOf(s, s[i]) == i
  {
    var j := IndexOf(s, s[i]);
    assert s[j] == s[i];
  }

  lemma RotationMembers(a: seq<Tcb>, c: seq<Tcb>, j: nat, b: seq<Tcb>)
    requires j <= |c|
    ensures forall x :: x in AfterTurns(a, c, j, b) ==> x in a + c + b
    ensures |AfterTurns(a, c, j, b)| == |a + c + b|
  {
    var r, s := AfterTurns(a, c, j, b), a + c + b;
    forall x | x in r
      ensures x in s
    {
      var i :| 0 <= i < |r| && r[i] == x;
      var n := |c| - j;
      var from := if i < |a| || i >= |a| + |c| then i else if i < |a| + n then i + j else i - n;
      assert s[from] == x;
    }
  }

  /** The link from task i leads to task i + 1, or to the head, and to the head from the last task only. */
  lemma NextOrHead(s: seq<Tcb>, i: nat)
    requires ReadyRing(s) && i < |s|
    ensures s[i].readyNext == if i + 1 < |s| then s[i + 1] else s[0]
    ensures s[i].readyNext == s[0] <==> i + 1 == |s|
  {
    assert ReadyLinked(s, i);
  }

  lemma UnequalLinksAreThree(s: seq<Tcb>, node: Tcb)
    requires ReadyRing(s) && node in s && node.readyNext != node.readyPrev
    ensures |s| >= 3
  {
    var i :| 0 <= i < |s| && s[i] == node;
    assert ReadyLinked(s, i) && ReadyLinked(s, if i == 0 then |s| - 1 else i - 1);
  }

  /** A linked task whose two neighbours are the same task is in a ring of at most two. */
  lemma EqualLinksAreTwo(s: seq<Tcb>, node: Tcb)
    requires ReadyRing(s) && node in s && node.readyNext == node.readyPrev
    ensures |s| <= 2
  {
    var i :| 0 <= i < |s| && s[i] == node;
    assert ReadyLinked(s, i) && ReadyLinked(s, if i == 0 then |s| - 1 else i - 1);
  }

  /** The splice of a task into a list, at its ends. */
  lemma SpliceEnds(s: seq<Tcb>, k: nat, node: Tcb)
    requires k <= |s| && s != []
    ensures k == |s| ==> s[..k] + [node] + s[k..] == s + [node]
    ensures s[..0] + [node] + s[0..] == [node] + s
    ensures (s[..k] + [node] + s[k..])[0] == if k == 0 then node else s[0]
  {
  }

  lemma InsertedCases(s: seq<Tcb>, node: Tcb)
    requires s != []
    ensures var k := FirstAbove(s, node.priority); var r := Inserted(s, node);
      && (k == |s| ==> r == s + [node] && s[..0] + [node] + s[0..] == [node] + s)
      && r[0] == (if k == 0 then node else s[0])
  {
    SpliceEnds(s, FirstAbove(s, node.priority), node);
  }

  /** Both places where the insertion can happen read the same from the head. */
  lemma InsertedRing(s: seq<Tcb>, node: Tcb)
    requires s != []
    requires var k := FirstAbove(s, node.priority); var at := if k < |s| then k else 0;
      ReadyRing(s[..at] + [node] + s[at..])
    ensures ReadyRing(Inserted(s, node))
  {
    InsertedCases(s, node);
    if FirstAbove(s, node.priority) == |s| {
      ReadyRotate(node, s);
    }
  }
}
