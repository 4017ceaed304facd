/** The order of the ready ring, as operations on the sequence of tasks read from the head along `next`. */
module HeliosOrder {
  import opened Sequences

  datatype Status = Exit | Running | Ready | Wait | Pause

  /** helios_sched_tcb_t; `priority` is set once, before the task is linked. */
  class Tcb {
    const priority: nat
    var status: Status
    var delayTicks: nat
    var readyNext: Tcb?
    var readyPrev: Tcb?
    var waitNext: Tcb?
    var waitPrev: Tcb?

    /** A fresh task control block whose links are equal, as in zeroed memory. */
    constructor (priority: nat)
      ensures this.priority == priority && status == Exit
      ensures readyNext == null && readyPrev == null && waitNext == null && waitPrev == null
    {
      this.priority := priority;
      status := Exit;
      delayTicks := 0;
      readyNext, readyPrev, waitNext, waitPrev := null, null, null, null;
    }
  }

  ghost predicate Sorted(s: seq<Tcb>) {
    forall i, j :: 0 <= i < j < |s| ==> s[i].priority <= s[j].priority
  }

  /** Index of the first task of a priority above p: where the walk of lines 299-308 stops. */
  ghost function FirstAbove(s: seq<Tcb>, p: nat): (k: nat)
    ensures k <= |s|
    ensures forall i :: 0 <= i < k ==> s[i].priority <= p
    ensures k < |s| ==> s[k].priority > p
  {
    if s == [] || s[0].priority > p then 0 else 1 + FirstAbove(s[1..], p)
  }

  /** Behind the tasks of its own priority, before those of higher priority. */
  ghost function Inserted(s: seq<Tcb>, t: Tcb): seq<Tcb> {
    var k := FirstAbove(s, t.priority);
    s[..k] + [t] + s[k..]
  }

  ghost function Without(s: seq<Tcb>, i: nat): seq<Tcb>
    requires i < |s|
  {
    s[..i] + s[i + 1..]
  }

  /** Task i is taken out and put at the back of its priority. */
  ghost function SentBack(s: seq<Tcb>, i: nat): seq<Tcb>
    requires i < |s|
  {
    Inserted(Without(s, i), s[i])
  }

  /** The tasks of priority p, in ring order. */
  ghost function OfPriority(s: seq<Tcb>, p: nat): seq<Tcb> {
    if s == [] then [] else (if s[0].priority == p then [s[0]] else []) + OfPriority(s[1..], p)
  }

  lemma {:induction false} OfPriorityAppend(a: seq<Tcb>, b: seq<Tcb>, p: nat)
    ensures OfPriority(a + b, p) == OfPriority(a, p) + OfPriority(b, p)
  {
    if a == [] {
      assert a + b == b;
    } else {
      assert (a + b)[1..] == a[1..] + b && (a + b)[0] == a[0];
      OfPriorityAppend(a[1..], b, p);
      Assoc(if a[0].priority == p then [a[0]] else [], OfPriority(a[1..], p), OfPriority(b, p));
    }
  }

  lemma {:induction false} OfPriorityNone(s: seq<Tcb>, p: nat)
    requires forall i :: 0 <= i < |s| ==> s[i].priority != p
    ensures OfPriority(s, p) == []
  {
    if s != [] {
      OfPriorityNone(s[1..], p);
    }
  }

  lemma InsertedAt(s: seq<Tcb>, t: Tcb, i: nat)
    requires i <= |s|
    ensures var k := FirstAbove(s, t.priority);
      Inserted(s, t)[i] == if i < k then s[i] else if i == k then t else s[i - 1]
  {
  }

  lemma AboveStays(s: seq<Tcb>, p: nat, i: nat)
    requires Sorted(s) && FirstAbove(s, p) <= i < |s|
    ensures s[i].priority > p
  {
  }

  lemma InsertedSorted(s: seq<Tcb>, t: Tcb)
    requires Sorted(s)
    ensures Sorted(Inserted(s, t))
  {
    var k, r := FirstAbove(s, t.priority), Inserted(s, t);
    forall i, j | 0 <= i < j < |r|
      ensures r[i].priority <= r[j].priority
    {
      InsertedAt(s, t, i);
      InsertedAt(s, t, j);
      if j > k { AboveStays(s, t.priority, j - 1); }
    }
  }

  lemma SplicedClass(a: seq<Tcb>, t: Tcb, b: seq<Tcb>, p: nat)
    ensures OfPriority(a + [t] + b, p) == OfPriority(a, p) + (if t.priority == p then [t] else []) + OfPriority(b, p)
  {
    OfPriorityAppend(a + [t], b, p);
    OfPriorityAppend(a, [t], p);
    assert [t][1..] == [];
  }

  lemma StableParts(a: seq<Tcb>, t: Tcb, b: seq<Tcb>, p: nat)
    requires t.priority == p ==> forall i :: 0 <= i < |b| ==> b[i].priority != p
    ensures OfPriority(a + [t] + b, p) == OfPriority(a + b, p) + (if t.priority == p then [t] else [])
  {
    SplicedClass(a, t, b, p);
    OfPriorityAppend(a, b, p);
    if t.priority == p {
      OfPriorityNone(b, p);
    }
  }

  /** Inserting leaves every other priority alone and appends to its own: first in, first out. */
  lemma InsertedStable(s: seq<Tcb>, t: Tcb, p: nat)
    requires Sorted(s)
    ensures OfPriority(Inserted(s, t), p) == OfPriority(s, p) + (if t.priority == p then [t] else [])
  {
    var k := FirstAbove(s, t.priority);
    if t.priority == p {
      AboveFromHere(s, k, p);
    }
    StableParts(s[..k], t, s[k..], p);
    assert s == s[..k] + s[k..];
  }

  lemma AboveFromHere(s: seq<Tcb>, k: nat, p: nat)
    requires Sorted(s) && k <= |s| && (k < |s| ==> s[k].priority > p)
    ensures forall i :: 0 <= i < |s[k..]| ==> s[k..][i].priority != p
  {
  }

  lemma {:induction false} FirstAboveIs(s: seq<Tcb>, p: nat, k: nat)
    requires k <= |s| && forall i :: 0 <= i < k ==> s[i].priority <= p
    requires k < |s| ==> s[k].priority > p
    ensures FirstAbove(s, p) == k
  {
    if k > 0 {
      FirstAboveIs(s[1..], p, k - 1);
    }
  }

  ghost predicate AtMost(s: seq<Tcb>, p: nat) {
    forall i :: 0 <= i < |s| ==> s[i].priority <= p
  }

  /** Where the insertion happens, by what is in front and behind. */
  lemma InsertedBetween(a: seq<Tcb>, t: Tcb, b: seq<Tcb>)
    requires AtMost(a, t.priority) && (b != [] ==> b[0].priority > t.priority)
    ensures Inserted(a + b, t) == a + [t] + b
  {
    FirstAboveIs(a + b, t.priority, |a|);
    assert (a + b)[..|a|] == a && (a + b)[|a|..] == b;
  }

  /** A task is sent behind the tasks c that follow it and have no higher priority. */
  lemma SentBackParts(s: seq<Tcb>, a: seq<Tcb>, t: Tcb, c: seq<Tcb>, b: seq<Tcb>)
    requires s == a + [t] + c + b
    requires AtMost(a, t.priority) && AtMost(c, t.priority) && (b != [] ==> b[0].priority > t.priority)
    ensures SentBack(s, |a|) == a + c + [t] + b
  {
    assert Without(s, |a|) == a + c + b;
    InsertedBetween(a + c, t, b);
  }

  // ----- the ring that helios_add_task builds -----

  /** The ready ring after adding the tasks in this order. */
  ghost function Built(added: seq<Tcb>): seq<Tcb> {
    if added == [] then [] else Inserted(Built(added[..|added| - 1]), added[|added| - 1])
  }

  ghost predicate SameClasses(s: seq<Tcb>, r: seq<Tcb>) {
    forall p: nat :: OfPriority(s, p) == OfPriority(r, p)
  }

  lemma InsertedClasses(s: seq<Tcb>, before: seq<Tcb>, t: Tcb)
    requires Sorted(s) && SameClasses(s, before)
    ensures SameClasses(Inserted(s, t), before + [t])
  {
    forall p: nat
      ensures OfPriority(Inserted(s, t), p) == OfPriority(before + [t], p)
    {
      InsertedStable(s, t, p);
      OfPriorityAppend(before, [t], p);
      assert [t][1..] == [];
    }
  }

  lemma InsertedTasks(s: seq<Tcb>, t: Tcb)
    ensures multiset(Inserted(s, t)) == multiset(s) + multiset{t}
  {
    var k := FirstAbove(s, t.priority);
    assert s == s[..k] + s[k..];
  }

  /** Ascending in priority, within a priority in the order of addition, and the same tasks. */
  lemma {:induction false} BuiltIsStableSort(added: seq<Tcb>)
    ensures Sorted(Built(added)) && SameClasses(Built(added), added)
    ensures multiset(Built(added)) == multiset(added)
  {
    if added != [] {
      var before, t := added[..|added| - 1], added[|added| - 1];
      BuiltIsStableSort(before);
      InsertedSorted(Built(before), t);
      InsertedClasses(Built(before), before, t);
      InsertedTasks(Built(before), t);
      assert added == before + [t];
    }
  }

  lemma BuiltMembers(added: seq<Tcb>, x: Tcb)
    ensures x in Built(added) <==> x in added
  {
    BuiltIsStableSort(added);
    assert x in multiset(Built(added)) <==> x in multiset(added);
  }

  /** The head has the least priority and the task before it the highest, in whatever order the tasks were added. */
  lemma BuiltEnds(added: seq<Tcb>, x: Tcb)
    requires x in added
    ensures var r := Built(added);
      r != [] && r[0].priority <= x.priority <= r[|r| - 1].priority
  {
    var r := Built(added);
    BuiltIsStableSort(added);
    BuiltMembers(added, x);
    var j :| 0 <= j < |r| && r[j] == x;
  }

  /** A task of strictly least priority, such as the idle task, is the head, whenever it was added. */
  lemma LeastIsHead(added: seq<Tcb>, idle: Tcb)
    requires idle in added
    requires forall x :: x in added && x != idle ==> idle.priority < x.priority
    ensures Built(added) != [] && Built(added)[0] == idle
  {
    BuiltEnds(added, idle);
    BuiltMembers(added, Built(added)[0]);
  }

  lemma {:induction false} FirstOfClass(s: seq<Tcb>)
    requires s != []
    ensures var c := OfPriority(s, s[0].priority); c != [] && c[0] == s[0]
  {
  }

  /** Among several tasks of least priority the head is the one added first. */
  lemma HeadIsFirstAdded(added: seq<Tcb>)
    requires added != []
    ensures var r := Built(added);
      && r != [] && OfPriority(added, r[0].priority) != []
      && r[0] == OfPriority(added, r[0].priority)[0]
  {
    BuiltMembers(added, added[0]);
    BuiltIsStableSort(added);
    FirstOfClass(Built(added));
  }

  // ----- round robin inside one priority -----

  /** The walk for task i goes past task i itself. */
  lemma WalkPasses(s: seq<Tcb>, i: nat)
    requires Sorted(s) && i < |s|
    ensures i < FirstAbove(s, s[i].priority)
  {
  }

  lemma WithoutAt(s: seq<Tcb>, i: nat, j: nat)
    requires i < |s| && j < |s| - 1
    ensures Without(s, i)[j] == if j < i then s[j] else s[j + 1]
  {
  }

  /** Taking out task i moves the place where the walk stops one to the left. */
  lemma WithoutFirstAbove(s: seq<Tcb>, i: nat, w: seq<Tcb>, k: nat)
    requires Sorted(s) && i < |s| && w == Without(s, i) && k == FirstAbove(s, s[i].priority)
    ensures 0 < k && FirstAbove(w, s[i].priority) == k - 1
  {
    WalkPasses(s, i);
    forall j | 0 <= j < k - 1
      ensures w[j].priority <= s[i].priority
    {
      WithoutAt(s, i, j);
    }
    if k < |s| {
      WithoutAt(s, i, k - 1);
    }
    FirstAboveIs(w, s[i].priority, k - 1);
  }

  lemma WithoutSorted(s: seq<Tcb>, i: nat)
    requires Sorted(s) && i < |s|
    ensures Sorted(Without(s, i))
  {
  }

  lemma WithoutTasks(s: seq<Tcb>, i: nat)
    requires i < |s|
    ensures multiset(Without(s, i)) + multiset{s[i]} == multiset(s)
  {
    assert s == s[..i] + [s[i]] + s[i + 1..];
  }

  /**
    Sending a task other than the head back, in a ring of three or more, keeps the ring sorted, keeps the
    tasks, and makes it the last of its equals.
   */
  lemma SentBackSorted(s: seq<Tcb>, i: nat)
    requires Sorted(s) && 0 < i < |s| && |s| >= 3
    ensures Sorted(SentBack(s, i)) && multiset(SentBack(s, i)) == multiset(s)
    ensures OfPriority(SentBack(s, i), s[i].priority) == OfPriority(Without(s, i), s[i].priority) + [s[i]]
  {
    var w := Without(s, i);
    WithoutSorted(s, i);
    WithoutTasks(s, i);
    InsertedSorted(w, s[i]);
    InsertedTasks(w, s[i]);
    InsertedStable(w, s[i], s[i].priority);
  }

  /** The other priorities keep their tasks and their order. */
  lemma SentBackOthers(s: seq<Tcb>, i: nat, p: nat)
    requires Sorted(s) && 0 < i < |s| && |s| >= 3 && p != s[i].priority
    ensures OfPriority(SentBack(s, i), p) == OfPriority(s, p)
  {
    WithoutSorted(s, i);
    InsertedStable(Without(s, i), s[i], p);
    OfPriorityAppend(s[..i], s[i + 1..], p);
    OfPriorityAppend(s[..i], [s[i]] + s[i + 1..], p);
    OfPriorityAppend([s[i]], s[i + 1..], p);
    assert [s[i]][1..] == [];
    assert s == s[..i] + ([s[i]] + s[i + 1..]);
  }

  lemma Turn(a: seq<Tcb>, x: Tcb, d: seq<Tcb>, e: seq<Tcb>, b: seq<Tcb>)
    requires AtMost(a, x.priority) && AtMost(d, x.priority) && AtMost(e, x.priority)
    requires b != [] ==> b[0].priority > x.priority
    ensures SentBack(a + ([x] + d + e) + b, |a|) == a + (d + (e + [x])) + b
  {
    var s := a + ([x] + d + e) + b;
    assert s == a + [x] + (d + e) + b;
    SentBackParts(s, a, x, d + e, b);
    assert a + (d + e) + [x] + b == a + (d + (e + [x])) + b;
  }

  lemma CutClass(s: seq<Tcb>, a: nat, k: nat)
    requires a <= k <= |s|
    ensures s == s[..a] + s[a..k] + s[k..]
  {
  }

  lemma AroundClass(s: seq<Tcb>, a: nat, k: nat)
    requires Sorted(s) && a < k <= |s|
    requires forall i :: a <= i < k ==> s[i].priority == s[a].priority
    requires k < |s| ==> s[k].priority > s[a].priority
    ensures var p := s[a].priority;
      && AtMost(s[..a], p) && AtMost(s[a..k], p) && (s[k..] != [] ==> s[k..][0].priority > p)
      && forall i :: 0 <= i < |s[a..k]| ==> s[a..k][i].priority == p
  {
  }

  /** The ring a + c + b after the first j tasks of c have been sent to the back of c. */
  ghost function AfterTurns(a: seq<Tcb>, c: seq<Tcb>, j: nat, b: seq<Tcb>): seq<Tcb>
    requires j <= |c|
  {
    a + (c[j..] + c[..j]) + b
  }

  lemma NextTurn(a: seq<Tcb>, c: seq<Tcb>, j: nat, b: seq<Tcb>)
    requires j < |c|
    ensures AfterTurns(a, c, j, b) == a + ([c[j]] + c[j + 1..] + c[..j]) + b
    ensures AfterTurns(a, c, j + 1, b) == a + (c[j + 1..] + (c[..j] + [c[j]])) + b
  {
    assert c[j..] + c[..j] == [c[j]] + c[j + 1..] + c[..j];
    assert c[..j + 1] == c[..j] + [c[j]];
  }

  lemma NoTurnsOrAll(a: seq<Tcb>, c: seq<Tcb>, b: seq<Tcb>)
    ensures AfterTurns(a, c, 0, b) == AfterTurns(a, c, |c|, b) == a + c + b
  {
    assert c[0..] + c[..0] == c && c[|c|..] + c[..|c|] == c;
  }
}
