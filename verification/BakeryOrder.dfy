/** First come, first served: a core that has left the doorway is not overtaken by one that enters it later. */
module BakeryOrder {
  import opened Bakery
  import opened BakerySafety

  /** b entered the doorway after a left it: b is stopped at index a of its wait loop at the latest. */
  predicate Behind(s: State, a: nat, b: nat)
    requires WellFormed(s) && a < |s.core| && b < |s.core|
  {
    var later := s.ticket[a] < s.ticket[b];
    match s.core[b]
    case Idle => true
    case Scan(_, _) => Sees(s, a, b)
    case Clear => later
    case Look(i) => later && i <= a
    case Nonzero(i) => later && i <= a
    case LessLeft(i) => later && i <= a
    case LessRight(i, x) => later && i <= a && (i == a ==> x < s.ticket[b])
    case EqualLeft(i) => later && i < a
    case EqualRight(i, _) => later && i < a
    case Inside => false
  }

  lemma StepKeepsBehind(s: State, a: nat, b: nat, c: nat)
    requires Inv(s) && a < |s.core| && b < |s.core| && c < |s.core| && !Wraps(s, c)
    requires a != b && Waiting(s.core[a]) && Behind(s, a, b)
    requires Waiting(Step(s, c).core[a])
    ensures Behind(Step(s, c), a, b)
  {
    assert Local(s, a) && Local(s, b);
  }

  /** Core a is inside at some instant of the run. */
  ghost predicate EverInside(s: State, sched: seq<nat>, a: nat)
    requires WellFormed(s) && Schedule(|s.core|, sched) && a < |s.core|
  {
    exists k :: 0 <= k <= |sched| && Run(s, sched[..k]).core[a].Inside?
  }

  lemma EverInsideGrows(s: State, sched: seq<nat>, a: nat)
    requires WellFormed(s) && Schedule(|s.core|, sched) && a < |s.core|
    ensures Run(s, sched).core[a].Inside? ==> EverInside(s, sched, a)
    ensures sched != [] && EverInside(s, sched[..|sched| - 1], a) ==> EverInside(s, sched, a)
  {
    assert sched[..|sched|] == sched;
    if sched != [] && EverInside(s, sched[..|sched| - 1], a) {
      var before := sched[..|sched| - 1];
      var k :| 0 <= k <= |before| && Run(s, before[..k]).core[a].Inside?;
      assert before[..k] == sched[..k];
    }
  }

  lemma {:induction false} StaysBehind(s: State, sched: seq<nat>, a: nat, b: nat)
    requires Inv(s) && Schedule(|s.core|, sched) && NoWrap(s, sched) && a < |s.core| && b < |s.core|
    requires a != b && Behind(s, a, b) && Waiting(s.core[a])
    requires !EverInside(s, sched, a)
    ensures var t := Run(s, sched); Waiting(t.core[a]) && Behind(t, a, b)
  {
    EverInsideGrows(s, sched, a);
    if sched != [] {
      var before := sched[..|sched| - 1];
      StaysBehind(s, before, a, b);
      RunKeepsInv(s, before);
      StepKeepsBehind(Run(s, before), a, b, sched[|sched| - 1]);
    }
  }

  /**
    After `first`, core a has cleared its flag and waits while core b has not yet set its own. In
    every continuation, b being inside means that a has been inside before.
   */
  lemma FirstComeFirstServed(n: nat, first: seq<nat>, s: State, second: seq<nat>, a: nat, b: nat)
    requires Schedule(n, first) && NoWrap(Init(n), first) && s == Run(Init(n), first)
    requires Schedule(n, second) && NoWrap(s, second) && a < n && b < n
    requires Waiting(s.core[a]) && s.core[b].Idle?
    ensures Run(s, second).core[b].Inside? ==> EverInside(s, second, a)
  {
    RunKeepsInv(Init(n), first);
    if !EverInside(s, second, a) {
      StaysBehind(s, second, a, b);
    }
  }
}
