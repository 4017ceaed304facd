/** Deadlock freedom: the waiting core with the least (ticket, index) is blocked by nobody. */
module BakeryProgress {
  import opened Bakery
  import opened BakerySafety

  /** The schedule in which core c takes k steps and nobody else moves. */
  function Solo(c: nat, k: nat): seq<nat> { seq(k, _ => c) }

  function Moved(s: State, c: nat, p: Core): State
    requires c < |s.core|
  {
    s.(core := s.core[c := p])
  }

  /** The wait condition of lines 31-34 holds for core c looking at core j. */
  predicate Blocks(s: State, j: nat, c: nat)
    requires WellFormed(s) && j < |s.core| && c < |s.core|
  {
    s.ticket[j] != 0 && Before(s, j, c)
  }

  /** Nothing stops core c anywhere in its wait loop. */
  predicate PathClear(s: State, c: nat)
    requires WellFormed(s) && c < |s.core|
  {
    forall j :: 0 <= j < |s.core| ==> !s.protect[j] && !Blocks(s, j, c)
  }

  /** Steps core c still needs before it leaves index i of the wait loop, from program point p. */
  function StepsAt(s: State, c: nat, p: Core): nat
    requires WellFormed(s) && c < |s.core| && Waiting(p) && p.i < |s.core|
  {
    var own, there := s.ticket[c], s.ticket[p.i];
    var retry := if there == 0 then 1 else 5;
    var equal := (x: nat) => if x == own && p.i < c then 1 + retry else 1;
    var less := (x: nat) => if x < own then 1 + retry else 2 + equal(there);
    match p
    case Look(_) => 1 + retry
    case Nonzero(_) => retry
    case LessLeft(_) => 1 + less(there)
    case LessRight(_, x) => less(x)
    case EqualLeft(_) => 1 + equal(there)
    case EqualRight(_, x) => equal(x)
  }

  function StepsLeft(s: State, c: nat): nat
    requires WellFormed(s) && c < |s.core| && Waiting(s.core[c])
  {
    6 * (|s.core| - 1 - s.core[c].i) + StepsAt(s, c, s.core[c])
  }

  lemma SoloPrepend(s: State, c: nat, k: nat)
    requires WellFormed(s) && c < |s.core|
    ensures Run(s, Solo(c, k + 1)) == Run(Step(s, c), Solo(c, k))
    ensures Calls(s, Solo(c, k + 1)) == (if s.core[c].Idle? then 1 else 0) + Calls(Step(s, c), Solo(c, k))
  {
    assert Solo(c, k + 1) == [c] + Solo(c, k);
    assert [c][..0] == [];
    assert Run(s, []) == s && Calls(s, []) == 0;
    RunAppend(s, [c], Solo(c, k));
  }

  lemma WalkStep(s: State, c: nat)
    requires WellFormed(s) && c < |s.core| && Waiting(s.core[c]) && PathClear(s, c)
    ensures var t := Step(s, c);
      && t == Moved(s, c, t.core[c])
      && (t.core[c].Inside? || (Waiting(t.core[c]) && StepsLeft(t, c) < StepsLeft(s, c)))
  {
    assert !s.protect[s.core[c].i] && !Blocks(s, s.core[c].i, c);
  }

  /** With the path clear, core c alone walks in; nothing but its program point changes. */
  lemma {:induction false} WalkIn(s: State, c: nat) returns (k: nat)
    requires WellFormed(s) && c < |s.core| && Waiting(s.core[c]) && PathClear(s, c)
    ensures k <= StepsLeft(s, c)
    ensures Run(s, Solo(c, k)) == Moved(s, c, Inside)
    ensures Calls(s, Solo(c, k)) == 0
    decreases StepsLeft(s, c)
  {
    var t := Step(s, c);
    WalkStep(s, c);
    if t.core[c].Inside? {
      k := 1;
      SoloPrepend(s, c, 0);
    } else {
      assert forall j :: 0 <= j < |s.core| ==> Blocks(t, j, c) == Blocks(s, j, c);
      var rest := WalkIn(t, c);
      k := rest + 1;
      SoloPrepend(s, c, rest);
    }
  }

  /** Some waiting core comes before every other one. */
  lemma {:induction false} LeastAmong(s: State, n: nat) returns (c: nat)
    requires WellFormed(s) && n <= |s.core| && exists a :: 0 <= a < n && Waiting(s.core[a])
    ensures c < n && Waiting(s.core[c])
    ensures forall j :: 0 <= j < n && Waiting(s.core[j]) ==> !Before(s, j, c)
  {
    if exists a :: 0 <= a < n - 1 && Waiting(s.core[a]) {
      c := LeastAmong(s, n - 1);
      if Waiting(s.core[n - 1]) && Before(s, n - 1, c) {
        c := n - 1;
      }
    } else {
      c := n - 1;
    }
  }

  // ----- what holds in every run, tickets that wrap included -----

  /** The flag says whether the core is choosing, and an idle core has no ticket. */
  predicate Tidy(s: State) {
    WellFormed(s) &&
    forall a :: 0 <= a < |s.core| ==>
      s.protect[a] == Choosing(s.core[a]) && (s.core[a].Idle? ==> s.ticket[a] == 0)
  }

  lemma {:induction false} RunKeepsTidy(s: State, sched: seq<nat>)
    requires Tidy(s) && Schedule(|s.core|, sched)
    ensures Tidy(Run(s, sched))
  {
    if sched != [] {
      RunKeepsTidy(s, sched[..|sched| - 1]);
      StepKeepsTidy(Run(s, sched[..|sched| - 1]), sched[|sched| - 1]);
    }
  }

  lemma StepKeepsTidy(s: State, c: nat)
    requires Tidy(s) && c < |s.core|
    ensures Tidy(Step(s, c))
  {
  }

  /**
    Where some core waits, none is choosing and none is inside, the waiting core that comes first gets
    in by its own steps alone, at most 6n of them.
   */
  lemma LeastGetsIn(s: State) returns (c: nat, k: nat)
    requires Tidy(s)
    requires exists a :: 0 <= a < |s.core| && Waiting(s.core[a])
    requires forall a :: 0 <= a < |s.core| ==> !Choosing(s.core[a]) && !s.core[a].Inside?
    ensures c < |s.core| && k <= 6 * |s.core| && Waiting(s.core[c])
    ensures forall j :: 0 <= j < |s.core| && j != c && Waiting(s.core[j]) ==> Before(s, c, j)
    ensures Run(s, Solo(c, k)) == Moved(s, c, Inside) && Calls(s, Solo(c, k)) == 0
  {
    c := LeastAmong(s, |s.core|);
    LeastIsClear(s, c);
    assert !Blocks(s, s.core[c].i, c);
    k := WalkIn(s, c);
  }

  lemma LeastIsClear(s: State, c: nat)
    requires Tidy(s) && c < |s.core| && Waiting(s.core[c])
    requires forall a :: 0 <= a < |s.core| ==> !Choosing(s.core[a]) && !s.core[a].Inside?
    requires forall j :: 0 <= j < |s.core| && Waiting(s.core[j]) ==> !Before(s, j, c)
    ensures PathClear(s, c)
  {
    forall j | 0 <= j < |s.core|
      ensures !s.protect[j] && !Blocks(s, j, c)
    {
      assert !Choosing(s.core[j]) && !s.core[j].Inside?;
    }
  }

  /** LeastGetsIn in every reachable state. */
  lemma NoDeadlock(n: nat, sched: seq<nat>, s: State) returns (c: nat, k: nat)
    requires Schedule(n, sched) && s == Run(Init(n), sched)
    requires exists a :: 0 <= a < n && Waiting(s.core[a])
    requires forall a :: 0 <= a < n ==> !Choosing(s.core[a]) && !s.core[a].Inside?
    ensures c < n && k <= 6 * n && Waiting(s.core[c])
    ensures forall j :: 0 <= j < n && j != c && Waiting(s.core[j]) ==> Before(s, c, j)
    ensures Run(s, Solo(c, k)) == Moved(s, c, Inside) && Calls(s, Solo(c, k)) == 0
  {
    RunKeepsTidy(Init(n), sched);
    c, k := LeastGetsIn(s);
  }
}
