/**
  No reachable state is a deadlock, cores in the doorway included: whenever some core is in acquire and
  none is inside, some continuation without new calls lets a core in.
 */
module BakeryLiveness {
  import opened Bakery
  import opened BakeryProgress
  import opened BakeryBudget

  /** A core that is choosing finishes the doorway by its own steps alone; the other cores stay where they are. */
  lemma FinishDoorway(s: State, c: nat) returns (sched: seq<nat>, t: State)
    requires WellFormed(s) && c < |s.core| && Choosing(s.core[c])
    ensures Leads(s, sched, t, 0) && t.core == s.core[c := Look(0)] && Alone(sched, c)
  {
    if s.core[c].Scan? {
      var m := MaxFrom(s.ticket, s.core[c].i, s.core[c].max);
      var scan := ScanAll(s, c, m);
      var scanned := Moved(s, c, Scan(|s.core|, m));
      var drawn := Step(scanned, c);
      OneStep(scanned, c);
      Chain(s, scan, scanned, [c], drawn, 0, 0);
      t := Step(drawn, c);
      OneStep(drawn, c);
      Chain(s, scan + [c], drawn, [c], t, 0, 0);
      sched := scan + [c] + [c];
    } else {
      OneStep(s, c);
      sched, t := [c], Step(s, c);
    }
  }

  ghost function ChoosingCores(s: State): set<nat> {
    set c: nat | c < |s.core| && Choosing(s.core[c])
  }

  /** All cores that are choosing finish the doorway, one after the other. */
  lemma {:induction false} DrainDoorway(s: State) returns (sched: seq<nat>, t: State)
    requires WellFormed(s)
    ensures Leads(s, sched, t, 0) && |t.core| == |s.core|
    ensures forall a :: 0 <= a < |s.core| ==> t.core[a] == if Choosing(s.core[a]) then Look(0) else s.core[a]
    decreases |ChoosingCores(s)|
  {
    if ChoosingCores(s) == {} {
      sched, t := [], s;
      forall a: nat | a < |s.core|
        ensures !Choosing(s.core[a])
      {
        assert a !in ChoosingCores(s);
      }
    } else {
      var c :| c in ChoosingCores(s);
      var first, u := FinishDoorway(s, c);
      assert ChoosingCores(u) == ChoosingCores(s) - {c};
      var rest;
      rest, t := DrainDoorway(u);
      Chain(s, first, u, rest, t, 0, 0);
      sched := first + rest;
    }
  }

  lemma OnlyWaitersLeft(s: State, t: State)
    requires |t.core| == |s.core|
    requires forall a :: 0 <= a < |s.core| ==> t.core[a] == if Choosing(s.core[a]) then Look(0) else s.core[a]
    requires exists a :: 0 <= a < |s.core| && !s.core[a].Idle?
    requires forall a :: 0 <= a < |s.core| ==> !s.core[a].Inside?
    ensures exists a :: 0 <= a < |t.core| && Waiting(t.core[a])
    ensures forall a :: 0 <= a < |t.core| ==> !Choosing(t.core[a]) && !t.core[a].Inside?
  {
    var a :| 0 <= a < |s.core| && !s.core[a].Idle?;
    assert Waiting(t.core[a]);
  }

  /** Deadlock freedom in every reachable state of every run, tickets that wrap included. */
  lemma SomeoneGetsIn(n: nat, sched: seq<nat>, s: State) returns (more: seq<nat>)
    requires Schedule(n, sched) && s == Run(Init(n), sched)
    requires exists a :: 0 <= a < n && !s.core[a].Idle?
    requires forall a :: 0 <= a < n ==> !s.core[a].Inside?
    ensures Schedule(n, more) && Calls(s, more) == 0
    ensures exists c :: 0 <= c < n && Run(s, more).core[c].Inside?
  {
    var drain, t := DrainDoorway(s);
    RunKeepsTidy(Init(n), sched);
    RunKeepsTidy(s, drain);
    OnlyWaitersLeft(s, t);
    var c, k := LeastGetsIn(t);
    more := LetIn(s, drain, t, c, k);
  }

  lemma LetIn(s: State, drain: seq<nat>, t: State, c: nat, k: nat) returns (more: seq<nat>)
    requires Leads(s, drain, t, 0) && c < |t.core| && Waiting(t.core[c])
    requires Leads(t, Solo(c, k), Moved(t, c, Inside), 0)
    ensures Schedule(|s.core|, more) && Calls(s, more) == 0 && Run(s, more).core[c].Inside?
  {
    Chain(s, drain, t, Solo(c, k), Moved(t, c, Inside), 0, 0);
    more := drain + Solo(c, k);
  }
}
