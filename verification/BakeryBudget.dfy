/**
  How many calls the 8-bit tickets allow. Mutual exclusion does not hold in every run: when 256
  calls overlap in a chain, the last one stores ticket 0, which no wait loop respects. This module
  proves the exact bound on the number of calls.
 */
module BakeryBudget {
  import opened Bakery
  import opened BakerySafety
  import opened BakeryProgress

  // ----- at most 255 calls: no ticket wraps -----

  ghost function Scanning(s: State): set<nat> {
    set c: nat | c < |s.core| && s.core[c].Scan?
  }

  /** Tickets do not exceed the number of calls that have drawn one. */
  ghost predicate Bounded(s: State, calls: nat) {
    && WellFormed(s) && |Scanning(s)| <= calls
    && (forall a :: 0 <= a < |s.core| ==> s.ticket[a] <= calls - |Scanning(s)|)
    && (forall a :: 0 <= a < |s.core| && s.core[a].Scan? ==> s.core[a].max <= calls - |Scanning(s)|)
  }

  lemma ScanningStep(s: State, c: nat)
    requires WellFormed(s) && c < |s.core|
    ensures var t := Step(s, c);
      |Scanning(t)| == |Scanning(s)| + (if s.core[c].Idle? then 1 else 0)
                       - (if s.core[c].Scan? && t.core[c].Clear? then 1 else 0)
    ensures s.core[c].Scan? ==> |Scanning(s)| > 0
  {
    var t := Step(s, c);
    assert s.core[c].Scan? <==> c in Scanning(s);
    if s.core[c].Idle? {
      assert Scanning(t) == Scanning(s) + {c};
    } else if s.core[c].Scan? && t.core[c].Clear? {
      assert Scanning(t) == Scanning(s) - {c};
    } else {
      assert Scanning(t) == Scanning(s);
    }
  }

  lemma StepKeepsBounded(s: State, c: nat, calls: nat)
    requires Bounded(s, calls) && c < |s.core|
    ensures Bounded(Step(s, c), calls + if s.core[c].Idle? then 1 else 0)
    ensures Wraps(s, c) ==> calls >= TICKET_MODULUS
  {
    ScanningStep(s, c);
  }

  lemma {:induction false} FewCallsNeverWrap(n: nat, sched: seq<nat>)
    requires Schedule(n, sched) && Calls(Init(n), sched) < TICKET_MODULUS
    ensures Bounded(Run(Init(n), sched), Calls(Init(n), sched))
    ensures NoWrap(Init(n), sched)
  {
    if sched == [] {
      assert Scanning(Init(n)) == {};
    } else {
      var before := sched[..|sched| - 1];
      FewCallsNeverWrap(n, before);
      StepKeepsBounded(Run(Init(n), before), sched[|sched| - 1], Calls(Init(n), before));
    }
  }

  // ----- 256 calls by two cores: both inside -----

  function MaxFrom(t: seq<nat>, i: nat, m: nat): nat
    requires i <= |t|
    decreases |t| - i
  {
    if i == |t| then m else MaxFrom(t, i + 1, Max(t[i], m))
  }

  lemma {:induction false} MaxFromIs(t: seq<nat>, i: nat, m: nat, k: nat)
    requires i <= |t| && m <= k && forall j :: i <= j < |t| ==> t[j] <= k
    requires m == k || exists j :: i <= j < |t| && t[j] == k
    ensures MaxFrom(t, i, m) == k
    decreases |t| - i
  {
    if i < |t| {
      MaxFromIs(t, i + 1, Max(t[i], m), k);
    }
  }

  /** The run s --sched--> t starts the given number of calls. */
  predicate Leads(s: State, sched: seq<nat>, t: State, calls: nat) {
    && WellFormed(s) && Schedule(|s.core|, sched)
    && Run(s, sched) == t && Calls(s, sched) == calls
  }

  /** Only core c moves. */
  predicate Alone(sched: seq<nat>, c: nat) {
    forall k :: 0 <= k < |sched| ==> sched[k] == c
  }

  lemma Chain(s: State, a: seq<nat>, t: State, b: seq<nat>, u: State, i: nat, j: nat)
    requires Leads(s, a, t, i) && Leads(t, b, u, j)
    ensures Leads(s, a + b, u, i + j)
  {
    RunAppend(s, a, b);
  }

  lemma OneStep(s: State, c: nat)
    requires WellFormed(s) && c < |s.core|
    ensures Leads(s, [c], Step(s, c), if s.core[c].Idle? then 1 else 0)
  {
    assert [c][..0] == [];
    assert Run(s, []) == s && Calls(s, []) == 0;
  }

  lemma ScanStep(s: State, c: nat)
    requires WellFormed(s) && c < |s.core| && s.core[c].Scan? && s.core[c].i < |s.core|
    ensures var p := s.core[c];
      Leads(s, [c], Moved(s, c, Scan(p.i + 1, Max(s.ticket[p.i], p.max))), 0)
  {
    OneStep(s, c);
    assert Step(s, c) == Moved(s, c, NextCore(s, c));
  }

  /** Core c alone finishes the max scan of lines 14-18 with maximum m. */
  lemma {:induction false} ScanAll(s: State, c: nat, m: nat) returns (sched: seq<nat>)
    requires WellFormed(s) && c < |s.core| && s.core[c].Scan?
    requires m == MaxFrom(s.ticket, s.core[c].i, s.core[c].max)
    ensures Leads(s, sched, Moved(s, c, Scan(|s.core|, m)), 0) && Alone(sched, c)
    decreases |s.core| - s.core[c].i
  {
    var p := s.core[c];
    if p.i == |s.core| {
      sched := [];
      assert Moved(s, c, Scan(|s.core|, m)) == s;
    } else {
      var t := Moved(s, c, Scan(p.i + 1, Max(s.ticket[p.i], p.max)));
      ScanStep(s, c);
      var rest := ScanAll(t, c, m);
      assert Moved(t, c, Scan(|s.core|, m)) == Moved(s, c, Scan(|s.core|, m));
      Chain(s, [c], t, rest, Moved(s, c, Scan(|s.core|, m)), 0, 0);
      sched := [c] + rest;
    }
  }

  /** The state after core c has gone through lines 10-24 alone. */
  function AfterDoorway(s: State, c: nat): State
    requires WellFormed(s) && c < |s.core|
  {
    State(s.protect, s.ticket[c := (MaxFrom(s.ticket, 0, 0) + 1) % TICKET_MODULUS], s.core[c := Look(0)])
  }

  lemma DoorwayEnds(s: State, c: nat, m: nat)
    requires WellFormed(s) && c < |s.core| && s.core[c].Idle? && !s.protect[c] && m == MaxFrom(s.ticket, 0, 0)
    ensures var scanned := Moved(Step(s, c), c, Scan(|s.core|, m));
      WellFormed(scanned) && !Step(scanned, c).core[c].Idle? && Step(Step(scanned, c), c) == AfterDoorway(s, c)
  {
  }

  lemma Doorway(s: State, c: nat) returns (sched: seq<nat>)
    requires WellFormed(s) && c < |s.core| && s.core[c].Idle? && !s.protect[c]
    ensures Leads(s, sched, AfterDoorway(s, c), 1) && Alone(sched, c)
  {
    var n, m := |s.core|, MaxFrom(s.ticket, 0, 0);
    var entered := Step(s, c);
    var scanned := Moved(entered, c, Scan(n, m));
    assert entered.ticket == s.ticket;
    OneStep(s, c);
    var scan := ScanAll(entered, c, m);
    Chain(s, [c], entered, scan, scanned, 1, 0);
    DoorwayEnds(s, c, m);
    var drawn := Step(scanned, c);
    OneStep(scanned, c);
    Chain(s, [c] + scan, scanned, [c], drawn, 1, 0);
    OneStep(drawn, c);
    Chain(s, [c] + scan + [c], drawn, [c], AfterDoorway(s, c), 1, 0);
    sched := [c] + scan + [c] + [c];
  }

  /** Core h is inside with ticket k and every other core is idle. */
  function Hold(n: nat, h: nat, k: nat): State {
    State(seq(n, _ => false), seq(n, i => if i == h then k else 0), seq(n, i => if i == h then Inside else Idle))
  }

  lemma FirstReady(n: nat)
    requires n > 0
    ensures var t := AfterDoorway(Init(n), 0);
      t.core[0].Look? && PathClear(t, 0) && Moved(t, 0, Inside) == Hold(n, 0, 1)
  {
    MaxFromIs(Init(n).ticket, 0, 0, 0);
  }

  lemma FirstIn(n: nat) returns (sched: seq<nat>)
    requires n > 0
    ensures Leads(Init(n), sched, Hold(n, 0, 1), 1)
  {
    var s := Init(n);
    var door := Doorway(s, 0);
    FirstReady(n);
    var t := AfterDoorway(s, 0);
    var k := WalkIn(t, 0);
    Chain(s, door, t, Solo(0, k), Hold(n, 0, 1), 1, 0);
    sched := door + Solo(0, k);
  }

  lemma Released(n: nat, h: nat, o: nat, k: nat)
    requires h < n && o < n && h != o && 0 < k && k + 1 < TICKET_MODULUS
    ensures var t := AfterDoorway(Hold(n, h, k), o); var u := Step(t, h);
      && t.core[h].Inside? && u.core[o].Look? && PathClear(u, o)
      && Moved(u, o, Inside) == Hold(n, o, k + 1)
  {
    var s := Hold(n, h, k);
    assert s.ticket[h] == k;
    MaxFromIs(s.ticket, 0, 0, k);
  }

  /** While h is inside, o draws the next ticket; then h leaves and o gets in. */
  lemma HandOver(n: nat, h: nat, o: nat, k: nat) returns (sched: seq<nat>)
    requires h < n && o < n && h != o && 0 < k && k + 1 < TICKET_MODULUS
    ensures Leads(Hold(n, h, k), sched, Hold(n, o, k + 1), 1)
  {
    var s := Hold(n, h, k);
    var door := Doorway(s, o);
    Released(n, h, o, k);
    var t := AfterDoorway(s, o);
    var u := Step(t, h);
    OneStep(t, h);
    Chain(s, door, t, [h], u, 1, 0);
    var j := WalkIn(u, o);
    Chain(s, door + [h], u, Solo(o, j), Hold(n, o, k + 1), 1, 0);
    sched := door + [h] + Solo(o, j);
  }

  /** Two cores taking turns: k calls lead to core (k - 1) % 2 inside with ticket k. */
  lemma {:induction false} TakeTurns(n: nat, k: nat) returns (sched: seq<nat>)
    requires n >= 2 && 0 < k < TICKET_MODULUS
    ensures Leads(Init(n), sched, Hold(n, (k - 1) % 2, k), k)
  {
    if k == 1 {
      sched := FirstIn(n);
    } else {
      var first := TakeTurns(n, k - 1);
      var last := HandOver(n, (k - 2) % 2, (k - 1) % 2, k - 1);
      Chain(Init(n), first, Hold(n, (k - 2) % 2, k - 1), last, Hold(n, (k - 1) % 2, k), k - 1, 1);
      sched := first + last;
    }
  }

  /** With ticket 255 held by core 0, core 1 stores ticket 0 and nobody is in its way. */
  lemma LastDoor(n: nat, t: State)
    requires n >= 2 && t == AfterDoorway(Hold(n, 0, TICKET_MODULUS - 1), 1)
    ensures t.core[1].Look? && PathClear(t, 1) && !Exclusive(Moved(t, 1, Inside))
  {
    var s := Hold(n, 0, TICKET_MODULUS - 1);
    assert s.ticket[0] == TICKET_MODULUS - 1;
    MaxFromIs(s.ticket, 0, 0, TICKET_MODULUS - 1);
    var e := Moved(t, 1, Inside);
    assert e.core[0].Inside? && e.core[1].Inside?;
  }

  /** With two or more cores there is a run with 256 calls that ends with two cores inside. */
  lemma WrapBreaksExclusion(n: nat) returns (sched: seq<nat>)
    requires n >= 2
    ensures Schedule(n, sched) && Calls(Init(n), sched) == TICKET_MODULUS
    ensures !Exclusive(Run(Init(n), sched))
  {
    var turns := TakeTurns(n, TICKET_MODULUS - 1);
    var s := Hold(n, 0, TICKET_MODULUS - 1);
    var door := Doorway(s, 1);
    var t := AfterDoorway(s, 1);
    LastDoor(n, t);
    Chain(Init(n), turns, s, door, t, TICKET_MODULUS - 1, 1);
    var k := WalkIn(t, 1);
    Chain(Init(n), turns + door, t, Solo(1, k), Moved(t, 1, Inside), TICKET_MODULUS, 0);
    sched := turns + door + Solo(1, k);
  }

  /** Every run of n cores that starts at most `calls` calls keeps mutual exclusion. */
  ghost predicate SafeFor(n: nat, calls: nat) {
    forall sched | Schedule(n, sched) && Calls(Init(n), sched) <= calls :: Exclusive(Run(Init(n), sched))
  }

  /** The exact bound: one core, or at most 255 calls. */
  lemma ExclusionBudget(n: nat, calls: nat)
    ensures SafeFor(n, calls) <==> n <= 1 || calls < TICKET_MODULUS
  {
    if n >= 2 && calls >= TICKET_MODULUS {
      var sched := WrapBreaksExclusion(n);
    } else if n >= 2 {
      forall sched | Schedule(n, sched) && Calls(Init(n), sched) <= calls
        ensures Exclusive(Run(Init(n), sched))
      {
        FewCallsNeverWrap(n, sched);
        MutualExclusion(n, sched);
      }
    }
  }

  /** The budget is per busy period: once every core is idle again the lock is as initialised. */
  lemma QuiescentIsInitial(n: nat, sched: seq<nat>)
    requires Schedule(n, sched) && NoWrap(Init(n), sched)
    requires forall a :: 0 <= a < n ==> Run(Init(n), sched).core[a].Idle?
    ensures Run(Init(n), sched) == Init(n)
  {
    var s := Run(Init(n), sched);
    RunKeepsInv(Init(n), sched);
    forall a | 0 <= a < n
      ensures s.ticket[a] == 0 && !s.protect[a]
    {
      assert Local(s, a);
    }
  }

  // ----- the budget counts per busy period -----

  predicate Quiet(s: State) { forall a :: 0 <= a < |s.core| ==> s.core[a].Idle? }

  /** The number of calls since all cores were last idle. */
  function BusyCalls(s: State, sched: seq<nat>): nat
    requires WellFormed(s) && Schedule(|s.core|, sched)
  {
    if sched == [] then 0
    else
      var before, c := sched[..|sched| - 1], sched[|sched| - 1];
      var t := Run(s, before);
      (if Quiet(t) then 0 else BusyCalls(s, before)) + if t.core[c].Idle? then 1 else 0
  }

  /** Fewer than 256 calls in every busy period so far. */
  predicate WithinBudget(s: State, sched: seq<nat>)
    requires WellFormed(s) && Schedule(|s.core|, sched)
  {
    BusyCalls(s, sched) < TICKET_MODULUS && (sched == [] || WithinBudget(s, sched[..|sched| - 1]))
  }

  lemma InitBounded(n: nat)
    ensures Bounded(Init(n), 0)
  {
    assert Scanning(Init(n)) == {};
  }

  lemma {:induction false} BusyRunsBounded(n: nat, sched: seq<nat>)
    requires Schedule(n, sched) && WithinBudget(Init(n), sched)
    ensures NoWrap(Init(n), sched)
    ensures Bounded(Run(Init(n), sched), BusyCalls(Init(n), sched))
  {
    if sched == [] {
      InitBounded(n);
    } else {
      var before, c := sched[..|sched| - 1], sched[|sched| - 1];
      BusyRunsBounded(n, before);
      var t := Run(Init(n), before);
      if Quiet(t) {
        QuiescentIsInitial(n, before);
        InitBounded(n);
        StepKeepsBounded(t, c, 0);
      } else {
        StepKeepsBounded(t, c, BusyCalls(Init(n), before));
      }
    }
  }

  /** A lock may serve any number of calls as long as no busy period has more than 255. */
  lemma BusyPeriodBudget(n: nat, sched: seq<nat>)
    requires Schedule(n, sched) && WithinBudget(Init(n), sched)
    ensures Exclusive(Run(Init(n), sched))
  {
    BusyRunsBounded(n, sched);
    MutualExclusion(n, sched);
  }
}
