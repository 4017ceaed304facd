/**
  Bounded overtaking, and freedom from starvation under fair schedules: while a core waits, every other
  core goes in at most once, and if every core that is not idle keeps getting turns the waiting core
  gets in, within a number of rounds that depends on the number of cores only.
 */
module BakeryFairness {
  import opened Bakery
  import opened BakerySafety
  import opened BakeryOrder
  import opened BakeryProgress
  import opened Quotients

  // ----- runs put together -----

  lemma {:induction false} NoWrapAppend(s: State, first: seq<nat>, second: seq<nat>)
    requires WellFormed(s) && Schedule(|s.core|, first) && Schedule(|s.core|, second)
    requires NoWrap(s, first + second)
    ensures NoWrap(s, first) && NoWrap(Run(s, first), second)
  {
    if second == [] {
      assert first + second == first;
    } else {
      var init := second[..|second| - 1];
      assert (first + second)[..|first + second| - 1] == first + init;
      NoWrapAppend(s, first, init);
      RunAppend(s, first, init);
    }
  }

  lemma InsideLastOrBefore(s: State, sched: seq<nat>, a: nat)
    requires WellFormed(s) && Schedule(|s.core|, sched) && a < |s.core| && EverInside(s, sched, a)
    ensures Run(s, sched).core[a].Inside? || (sched != [] && EverInside(s, sched[..|sched| - 1], a))
  {
    var k :| 0 <= k <= |sched| && Run(s, sched[..k]).core[a].Inside?;
    if k == |sched| {
      assert sched[..k] == sched;
    } else {
      assert sched[..|sched| - 1][..k] == sched[..k];
    }
  }

  /** A core that is not inside during a run is so in neither part of it. */
  lemma {:induction false} EverInsideAppend(s: State, first: seq<nat>, second: seq<nat>, a: nat)
    requires WellFormed(s) && Schedule(|s.core|, first) && Schedule(|s.core|, second) && a < |s.core|
    requires !EverInside(s, first + second, a)
    ensures !EverInside(s, first, a) && !EverInside(Run(s, first), second, a)
  {
    EverInsideGrows(s, first + second, a);
    RunAppend(s, first, second);
    if second == [] {
      assert first + second == first;
    } else {
      assert (first + second)[..|first + second| - 1] == first + second[..|second| - 1];
      EverInsideAppend(s, first, second[..|second| - 1], a);
    }
    if EverInside(Run(s, first), second, a) {
      InsideLastOrBefore(Run(s, first), second, a);
    }
  }

  /** A waiting core goes on waiting until it is inside. */
  lemma {:induction false} StaysWaiting(s: State, sched: seq<nat>, a: nat)
    requires WellFormed(s) && Schedule(|s.core|, sched) && a < |s.core| && Waiting(s.core[a])
    requires !EverInside(s, sched, a)
    ensures Waiting(Run(s, sched).core[a])
  {
    EverInsideGrows(s, sched, a);
    if sched != [] {
      StaysWaiting(s, sched[..|sched| - 1], a);
    }
  }

  // ----- bounded overtaking -----

  /** How often core b gets in during the run. */
  function Entries(s: State, sched: seq<nat>, b: nat): nat
    requires WellFormed(s) && Schedule(|s.core|, sched) && b < |s.core|
  {
    if sched == [] then 0
    else
      var before := sched[..|sched| - 1];
      Entries(s, before, b) + if !Run(s, before).core[b].Inside? && Run(s, sched).core[b].Inside? then 1 else 0
  }

  /** While core a waits, each other core gets in at most once, and is behind a after that. */
  lemma {:induction false} OvertakenOnce(s: State, sched: seq<nat>, a: nat, b: nat)
    requires Inv(s) && Schedule(|s.core|, sched) && NoWrap(s, sched) && a < |s.core| && b < |s.core| && a != b
    requires Waiting(s.core[a]) && !EverInside(s, sched, a)
    ensures Entries(s, sched, b) <= 1
    ensures Entries(s, sched, b) == 1 ==> Run(s, sched).core[b].Inside? || Behind(Run(s, sched), a, b)
  {
    if sched != [] {
      var before, c := sched[..|sched| - 1], sched[|sched| - 1];
      EverInsideGrows(s, sched, a);
      OvertakenOnce(s, before, a, b);
      RunKeepsInv(s, before);
      StaysWaiting(s, before, a);
      StaysWaiting(s, sched, a);
      if Entries(s, before, b) == 1 {
        OvertakingStep(Run(s, before), a, b, c);
      }
    }
  }

  lemma OvertakingStep(s: State, a: nat, b: nat, c: nat)
    requires Inv(s) && a < |s.core| && b < |s.core| && c < |s.core| && !Wraps(s, c) && a != b
    requires Waiting(s.core[a]) && Waiting(Step(s, c).core[a])
    requires s.core[b].Inside? || Behind(s, a, b)
    ensures Step(s, c).core[b].Inside? ==> s.core[b].Inside?
    ensures Step(s, c).core[b].Inside? || Behind(Step(s, c), a, b)
  {
    if Behind(s, a, b) {
      StepKeepsBehind(s, a, b, c);
    }
  }

  // ----- how far core b is from standing behind a for good -----

  /** Behind a: idle, through the doorway once more, and then waiting behind a. */
  function RankBehind(p: Core, n: nat): nat
    requires CoreInRange(p, n)
  {
    if p.Idle? then n + 3 else if p.Scan? then n + 2 - p.i else if p.Clear? then 1 else 0
  }

  /** Before that: through the doorway, waiting, and inside. */
  function RankAhead(p: Core, n: nat): nat
    requires CoreInRange(p, n)
  {
    if p.Scan? then n + 7 + (n - p.i) else if p.Clear? then n + 6 else if p.Inside? then n + 4 else n + 5
  }

  /** While a waits, b can only move down. */
  function Rank(s: State, a: nat, b: nat): nat
    requires WellFormed(s) && a < |s.core| && b < |s.core|
  {
    if Behind(s, a, b) then RankBehind(s.core[b], |s.core|) else RankAhead(s.core[b], |s.core|)
  }

  /** No step raises a rank; a step of b lowers it unless b waits and goes on waiting. */
  lemma RankStep(s: State, a: nat, b: nat, c: nat)
    requires Inv(s) && a < |s.core| && b < |s.core| && c < |s.core| && !Wraps(s, c) && a != b
    requires Waiting(s.core[a]) && Waiting(Step(s, c).core[a])
    ensures var t := Step(s, c);
      && Rank(t, a, b) <= Rank(s, a, b)
      && (c == b && !(Waiting(s.core[b]) && Waiting(t.core[b])) ==> Rank(t, a, b) < Rank(s, a, b))
  {
    if Behind(s, a, b) {
      StepKeepsBehind(s, a, b, c);
    }
  }

  function SumRank(s: State, a: nat, m: nat): nat
    requires WellFormed(s) && a < |s.core| && m <= |s.core|
  {
    if m == 0 then 0 else SumRank(s, a, m - 1) + if m - 1 == a then 0 else Rank(s, a, m - 1)
  }

  lemma {:induction false} SumRankStep(s: State, a: nat, c: nat, m: nat)
    requires Inv(s) && a < |s.core| && c < |s.core| && !Wraps(s, c) && m <= |s.core|
    requires Waiting(s.core[a]) && Waiting(Step(s, c).core[a])
    ensures SumRank(Step(s, c), a, m) <= SumRank(s, a, m)
    ensures c < m && c != a && !(Waiting(s.core[c]) && Waiting(Step(s, c).core[c])) ==>
              SumRank(Step(s, c), a, m) < SumRank(s, a, m)
  {
    if m > 0 {
      SumRankStep(s, a, c, m - 1);
      if m - 1 != a {
        RankStep(s, a, m - 1, c);
      }
    }
  }

  lemma {:induction false} SumRankBound(s: State, a: nat, m: nat)
    requires WellFormed(s) && a < |s.core| && m <= |s.core|
    ensures SumRank(s, a, m) <= Weighted(m, 2 * |s.core| + 7)
  {
    if m > 0 {
      SumRankBound(s, a, m - 1);
      ProductMonotone(m - 1, m, 2 * |s.core| + 7);
    }
  }

  // ----- the core whose turn brings progress -----

  /** Choosing or inside: its own steps bring it on, whatever the others do. */
  predicate Busy(p: Core) { Choosing(p) || p.Inside? }

  /** The first busy core from index i on. */
  function FirstBusy(p: seq<Core>, i: nat): (f: nat)
    requires i <= |p|
    ensures i <= f <= |p| && (f < |p| ==> Busy(p[f]))
    ensures forall j :: i <= j < f ==> !Busy(p[j])
    decreases |p| - i
  {
    if i == |p| || Busy(p[i]) then i else FirstBusy(p, i + 1)
  }

  /** The waiting core that comes first, among those below m; m when none of them waits. */
  function LeastWaiting(s: State, m: nat): (c: nat)
    requires WellFormed(s) && m <= |s.core|
    ensures c <= m && (c < m ==> Waiting(s.core[c]))
    ensures forall j :: 0 <= j < m && Waiting(s.core[j]) ==> c < m && !Before(s, j, c)
  {
    if m == 0 then 0
    else
      var c := LeastWaiting(s, m - 1);
      if !Waiting(s.core[m - 1]) then (if c == m - 1 then m else c)
      else if c == m - 1 || Before(s, m - 1, c) then m - 1
      else c
  }

  /** Some busy core; if there is none, the waiting core that comes first. */
  function Helpful(s: State): (c: nat)
    requires WellFormed(s)
    ensures c <= |s.core| && (c < |s.core| ==> !s.core[c].Idle?)
    ensures forall a :: 0 <= a < |s.core| && Waiting(s.core[a]) ==> c < |s.core|
  {
    var f := FirstBusy(s.core, 0);
    if f < |s.core| then f else LeastWaiting(s, |s.core|)
  }

  function Inner(s: State): (k: nat)
    requires WellFormed(s)
    ensures k <= 6 * |s.core| + 3
  {
    if FirstBusy(s.core, 0) < |s.core| then 6 * |s.core| + 3
    else if LeastWaiting(s, |s.core|) < |s.core| then StepsLeft(s, LeastWaiting(s, |s.core|))
    else 0
  }

  function Remaining(s: State, a: nat): nat
    requires WellFormed(s) && a < |s.core|
  {
    Weighted(SumRank(s, a, |s.core|), 6 * |s.core| + 4) + Inner(s)
  }

  function Weighted(x: nat, k: nat): nat {
    ProductMonotone(0, x, k);
    x * k
  }

  lemma RemainingDrops(x: nat, y: nat, i: nat, j: nat, k: nat)
    requires x < y && i < k
    ensures Weighted(x, k) + i < Weighted(y, k) + j
  {
    ProductMonotone(x, y, k);
  }

  lemma FirstBusySame(p: seq<Core>, q: seq<Core>, i: nat)
    requires |p| == |q| && i <= |p| && forall j :: 0 <= j < |p| ==> (Busy(p[j]) <==> Busy(q[j]))
    ensures FirstBusy(p, i) == FirstBusy(q, i)
    decreases |p| - i
  {
  }

  lemma LeastWaitingSame(s: State, t: State, m: nat)
    requires WellFormed(s) && WellFormed(t) && |s.core| == |t.core| && m <= |s.core| && s.ticket == t.ticket
    requires forall j :: 0 <= j < |s.core| ==> (Waiting(s.core[j]) <==> Waiting(t.core[j]))
    ensures LeastWaiting(s, m) == LeastWaiting(t, m)
  {
  }

  /** A step of a core that waits and goes on waiting helps nobody else and changes nothing for them. */
  lemma HelpfulSame(s: State, d: nat)
    requires WellFormed(s) && d < |s.core| && Waiting(s.core[d]) && Waiting(NextCore(s, d))
    ensures var t := Moved(s, d, NextCore(s, d));
      && WellFormed(t) && FirstBusy(t.core, 0) == FirstBusy(s.core, 0)
      && LeastWaiting(t, |t.core|) == LeastWaiting(s, |s.core|)
  {
    var t := Moved(s, d, NextCore(s, d));
    WaiterStep(s, d);
    assert t == Step(s, d);
    FirstBusySame(s.core, t.core, 0);
    LeastWaitingSame(s, t, |s.core|);
  }

  /** A waiting core's step changes nothing but its own program point. */
  lemma WaiterStep(s: State, d: nat)
    requires WellFormed(s) && d < |s.core| && Waiting(s.core[d])
    ensures Step(s, d) == Moved(s, d, NextCore(s, d))
    ensures Waiting(NextCore(s, d)) || NextCore(s, d).Inside?
  {
  }

  lemma NobodyBusy(s: State)
    requires Inv(s) && FirstBusy(s.core, 0) == |s.core|
    ensures Tidy(s) && forall j :: 0 <= j < |s.core| ==> !Choosing(s.core[j]) && !s.core[j].Inside?
  {
    forall j | 0 <= j < |s.core|
      ensures s.protect[j] == Choosing(s.core[j]) && (s.core[j].Idle? ==> s.ticket[j] == 0) && !Busy(s.core[j])
    {
      assert Local(s, j);
    }
    forall j | 0 <= j < |s.core|
      ensures !Choosing(s.core[j]) && !s.core[j].Inside?
    {
      assert !Busy(s.core[j]);
    }
  }

  /** Nobody is busy, and the first of the waiting cores takes a turn without getting in. */
  lemma FirstWaiterStep(s: State, c: nat)
    requires Inv(s) && FirstBusy(s.core, 0) == |s.core| && c == LeastWaiting(s, |s.core|) && c < |s.core|
    requires Waiting(Step(s, c).core[c])
    ensures Inner(Step(s, c)) < Inner(s)
  {
    NobodyBusy(s);
    LeastIsClear(s, c);
    WalkStep(s, c);
    HelpfulSame(s, c);
  }

  /** A turn of the helpful core when it waits and goes on waiting: nobody is busy then. */
  lemma WaitersTurn(s: State, a: nat)
    requires Inv(s) && a < |s.core| && Waiting(s.core[a]) && FirstBusy(s.core, 0) == |s.core|
    requires Waiting(Step(s, Helpful(s)).core[a]) && Waiting(Step(s, Helpful(s)).core[Helpful(s)])
    ensures Remaining(Step(s, Helpful(s)), a) < Remaining(s, a)
  {
    var n, t := |s.core|, Step(s, Helpful(s));
    assert Waiting(s.core[Helpful(s)]);
    SumRankStep(s, a, Helpful(s), n);
    FirstWaiterStep(s, Helpful(s));
    SameSumLess(SumRank(t, a, n), SumRank(s, a, n), Inner(t), Inner(s), 6 * n + 4);
  }

  /** A turn of the helpful core. */
  lemma HelpfulStep(s: State, a: nat)
    requires Inv(s) && a < |s.core| && Waiting(s.core[a]) && !Wraps(s, Helpful(s))
    requires Waiting(Step(s, Helpful(s)).core[a])
    ensures Remaining(Step(s, Helpful(s)), a) < Remaining(s, a)
  {
    var c, n := Helpful(s), |s.core|;
    var t := Step(s, c);
    if Waiting(s.core[c]) && Waiting(t.core[c]) {
      WaitersTurn(s, a);
    } else {
      SumRankStep(s, a, c, n);
      RemainingDrops(SumRank(t, a, n), SumRank(s, a, n), Inner(t), Inner(s), 6 * n + 4);
    }
  }

  lemma SameSumLess(x: nat, y: nat, i: nat, j: nat, k: nat)
    requires x <= y && i < j
    ensures Weighted(x, k) + i < Weighted(y, k) + j
  {
    ProductMonotone(x, y, k);
  }

  /** A turn of another core that waits and goes on waiting. */
  lemma OtherWaits(s: State, d: nat)
    requires WellFormed(s) && d < |s.core| && Waiting(s.core[d]) && Waiting(Step(s, d).core[d]) && d != Helpful(s)
    ensures Helpful(Step(s, d)) == Helpful(s) && Inner(Step(s, d)) == Inner(s)
  {
    WaiterStep(s, d);
    HelpfulSame(s, d);
    var c, t := LeastWaiting(s, |s.core|), Step(s, d);
    assert c < |s.core| && c != d ==> StepsLeft(t, c) == StepsLeft(s, c);
  }

  /** A turn of any other core brings progress too, or leaves the helpful core and what remains as they are. */
  lemma OtherStep(s: State, a: nat, d: nat)
    requires Inv(s) && a < |s.core| && d < |s.core| && Waiting(s.core[a]) && !Wraps(s, d) && d != Helpful(s)
    requires Waiting(Step(s, d).core[a])
    ensures var t := Step(s, d);
      Remaining(t, a) < Remaining(s, a) || (Remaining(t, a) == Remaining(s, a) && Helpful(t) == Helpful(s))
  {
    var n, t := |s.core|, Step(s, d);
    SumRankStep(s, a, d, n);
    if SumRank(t, a, n) < SumRank(s, a, n) {
      RemainingDrops(SumRank(t, a, n), SumRank(s, a, n), Inner(t), Inner(s), 6 * n + 4);
    } else {
      OtherWaits(s, d);
    }
  }

  // ----- rounds -----

  lemma TurnHelps(s: State, a: nat, c: nat)
    requires Inv(s) && a < |s.core| && c < |s.core| && Waiting(s.core[a]) && !Wraps(s, c)
    requires Waiting(Step(s, c).core[a])
    ensures var t := Step(s, c);
      || Remaining(t, a) < Remaining(s, a)
      || (Remaining(t, a) == Remaining(s, a) && Helpful(t) == Helpful(s) && c != Helpful(s))
  {
    if c == Helpful(s) {
      HelpfulStep(s, a);
    } else {
      OtherStep(s, a, c);
    }
  }

  /** Along any schedule what remains drops, unless the helpful core of the start has had no turn. */
  lemma {:induction false} TurnsHelp(s: State, sched: seq<nat>, a: nat)
    requires Inv(s) && Schedule(|s.core|, sched) && NoWrap(s, sched) && a < |s.core|
    requires Waiting(s.core[a]) && !EverInside(s, sched, a)
    ensures var t := Run(s, sched);
      || Remaining(t, a) < Remaining(s, a)
      || (Remaining(t, a) == Remaining(s, a) && Helpful(t) == Helpful(s) && Helpful(s) !in sched)
  {
    if sched != [] {
      var before, c := sched[..|sched| - 1], sched[|sched| - 1];
      EverInsideGrows(s, sched, a);
      TurnsHelp(s, before, a);
      RunKeepsInv(s, before);
      StaysWaiting(s, before, a);
      StaysWaiting(s, sched, a);
      TurnHelps(Run(s, before), a, c);
      assert sched == before + [c];
    }
  }

  predicate Schedules(n: nat, rounds: seq<seq<nat>>) {
    forall k :: 0 <= k < |rounds| ==> Schedule(n, rounds[k])
  }

  function Flat(n: nat, rounds: seq<seq<nat>>): (sched: seq<nat>)
    requires Schedules(n, rounds)
    ensures Schedule(n, sched)
  {
    if rounds == [] then [] else Flat(n, rounds[..|rounds| - 1]) + rounds[|rounds| - 1]
  }

  /** The round gives a turn to every core that is not idle when it begins. */
  predicate FairRound(s: State, r: seq<nat>) {
    forall c :: 0 <= c < |s.core| && !s.core[c].Idle? ==> c in r
  }

  /** Cores that are idle may stay so for good; all others keep getting turns, in any order and number. */
  predicate Fair(s: State, rounds: seq<seq<nat>>)
    requires WellFormed(s) && Schedules(|s.core|, rounds)
  {
    rounds == [] ||
    var before := rounds[..|rounds| - 1];
    Fair(s, before) && FairRound(Run(s, Flat(|s.core|, before)), rounds[|rounds| - 1])
  }

  /** Every round that a spends waiting takes at least one off what remains. */
  lemma {:induction false} RoundsHelp(s: State, rounds: seq<seq<nat>>, a: nat)
    requires Inv(s) && a < |s.core| && Schedules(|s.core|, rounds) && NoWrap(s, Flat(|s.core|, rounds))
    requires Fair(s, rounds) && Waiting(s.core[a]) && !EverInside(s, Flat(|s.core|, rounds), a)
    ensures Remaining(Run(s, Flat(|s.core|, rounds)), a) + |rounds| <= Remaining(s, a)
  {
    if rounds != [] {
      var n := |s.core|;
      var first, r := Flat(n, rounds[..|rounds| - 1]), rounds[|rounds| - 1];
      NoWrapAppend(s, first, r);
      EverInsideAppend(s, first, r, a);
      RoundsHelp(s, rounds[..|rounds| - 1], a);
      RunKeepsInv(s, first);
      StaysWaiting(s, first, a);
      RunAppend(s, first, r);
      RoundHelps(Run(s, first), r, a);
    }
  }

  lemma RoundHelps(s: State, r: seq<nat>, a: nat)
    requires Inv(s) && a < |s.core| && Schedule(|s.core|, r) && NoWrap(s, r) && FairRound(s, r)
    requires Waiting(s.core[a]) && !EverInside(s, r, a)
    ensures Remaining(Run(s, r), a) < Remaining(s, a)
  {
    TurnsHelp(s, r, a);
    assert Helpful(s) in r;
  }

  /** Rounds that suffice for n cores. */
  function WaitBound(n: nat): nat { Weighted(Weighted(n, 2 * n + 7), 6 * n + 4) + 6 * n + 3 }

  lemma RemainingBound(s: State, a: nat)
    requires WellFormed(s) && a < |s.core|
    ensures Remaining(s, a) <= WaitBound(|s.core|)
  {
    var n := |s.core|;
    SumRankBound(s, a, n);
    ProductMonotone(SumRank(s, a, n), Weighted(n, 2 * n + 7), 6 * n + 4);
  }

  /** The waiting core of a state that satisfies the protocol invariant. */
  lemma WaiterGetsIn(s: State, rounds: seq<seq<nat>>, n: nat, a: nat)
    requires Inv(s) && n == |s.core| && a < n && Schedules(n, rounds) && NoWrap(s, Flat(n, rounds))
    requires Fair(s, rounds) && Waiting(s.core[a]) && |rounds| > WaitBound(n)
    ensures EverInside(s, Flat(n, rounds), a)
  {
    if !EverInside(s, Flat(n, rounds), a) {
      RoundsHelp(s, rounds, a);
      RemainingBound(s, a);
    }
  }

  // ----- the doorway -----

  /** Own steps that core a still needs to leave the doorway. */
  function DoorwayLeft(p: Core, n: nat): nat
    requires CoreInRange(p, n)
  {
    if p.Scan? then n + 2 - p.i else if p.Clear? then 1 else 0
  }

  predicate Entering(p: Core) { Choosing(p) || Waiting(p) }

  lemma {:induction false} DoorwayTurns(s: State, sched: seq<nat>, a: nat)
    requires WellFormed(s) && Schedule(|s.core|, sched) && a < |s.core|
    requires Entering(s.core[a]) && !EverInside(s, sched, a)
    ensures var n, p := |s.core|, Run(s, sched).core[a];
      && Entering(p) && DoorwayLeft(p, n) <= DoorwayLeft(s.core[a], n)
      && (a in sched && Choosing(s.core[a]) ==> DoorwayLeft(p, n) < DoorwayLeft(s.core[a], n))
  {
    EverInsideGrows(s, sched, a);
    if sched != [] {
      var before, c := sched[..|sched| - 1], sched[|sched| - 1];
      DoorwayTurns(s, before, a);
      assert sched == before + [c];
    }
  }

  lemma {:induction false} DoorwayRounds(s: State, rounds: seq<seq<nat>>, a: nat)
    requires WellFormed(s) && a < |s.core| && Schedules(|s.core|, rounds)
    requires Fair(s, rounds) && Entering(s.core[a]) && !EverInside(s, Flat(|s.core|, rounds), a)
    ensures var n, p := |s.core|, Run(s, Flat(|s.core|, rounds)).core[a];
      && Entering(p) && (Choosing(p) ==> DoorwayLeft(p, n) + |rounds| <= DoorwayLeft(s.core[a], n))
  {
    if rounds != [] {
      var n := |s.core|;
      var first, r := Flat(n, rounds[..|rounds| - 1]), rounds[|rounds| - 1];
      EverInsideAppend(s, first, r, a);
      DoorwayRounds(s, rounds[..|rounds| - 1], a);
      RunAppend(s, first, r);
      DoorwayTurns(Run(s, first), r, a);
    }
  }

  lemma {:induction false} FlatAppend(n: nat, first: seq<seq<nat>>, second: seq<seq<nat>>)
    requires Schedules(n, first + second)
    ensures Schedules(n, first) && Schedules(n, second)
    ensures Flat(n, first + second) == Flat(n, first) + Flat(n, second)
  {
    var all := first + second;
    assert forall k :: 0 <= k < |first| ==> first[k] == all[k];
    assert forall k :: 0 <= k < |second| ==> second[k] == all[|first| + k];
    if second == [] {
      assert all == first;
    } else {
      var init, r := second[..|second| - 1], second[|second| - 1];
      assert all[..|all| - 1] == first + init;
      FlatAppend(n, first, init);
      assert Flat(n, first) + (Flat(n, init) + r) == Flat(n, first) + Flat(n, init) + r;
    }
  }

  lemma {:induction false} FairParts(s: State, first: seq<seq<nat>>, second: seq<seq<nat>>)
    requires WellFormed(s) && Schedules(|s.core|, first) && Schedules(|s.core|, second)
    requires Schedules(|s.core|, first + second) && Fair(s, first + second)
    ensures Fair(s, first) && Fair(Run(s, Flat(|s.core|, first)), second)
  {
    if second == [] {
      assert first + second == first;
    } else {
      var init := second[..|second| - 1];
      assert (first + second)[..|first + second| - 1] == first + init;
      FairParts(s, first, init);
      FlatAppend(|s.core|, first, init);
      RunAppend(s, Flat(|s.core|, first), Flat(|s.core|, init));
    }
  }

  /** Rounds in which every core has a turn are fair; then idle cores keep calling acquire. */
  lemma {:induction false} EveryCoreIsFair(s: State, rounds: seq<seq<nat>>)
    requires WellFormed(s) && Schedules(|s.core|, rounds)
    requires forall k, c :: 0 <= k < |rounds| && 0 <= c < |s.core| ==> c in rounds[k]
    ensures Fair(s, rounds)
  {
    if rounds != [] {
      EveryCoreIsFair(s, rounds[..|rounds| - 1]);
    }
  }

  /** Rounds that suffice from the call to acquire on. */
  function EnterBound(n: nat): nat { n + 2 + WaitBound(n) }

  lemma InsideInFirst(s: State, first: seq<nat>, second: seq<nat>, a: nat)
    requires WellFormed(s) && Schedule(|s.core|, first) && Schedule(|s.core|, second) && a < |s.core|
    requires EverInside(s, first, a)
    ensures EverInside(s, first + second, a)
  {
    if !EverInside(s, first + second, a) {
      EverInsideAppend(s, first, second, a);
    }
  }

  lemma InsideInSecond(s: State, first: seq<nat>, second: seq<nat>, a: nat)
    requires WellFormed(s) && Schedule(|s.core|, first) && Schedule(|s.core|, second) && a < |s.core|
    requires EverInside(Run(s, first), second, a)
    ensures EverInside(s, first + second, a)
  {
    if !EverInside(s, first + second, a) {
      EverInsideAppend(s, first, second, a);
    }
  }

  /** Enough rounds to leave the doorway. */
  lemma DoorwayDone(s: State, door: seq<seq<nat>>, n: nat, a: nat)
    requires WellFormed(s) && n == |s.core| && a < n && Schedules(n, door)
    requires Fair(s, door) && Entering(s.core[a]) && !EverInside(s, Flat(n, door), a) && |door| == n + 2
    ensures Waiting(Run(s, Flat(n, door)).core[a])
  {
    DoorwayRounds(s, door, a);
  }

  lemma GetsInLater(s: State, first: seq<nat>, rest: seq<seq<nat>>, n: nat, a: nat)
    requires Inv(s) && n == |s.core| && a < n && Schedule(n, first) && Schedules(n, rest)
    requires NoWrap(s, first) && NoWrap(Run(s, first), Flat(n, rest))
    requires Waiting(Run(s, first).core[a]) && Fair(Run(s, first), rest) && |rest| > WaitBound(n)
    ensures EverInside(s, first + Flat(n, rest), a)
  {
    RunKeepsInv(s, first);
    WaiterGetsIn(Run(s, first), rest, n, a);
    InsideInSecond(s, first, Flat(n, rest), a);
  }

  lemma DoorThenWait(s: State, door: seq<seq<nat>>, rest: seq<seq<nat>>, n: nat, a: nat)
    requires Inv(s) && n == |s.core| && a < n && Schedules(n, door) && Schedules(n, rest) && Entering(s.core[a])
    requires NoWrap(s, Flat(n, door)) && NoWrap(Run(s, Flat(n, door)), Flat(n, rest))
    requires Fair(s, door) && Fair(Run(s, Flat(n, door)), rest) && |door| == n + 2 && |rest| > WaitBound(n)
    ensures EverInside(s, Flat(n, door) + Flat(n, rest), a)
  {
    if EverInside(s, Flat(n, door), a) {
      InsideInFirst(s, Flat(n, door), Flat(n, rest), a);
    } else {
      DoorwayDone(s, door, n, a);
      GetsInLater(s, Flat(n, door), rest, n, a);
    }
  }

  lemma EnteringGetsIn(s: State, rounds: seq<seq<nat>>, a: nat)
    requires Inv(s) && a < |s.core| && Schedules(|s.core|, rounds) && NoWrap(s, Flat(|s.core|, rounds))
    requires Fair(s, rounds) && Entering(s.core[a]) && |rounds| > EnterBound(|s.core|)
    ensures EverInside(s, Flat(|s.core|, rounds), a)
  {
    var n := |s.core|;
    var door, rest := rounds[..n + 2], rounds[n + 2..];
    assert rounds == door + rest;
    FlatAppend(n, door, rest);
    NoWrapAppend(s, Flat(n, door), Flat(n, rest));
    FairParts(s, door, rest);
    DoorThenWait(s, door, rest, n, a);
  }

  lemma InsideNow(s: State, sched: seq<nat>, a: nat)
    requires WellFormed(s) && Schedule(|s.core|, sched) && a < |s.core| && s.core[a].Inside?
    ensures EverInside(s, sched, a)
  {
    assert sched[..0] == [];
    assert Run(s, sched[..0]).core[a].Inside?;
  }

  lemma CallerGetsIn(s: State, rounds: seq<seq<nat>>, a: nat)
    requires Inv(s) && a < |s.core| && Schedules(|s.core|, rounds) && NoWrap(s, Flat(|s.core|, rounds))
    requires Fair(s, rounds) && !s.core[a].Idle? && |rounds| > EnterBound(|s.core|)
    ensures EverInside(s, Flat(|s.core|, rounds), a)
  {
    if s.core[a].Inside? {
      InsideNow(s, Flat(|s.core|, rounds), a);
    } else {
      EnteringGetsIn(s, rounds, a);
    }
  }

  // ----- room for tickets -----

  /** Tickets, and the largest ticket a scan has seen, are at most m. */
  predicate Below(s: State, m: nat)
    requires WellFormed(s)
  {
    forall b :: 0 <= b < |s.core| ==> s.ticket[b] <= m && (s.core[b].Scan? ==> s.core[b].max <= m)
  }

  /** How many tickets b can still draw while a waits. */
  function Draws(s: State, a: nat, b: nat): nat
    requires WellFormed(s) && a < |s.core| && b < |s.core|
  {
    var p := s.core[b];
    if Behind(s, a, b) then (if p.Idle? || p.Scan? then 1 else 0) else if p.Scan? then 2 else 1
  }

  predicate DrawsTicket(s: State, c: nat)
    requires WellFormed(s) && c < |s.core|
  {
    s.core[c].Scan? && s.core[c].i == |s.core|
  }

  lemma DrawsStep(s: State, a: nat, b: nat, c: nat)
    requires Inv(s) && a < |s.core| && b < |s.core| && c < |s.core| && !Wraps(s, c) && a != b
    requires Waiting(s.core[a]) && Waiting(Step(s, c).core[a])
    ensures Draws(Step(s, c), a, b) <= Draws(s, a, b)
    ensures c == b && DrawsTicket(s, c) ==> Draws(Step(s, c), a, b) < Draws(s, a, b)
  {
    if Behind(s, a, b) {
      StepKeepsBehind(s, a, b, c);
    }
  }

  function SumDraws(s: State, a: nat, m: nat): (d: nat)
    requires WellFormed(s) && a < |s.core| && m <= |s.core|
    ensures d <= 2 * m
  {
    if m == 0 then 0 else SumDraws(s, a, m - 1) + if m - 1 == a then 0 else Draws(s, a, m - 1)
  }

  lemma {:induction false} SumDrawsStep(s: State, a: nat, c: nat, m: nat)
    requires Inv(s) && a < |s.core| && c < |s.core| && !Wraps(s, c) && m <= |s.core|
    requires Waiting(s.core[a]) && Waiting(Step(s, c).core[a])
    ensures SumDraws(Step(s, c), a, m) <= SumDraws(s, a, m)
    ensures c < m && DrawsTicket(s, c) ==> SumDraws(Step(s, c), a, m) < SumDraws(s, a, m)
  {
    if m > 0 {
      SumDrawsStep(s, a, c, m - 1);
      if m - 1 != a {
        DrawsStep(s, a, m - 1, c);
      }
    }
  }

  lemma {:induction false} SumDrawsCounts(s: State, a: nat, b: nat, m: nat)
    requires WellFormed(s) && a < |s.core| && m <= |s.core| && b < m && b != a
    ensures SumDraws(s, a, m) >= Draws(s, a, b)
  {
    if b < m - 1 {
      SumDrawsCounts(s, a, b, m - 1);
    }
  }

  /** While a waits, the highest ticket and the draws still possible do not grow together, and so nothing wraps. */
  lemma RoomStep(s: State, a: nat, c: nat, m: nat) returns (m2: nat)
    requires Inv(s) && a < |s.core| && c < |s.core| && Waiting(s.core[a]) && Waiting(Step(s, c).core[a])
    requires Below(s, m) && m + SumDraws(s, a, |s.core|) < TICKET_MODULUS
    ensures !Wraps(s, c) && Below(Step(s, c), m2)
    ensures m2 + SumDraws(Step(s, c), a, |s.core|) <= m + SumDraws(s, a, |s.core|)
  {
    m2 := if DrawsTicket(s, c) then m + 1 else m;
    if DrawsTicket(s, c) {
      SumDrawsCounts(s, a, c, |s.core|);
    }
    SumDrawsStep(s, a, c, |s.core|);
  }

  lemma {:induction false} RoomRun(s: State, sched: seq<nat>, a: nat, m: nat) returns (m2: nat)
    requires Inv(s) && Schedule(|s.core|, sched) && a < |s.core| && Waiting(s.core[a])
    requires Below(s, m) && m + SumDraws(s, a, |s.core|) < TICKET_MODULUS && !EverInside(s, sched, a)
    ensures NoWrap(s, sched) && Below(Run(s, sched), m2)
    ensures m2 + SumDraws(Run(s, sched), a, |s.core|) <= m + SumDraws(s, a, |s.core|)
  {
    m2 := m;
    if sched != [] {
      var before, c := sched[..|sched| - 1], sched[|sched| - 1];
      EverInsideGrows(s, sched, a);
      m2 := RoomRun(s, before, a, m);
      RunKeepsInv(s, before);
      StaysWaiting(s, before, a);
      StaysWaiting(s, sched, a);
      m2 := RoomStep(Run(s, before), a, c, m2);
    }
  }

  /**
    With room for two more tickets per core, a waiting core gets in on every fair schedule: while it
    waits no ticket can wrap.
   */
  lemma WaiterWithRoomGetsIn(s: State, rounds: seq<seq<nat>>, n: nat, a: nat, m: nat)
    requires Inv(s) && n == |s.core| && a < n && Waiting(s.core[a]) && Below(s, m) && m + 2 * n < TICKET_MODULUS
    requires Schedules(n, rounds) && Fair(s, rounds) && |rounds| > WaitBound(n)
    ensures EverInside(s, Flat(n, rounds), a)
  {
    if !EverInside(s, Flat(n, rounds), a) {
      var _ := RoomRun(s, Flat(n, rounds), a, m);
      WaiterGetsIn(s, rounds, n, a);
    }
  }

  // ----- reachable states -----

  /** A state that a run without a wrap leads to. */
  ghost predicate Reachable(n: nat, s: State) {
    && WellFormed(s) && |s.core| == n
    && exists sched :: Schedule(n, sched) && NoWrap(Init(n), sched) && Run(Init(n), sched) == s
  }

  lemma ReachableInv(n: nat, s: State)
    requires Reachable(n, s)
    ensures Inv(s)
  {
    var sched :| Schedule(n, sched) && NoWrap(Init(n), sched) && Run(Init(n), sched) == s;
    RunKeepsInv(Init(n), sched);
  }

  /**
    No starvation: in every run without a wrap, a core that has called acquire has been inside after
    EnterBound(n) + 1 fair rounds, whatever the order of the turns and whoever else uses the lock.
   */
  lemma NoStarvation(n: nat, s: State, rounds: seq<seq<nat>>, a: nat)
    requires Reachable(n, s) && a < n
    requires Schedules(n, rounds) && Fair(s, rounds) && NoWrap(s, Flat(n, rounds)) && |rounds| > EnterBound(n)
    requires !s.core[a].Idle?
    ensures EverInside(s, Flat(n, rounds), a)
  {
    ReachableInv(n, s);
    CallerGetsIn(s, rounds, a);
  }
}
