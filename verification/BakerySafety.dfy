/** Mutual exclusion of the bakery lock in every run whose tickets do not wrap. */
module BakerySafety {
  import opened Bakery

  /** Core a comes before core b: smaller ticket, equal tickets broken by core index (lines 32-34). */
  predicate Before(s: State, a: nat, b: nat)
    requires WellFormed(s) && a < |s.core| && b < |s.core|
  {
    s.ticket[a] < s.ticket[b] || (s.ticket[a] == s.ticket[b] && a < b)
  }

  /** If b is choosing, the ticket it will take is above a's. */
  predicate Sees(s: State, a: nat, b: nat)
    requires WellFormed(s) && a < |s.core| && b < |s.core|
  {
    s.core[b].Scan? ==> s.core[b].i <= a || s.core[b].max >= s.ticket[a]
  }

  predicate AtLeast(s: State, a: nat, b: nat)
    requires WellFormed(s) && a < |s.core| && b < |s.core|
  {
    Sees(s, a, b) && (s.ticket[b] != 0 ==> s.ticket[a] <= s.ticket[b])
  }

  /** b can no longer get in before a. */
  predicate Passed(s: State, a: nat, b: nat)
    requires WellFormed(s) && a < |s.core| && b < |s.core|
  {
    Sees(s, a, b) && (s.ticket[b] != 0 ==> Before(s, a, b))
  }

  /** What a's program point tells about b. */
  predicate Pair(s: State, a: nat, b: nat)
    requires WellFormed(s) && a < |s.core| && b < |s.core|
  {
    var p := s.core[a];
    && (p.Inside? || (Waiting(p) && b < p.i) ==> Passed(s, a, b))
    && (Waiting(p) && !p.Look? && p.i == b ==> Sees(s, a, b))
    && (p.LessRight? && p.i == b && p.x >= s.ticket[a] ==> AtLeast(s, a, b))
    && (p.EqualLeft? && p.i == b ==> AtLeast(s, a, b))
    && (p.EqualRight? && p.i == b ==> AtLeast(s, a, b) && (p.x != s.ticket[a] ==> Passed(s, a, b)))
  }

  /** The flags and the ticket of a core agree with its program point. */
  predicate Local(s: State, a: nat)
    requires WellFormed(s) && a < |s.core|
  {
    && s.protect[a] == Choosing(s.core[a])
    && (s.ticket[a] == 0 <==> s.core[a].Idle? || s.core[a].Scan?)
  }

  ghost predicate Inv(s: State) {
    && WellFormed(s)
    && (forall a :: 0 <= a < |s.core| ==> Local(s, a))
    && (forall a, b :: 0 <= a < |s.core| && 0 <= b < |s.core| && a != b ==> Pair(s, a, b))
  }

  lemma OwnStepKeepsPair(s: State, a: nat, b: nat)
    requires Inv(s) && a < |s.core| && b < |s.core| && a != b && !Wraps(s, a)
    ensures Pair(Step(s, a), a, b)
  {
    assert Local(s, a) && Local(s, b) && Pair(s, a, b);
  }

  lemma OtherStepKeepsPair(s: State, a: nat, b: nat)
    requires Inv(s) && a < |s.core| && b < |s.core| && a != b && !Wraps(s, b)
    ensures Pair(Step(s, b), a, b)
  {
    assert Local(s, a) && Local(s, b) && Pair(s, a, b);
  }

  lemma StepKeepsInv(s: State, c: nat)
    requires Inv(s) && c < |s.core| && !Wraps(s, c)
    ensures Inv(Step(s, c))
  {
    var t := Step(s, c);
    forall a | 0 <= a < |t.core|
      ensures Local(t, a)
    {
      assert Local(s, a);
    }
    forall a, b | 0 <= a < |t.core| && 0 <= b < |t.core| && a != b
      ensures Pair(t, a, b)
    {
      if a == c {
        OwnStepKeepsPair(s, a, b);
      } else if b == c {
        OtherStepKeepsPair(s, a, b);
      } else {
        assert Pair(s, a, b);
      }
    }
  }

  lemma {:induction false} RunKeepsInv(s: State, sched: seq<nat>)
    requires Inv(s) && Schedule(|s.core|, sched) && NoWrap(s, sched)
    ensures Inv(Run(s, sched))
  {
    if sched != [] {
      RunKeepsInv(s, sched[..|sched| - 1]);
      StepKeepsInv(Run(s, sched[..|sched| - 1]), sched[|sched| - 1]);
    }
  }

  lemma InsideShutsOut(s: State, a: nat, b: nat)
    requires Inv(s) && a < |s.core| && b < |s.core| && a != b && s.core[a].Inside?
    ensures !s.core[b].Inside?
  {
    assert Local(s, a) && Local(s, b) && Pair(s, a, b) && Pair(s, b, a);
  }

  /** At most one core is inside, for every number of cores and every interleaving without a wrap. */
  lemma MutualExclusion(n: nat, sched: seq<nat>)
    requires Schedule(n, sched) && NoWrap(Init(n), sched)
    ensures Exclusive(Run(Init(n), sched))
  {
    RunKeepsInv(Init(n), sched);
    var s := Run(Init(n), sched);
    forall a, b | 0 <= a < n && 0 <= b < n && s.core[a].Inside? && a != b
      ensures !s.core[b].Inside?
    {
      InsideShutsOut(s, a, b);
    }
  }
}
