/**
  The bakery lock of src/lib/liblocks/bakerylock.c as a transition system.

  Every access to the shared arrays `thread_count` and `protect` is one step of one core, and a run
  is a schedule: the sequence of cores that take the next step. A core's step is determined by the
  state, so running a schedule is a function; quantifying over schedules quantifies over every
  interleaving under sequential consistency. A core that is never scheduled while `Idle` is a core
  that never calls acquire.
 */
module Bakery {

  /** `thread_count[i]` is a uint8_t: a stored ticket is taken modulo 256. */
  const TICKET_MODULUS: nat := 256

  /** Where a core is in `bakerylock_acquire`, with the locals that are live there. */
  datatype Core =
    | Idle                       // outside; the next step enters acquire and sets protect (line 10)
    | Scan(i: nat, max: nat)     // max scan, about to read thread_count[i]; past the end: about to write the ticket
    | Clear                      // ticket written, about to clear protect (line 23)
    | Look(i: nat)               // about to read protect[i] (line 28)
    | Nonzero(i: nat)            // about to read thread_count[i] for the test of line 31
    | LessLeft(i: nat)           // about to read thread_count[i] on line 32
    | LessRight(i: nat, x: nat)  // x was read; about to read thread_count[tid] on line 32
    | EqualLeft(i: nat)          // about to read thread_count[i] on line 33
    | EqualRight(i: nat, x: nat) // x was read; about to read thread_count[tid] on line 33
    | Inside                     // acquire has returned; the next step is release

  datatype State = State(protect: seq<bool>, ticket: seq<nat>, core: seq<Core>)

  predicate Choosing(p: Core) { p.Scan? || p.Clear? }

  /** In the wait loop of lines 26-35. */
  predicate Waiting(p: Core) {
    p.Look? || p.Nonzero? || p.LessLeft? || p.LessRight? || p.EqualLeft? || p.EqualRight?
  }

  predicate CoreInRange(p: Core, n: nat) {
    (p.Scan? ==> p.i <= n) && (Waiting(p) ==> p.i < n)
  }

  predicate WellFormed(s: State) {
    && |s.protect| == |s.core| && |s.ticket| == |s.core|
    && forall c :: 0 <= c < |s.core| ==> CoreInRange(s.core[c], |s.core|)
  }

  /** A statically allocated lock: all flags and tickets are zero. */
  function Init(n: nat): (s: State)
    ensures WellFormed(s) && |s.core| == n
  {
    State(seq(n, _ => false), seq(n, _ => 0), seq(n, _ => Idle))
  }

  function Max(a: nat, b: nat): nat { if a > b then a else b }

  /** The wait loop moves on from core i (line 26). */
  function Advance(i: nat, n: nat): Core {
    if i + 1 < n then Look(i + 1) else Inside
  }

  /** The next program point of core c. */
  function NextCore(s: State, c: nat): Core
    requires WellFormed(s) && c < |s.core|
  {
    var n := |s.core|;
    match s.core[c]
    case Idle => Scan(0, 0)
    case Scan(i, max) => if i < n then Scan(i + 1, Max(s.ticket[i], max)) else Clear
    case Clear => Look(0)
    case Look(i) => if s.protect[i] then Look(i) else Nonzero(i)
    case Nonzero(i) => if s.ticket[i] == 0 then Advance(i, n) else LessLeft(i)
    case LessLeft(i) => LessRight(i, s.ticket[i])
    case LessRight(i, x) => if x < s.ticket[c] then Nonzero(i) else EqualLeft(i)
    case EqualLeft(i) => EqualRight(i, s.ticket[i])
    case EqualRight(i, x) => if x == s.ticket[c] && i < c then Nonzero(i) else Advance(i, n)
    case Inside => Idle
  }

  function NextTicket(s: State, c: nat): nat
    requires WellFormed(s) && c < |s.core|
  {
    match s.core[c]
    case Scan(i, max) => if i < |s.core| then s.ticket[c] else (max + 1) % TICKET_MODULUS
    case Inside => 0
    case _ => s.ticket[c]
  }

  function NextProtect(s: State, c: nat): bool
    requires WellFormed(s) && c < |s.core|
  {
    match s.core[c]
    case Idle => true
    case Clear => false
    case _ => s.protect[c]
  }

  /** One step of core c. */
  function Step(s: State, c: nat): (t: State)
    requires WellFormed(s) && c < |s.core|
    ensures WellFormed(t) && |t.core| == |s.core|
  {
    State(s.protect[c := NextProtect(s, c)], s.ticket[c := NextTicket(s, c)], s.core[c := NextCore(s, c)])
  }

  predicate Schedule(n: nat, sched: seq<nat>) {
    forall k :: 0 <= k < |sched| ==> sched[k] < n
  }

  function Run(s: State, sched: seq<nat>): (t: State)
    requires WellFormed(s) && Schedule(|s.core|, sched)
    ensures WellFormed(t) && |t.core| == |s.core|
  {
    if sched == [] then s
    else Step(Run(s, sched[..|sched| - 1]), sched[|sched| - 1])
  }

  /** Core c is about to write a ticket that does not fit in its byte. */
  predicate Wraps(s: State, c: nat)
    requires WellFormed(s) && c < |s.core|
  {
    s.core[c].Scan? && s.core[c].i == |s.core| && s.core[c].max + 1 >= TICKET_MODULUS
  }

  /** No ticket written during the run wraps. */
  predicate NoWrap(s: State, sched: seq<nat>)
    requires WellFormed(s) && Schedule(|s.core|, sched)
  {
    sched == [] ||
    var before := sched[..|sched| - 1];
    NoWrap(s, before) && !Wraps(Run(s, before), sched[|sched| - 1])
  }

  /** The number of calls to acquire that the run starts. */
  function Calls(s: State, sched: seq<nat>): nat
    requires WellFormed(s) && Schedule(|s.core|, sched)
  {
    if sched == [] then 0
    else
      var before := sched[..|sched| - 1];
      Calls(s, before) + if Run(s, before).core[sched[|sched| - 1]].Idle? then 1 else 0
  }

  /** No two cores are between return from acquire and call to release. */
  predicate Exclusive(s: State) {
    forall a, b :: 0 <= a < |s.core| && 0 <= b < |s.core| && s.core[a].Inside? && s.core[b].Inside? ==> a == b
  }

  lemma {:induction false} RunAppend(s: State, first: seq<nat>, second: seq<nat>)
    requires WellFormed(s) && Schedule(|s.core|, first) && Schedule(|s.core|, second)
    ensures Run(s, first + second) == Run(Run(s, first), second)
    ensures Calls(s, first + second) == Calls(s, first) + Calls(Run(s, first), second)
  {
    if second == [] {
      assert first + second == first;
    } else {
      var init := second[..|second| - 1];
      RunAppend(s, first, init);
      assert (first + second)[..|first + second| - 1] == first + init;
    }
  }
}
