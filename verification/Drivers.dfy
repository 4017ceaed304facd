/**
  The driver table of src/driver/driver.c on one core. A device's setup and exit routines are given
  by the status they return and do not touch the table; the calls made are returned as a trace of
  table indices.
 */
module Drivers {

  type Code = bv32
  const SUCCESS: Code := 0
  const ERROR_DRIVER: Code := 0x100
  const ERROR_DRIVER_INIT_DONE: Code := 0x101

  /** `sorder` is an 8-bit field. */
  datatype Device = Device(sorder: nat, percpu: bool, setup: Code, exit: Code)

  predicate ValidTable(d: seq<Device>) {
    forall i :: 0 <= i < |d| ==> d[i].sorder < 256
  }

  /** Ascending or descending rank; entries of one rank are in table order in both cases. */
  predicate Precedes(d: seq<Device>, i: nat, j: nat, descending: bool)
    requires i < |d| && j < |d|
  {
    || (if descending then d[i].sorder > d[j].sorder else d[i].sorder < d[j].sorder)
    || (d[i].sorder == d[j].sorder && i < j)
  }

  predicate Indices(d: seq<Device>, t: seq<nat>) { forall k :: 0 <= k < |t| ==> t[k] < |d| }

  ghost predicate TraceSorted(d: seq<Device>, t: seq<nat>, descending: bool) {
    Indices(d, t) && forall a, b :: 0 <= a < b < |t| ==> Precedes(d, t[a], t[b], descending)
  }

  // ----- the "or" of several statuses -----

  predicate Clear(x: Code, mask: Code) { x & mask == 0 }

  /** Each bit of `ret` is set exactly when it is set in the status of one of the picked entries. */
  ghost predicate OrOver(ret: Code, status: seq<Code>, picked: set<nat>) {
    forall mask :: Clear(ret, mask) <==> ClearIn(status, picked, mask)
  }

  ghost predicate ClearIn(status: seq<Code>, picked: set<nat>, mask: Code) {
    forall i :: i in picked && i < |status| ==> Clear(status[i], mask)
  }

  lemma ClearOr(x: Code, y: Code, mask: Code)
    ensures Clear(x | y, mask) <==> Clear(x, mask) && Clear(y, mask)
  {
    assert (x | y) & mask == (x & mask) | (y & mask);
  }

  lemma OrNone(status: seq<Code>)
    ensures OrOver(0, status, {})
  {
  }

  lemma OrJoin(x: Code, p: set<nat>, y: Code, q: set<nat>, status: seq<Code>)
    requires OrOver(x, status, p) && OrOver(y, status, q)
    ensures OrOver(x | y, status, p + q)
  {
    forall mask
      ensures Clear(x | y, mask) <==> ClearIn(status, p + q, mask)
    {
      ClearOr(x, y, mask);
      assert ClearIn(status, p + q, mask) <==> ClearIn(status, p, mask) && ClearIn(status, q, mask);
    }
  }

  lemma OrAdd(x: Code, p: set<nat>, i: nat, status: seq<Code>)
    requires OrOver(x, status, p) && i < |status|
    ensures OrOver(x | status[i], status, p + {i})
  {
    assert OrOver(status[i], status, {i});
    OrJoin(x, p, status[i], {i}, status);
  }

  lemma OrSame(x: Code, s: seq<Code>, t: seq<Code>, p: set<nat>)
    requires OrOver(x, s, p) && |s| == |t| && forall i :: i in p && i < |s| ==> s[i] == t[i]
    ensures OrOver(x, t, p)
  {
    forall mask
      ensures ClearIn(s, p, mask) <==> ClearIn(t, p, mask)
    {
    }
  }

  predicate Success(status: seq<Code>, i: nat)
    requires i < |status|
  {
    status[i] == SUCCESS
  }

  /** The "or" is 0 exactly when every picked status is. */
  lemma OrSuccess(x: Code, status: seq<Code>, p: set<nat>)
    requires OrOver(x, status, p)
    ensures x == SUCCESS <==> forall i :: i in p && i < |status| ==> Success(status, i)
  {
    assert Clear(x, 0xFFFF_FFFF) <==> ClearIn(status, p, 0xFFFF_FFFF);
    assert Clear(x, 0xFFFF_FFFF) <==> x == 0;
    forall i | i in p && i < |status|
      ensures Clear(status[i], 0xFFFF_FFFF) <==> status[i] == 0
    {
    }
  }

  /** Only one value collects given statuses. */
  lemma OrUnique(x: Code, y: Code, status: seq<Code>, p: set<nat>)
    requires OrOver(x, status, p) && OrOver(y, status, p)
    ensures x == y
  {
    assert Clear(x, !x) && Clear(y, !y);
    assert Clear(y, !x) && Clear(x, !y);
  }

  /** The entries of a table, those of one rank, and those of lower or higher ranks. */
  ghost function Entries(d: seq<Device>): (s: set<nat>)
    requires ValidTable(d)
    ensures forall i: nat :: i in s <==> i < |d|
  {
    RanksBelow(d, 256)
  }
  ghost function OfRank(d: seq<Device>, order: nat): set<nat> { UpTo(d, order, |d|) }
  ghost function RanksBelow(d: seq<Device>, order: nat): set<nat> {
    set i: nat | i < |d| && d[i].sorder < order
  }
  ghost function RanksAbove(d: seq<Device>, order: int): set<nat> {
    set i: nat | i < |d| && d[i].sorder > order
  }
  ghost function UpTo(d: seq<Device>, order: nat, n: nat): set<nat> {
    set i: nat | i < |d| && i < n && d[i].sorder == order
  }

  lemma RanksNext(d: seq<Device>, order: nat)
    ensures RanksBelow(d, order + 1) == RanksBelow(d, order) + OfRank(d, order)
    ensures RanksAbove(d, order as int - 1) == RanksAbove(d, order) + OfRank(d, order)
  {
  }

  /** One more entry of the rank that is being visited. */
  lemma SortedSnoc(d: seq<Device>, t: seq<nat>, i: nat, order: nat, descending: bool)
    requires TraceSorted(d, t, descending) && i < |d| && d[i].sorder == order
    requires forall j: nat :: j in t ==> j < i && d[j].sorder == order
    ensures TraceSorted(d, t + [i], descending)
  {
    assert forall k :: 0 <= k < |t| ==> t[k] in t;
  }

  lemma SortedNone(d: seq<Device>, descending: bool)
    ensures TraceSorted(d, [], descending)
  {
  }

  lemma RanksAll(d: seq<Device>)
    requires ValidTable(d)
    ensures RanksBelow(d, 256) == RanksAbove(d, -1) == Entries(d)
  {
  }

  lemma RankIsAll(d: seq<Device>, order: nat)
    ensures OfRank(d, order) == UpTo(d, order, |d|)
  {
  }

  lemma RankMembers(d: seq<Device>, order: nat)
    ensures forall i: nat :: i in OfRank(d, order) <==> i < |d| && d[i].sorder == order
  {
  }

  lemma AddEntry(d: seq<Device>, order: nat, i: nat, ret: Code, r: Code, status: seq<Code>)
    requires i < |d| && |status| == |d| && OrOver(ret, status, UpTo(d, order, i))
    requires r == status[i] && d[i].sorder == order
    ensures OrOver(ret | r, status, UpTo(d, order, i + 1))
  {
    OrAdd(ret, UpTo(d, order, i), i, status);
    assert UpTo(d, order, i + 1) == UpTo(d, order, i) + {i};
  }

  lemma SkipEntry(d: seq<Device>, order: nat, i: nat)
    requires i < |d| && d[i].sorder != order
    ensures UpTo(d, order, i + 1) == UpTo(d, order, i)
  {
  }

  lemma NoEntry(d: seq<Device>, order: nat, status: seq<Code>)
    ensures OrOver(0, status, UpTo(d, order, 0))
  {
    OrNone(status);
    assert UpTo(d, order, 0) == {};
  }

  class Table {
    const devices: seq<Device>
    const exec: array<bool>

    ghost predicate Valid() {
      ValidTable(devices) && exec.Length == |devices|
    }

    constructor (devices: seq<Device>)
      requires ValidTable(devices)
      ensures Valid() && this.devices == devices && fresh(exec)
      ensures forall i :: 0 <= i < |devices| ==> !exec[i]
    {
      this.devices := devices;
      exec := new bool[|devices|](_ => false);
    }

    /** The entry's setup routine is called: it is per-cpu or has not been executed. */
    predicate Startable(i: nat)
      requires Valid() && i < |devices|
      reads exec
    {
      devices[i].percpu || !exec[i]
    }

    predicate Stoppable(i: nat)
      requires Valid() && i < |devices|
      reads exec
    {
      devices[i].percpu || exec[i]
    }

    /** The status each entry gives when everything is set up, and when everything is stopped. */
    ghost function SetupStatus(): (s: seq<Code>)
      requires Valid()
      reads exec
      ensures |s| == |devices|
      ensures forall i :: 0 <= i < |s| ==> s[i] == if Startable(i) then devices[i].setup else ERROR_DRIVER_INIT_DONE
    {
      seq(|devices|, i requires 0 <= i < |devices| reads exec =>
        if Startable(i) then devices[i].setup else ERROR_DRIVER_INIT_DONE)
    }

    ghost function ExitStatus(): (s: seq<Code>)
      requires Valid()
      reads exec
      ensures |s| == |devices|
      ensures forall i :: 0 <= i < |s| ==> s[i] == if Stoppable(i) then devices[i].exit else ERROR_DRIVER
    {
      seq(|devices|, i requires 0 <= i < |devices| reads exec =>
        if Stoppable(i) then devices[i].exit else ERROR_DRIVER)
    }

    lemma StatusSuccess(i: nat)
      requires Valid() && i < |devices|
      ensures Success(SetupStatus(), i) <==> Startable(i) && devices[i].setup == SUCCESS
      ensures Success(ExitStatus(), i) <==> Stoppable(i) && devices[i].exit == SUCCESS
    {
    }

    /** driver_register: the flag is set before the setup routine runs and stays set if it fails. */
    method Register(i: nat) returns (ret: Code, called: bool)
      requires Valid() && i < |devices|
      modifies exec
      ensures called == old(Startable(i)) == (devices[i].percpu || !old(exec[i]))
      ensures ret == if called then devices[i].setup else ERROR_DRIVER_INIT_DONE
      ensures exec[i] == (old(exec[i]) || !devices[i].percpu)
      ensures forall j :: 0 <= j < |devices| && j != i ==> exec[j] == old(exec[j])
    {
      if !devices[i].percpu {
        if exec[i] {
          return ERROR_DRIVER_INIT_DONE, false;
        }
        exec[i] := true;
      }
      return devices[i].setup, true;
    }

    /** driver_deregister */
    method Deregister(i: nat) returns (ret: Code, called: bool)
      requires Valid() && i < |devices|
      modifies exec
      ensures called == old(Stoppable(i)) == (devices[i].percpu || old(exec[i]))
      ensures ret == if called then devices[i].exit else ERROR_DRIVER
      ensures exec[i] == (old(exec[i]) && devices[i].percpu)
      ensures forall j :: 0 <= j < |devices| && j != i ==> exec[j] == old(exec[j])
    {
      if !devices[i].percpu {
        if !exec[i] {
          return ERROR_DRIVER, false;
        }
        exec[i] := false;
      }
      return devices[i].exit, true;
    }

    /** driver_register_with_order */
    method RegisterWithOrder(order: nat) returns (ret: Code, trace: seq<nat>)
      requires Valid()
      modifies exec
      ensures TraceSorted(devices, trace, false)
      ensures forall i: nat :: i in trace <==> i < |devices| && devices[i].sorder == order && old(Startable(i))
      ensures forall i :: 0 <= i < |devices| ==>
                exec[i] == (old(exec[i]) || (devices[i].sorder == order && !devices[i].percpu))
      ensures ret == SUCCESS <==>
                forall i :: 0 <= i < |devices| && devices[i].sorder == order ==>
                  old(Startable(i)) && devices[i].setup == SUCCESS
      ensures OrOver(ret, old(SetupStatus()), OfRank(devices, order))
    {
      ghost var status := SetupStatus();
      forall i: nat | i < |devices|
        ensures Success(status, i) <==> Startable(i) && devices[i].setup == SUCCESS
      {
        StatusSuccess(i);
      }
      ret, trace := RegisterLoop(order);
      RankMembers(devices, order);
      OrSuccess(ret, status, OfRank(devices, order));
    }

    method RegisterLoop(order: nat) returns (ret: Code, trace: seq<nat>)
      requires Valid()
      modifies exec
      ensures TraceSorted(devices, trace, false)
      ensures forall i: nat :: i in trace <==> i < |devices| && devices[i].sorder == order && old(Startable(i))
      ensures forall i :: 0 <= i < |devices| ==>
                exec[i] == (old(exec[i]) || (devices[i].sorder == order && !devices[i].percpu))
      ensures OrOver(ret, old(SetupStatus()), OfRank(devices, order))
    {
      hide OrOver, UpTo, OfRank, SetupStatus, ExitStatus, Success;
      ret, trace := SUCCESS, [];
      ghost var status := SetupStatus();
      SortedNone(devices, false);
      NoEntry(devices, order, status);
      for i := 0 to |devices|
        invariant TraceSorted(devices, trace, false)
        invariant forall j: nat :: j in trace <==> j < i && devices[j].sorder == order && old(Startable(j))
        invariant forall j :: 0 <= j < |devices| ==>
                    exec[j] == (old(exec[j]) || (j < i && devices[j].sorder == order && !devices[j].percpu))
        invariant OrOver(ret, status, UpTo(devices, order, i))
      {
        if order == devices[i].sorder {
          var r, called := Register(i);
          assert r == status[i];
          AddEntry(devices, order, i, ret, r, status);
          ret := ret | r;
          if called {
            SortedSnoc(devices, trace, i, order, false);
            trace := trace + [i];
          }
        } else {
          SkipEntry(devices, order, i);
        }
      }
      RankIsAll(devices, order);
    }

    /**
      driver_setup_all: the trace is the stable sort by rank of exactly the startable entries, and
      success is reported exactly when no entry had been executed before and every setup succeeded.
     */
    method SetupAll() returns (ret: Code, trace: seq<nat>)
      requires Valid()
      modifies exec
      ensures TraceSorted(devices, trace, false)
      ensures forall i: nat :: i in trace <==> i < |devices| && old(Startable(i))
      ensures forall i :: 0 <= i < |devices| ==> exec[i] == (old(exec[i]) || !devices[i].percpu)
      ensures ret == SUCCESS <==>
                forall i :: 0 <= i < |devices| ==> old(Startable(i)) && devices[i].setup == SUCCESS
      ensures OrOver(ret, old(SetupStatus()), Entries(devices))
    {
      hide OrOver, OfRank, SetupStatus, ExitStatus, Entries, Success;
      ret, trace := SUCCESS, [];
      ghost var status := SetupStatus();
      forall i: nat | i < |devices|
        ensures Success(status, i) <==> Startable(i) && devices[i].setup == SUCCESS
      {
        StatusSuccess(i);
      }
      OrNone(status);
      assert RanksBelow(devices, 0) == {};
      for order := 0 to 256
        invariant TraceSorted(devices, trace, false)
        invariant forall j: nat :: j in trace <==> j < |devices| && devices[j].sorder < order && old(Startable(j))
        invariant forall j :: 0 <= j < |devices| ==>
                    exec[j] == (old(exec[j]) || (devices[j].sorder < order && !devices[j].percpu))
        invariant OrOver(ret, status, RanksBelow(devices, order))
      {
        ghost var now := SetupStatus();
        var r, t := RegisterWithOrder(order);
        RankMembers(devices, order);
        OrSame(r, now, status, OfRank(devices, order));
        OrJoin(ret, RanksBelow(devices, order), r, OfRank(devices, order), status);
        RanksNext(devices, order);
        ret := ret | r;
        trace := trace + t;
      }
      assert RanksBelow(devices, 256) == Entries(devices) by { RanksAll(devices); }
      OrSuccess(ret, status, Entries(devices));
    }

    method DeregisterWithOrder(order: nat) returns (ret: Code, trace: seq<nat>)
      requires Valid()
      modifies exec
      ensures TraceSorted(devices, trace, true)
      ensures forall i: nat :: i in trace <==> i < |devices| && devices[i].sorder == order && old(Stoppable(i))
      ensures forall i :: 0 <= i < |devices| ==>
                exec[i] == (old(exec[i]) && (devices[i].sorder != order || devices[i].percpu))
      ensures ret == SUCCESS <==>
                forall i :: 0 <= i < |devices| && devices[i].sorder == order ==>
                  old(Stoppable(i)) && devices[i].exit == SUCCESS
      ensures OrOver(ret, old(ExitStatus()), OfRank(devices, order))
    {
      ghost var status := ExitStatus();
      forall i: nat | i < |devices|
        ensures Success(status, i) <==> Stoppable(i) && devices[i].exit == SUCCESS
      {
        StatusSuccess(i);
      }
      ret, trace := DeregisterLoop(order);
      RankMembers(devices, order);
      OrSuccess(ret, status, OfRank(devices, order));
    }

    method DeregisterLoop(order: nat) returns (ret: Code, trace: seq<nat>)
      requires Valid()
      modifies exec
      ensures TraceSorted(devices, trace, true)
      ensures forall i: nat :: i in trace <==> i < |devices| && devices[i].sorder == order && old(Stoppable(i))
      ensures forall i :: 0 <= i < |devices| ==>
                exec[i] == (old(exec[i]) && (devices[i].sorder != order || devices[i].percpu))
      ensures OrOver(ret, old(ExitStatus()), OfRank(devices, order))
    {
      hide OrOver, UpTo, OfRank, SetupStatus, ExitStatus, Success;
      ret, trace := SUCCESS, [];
      ghost var status := ExitStatus();
      SortedNone(devices, true);
      NoEntry(devices, order, status);
      for i := 0 to |devices|
        invariant TraceSorted(devices, trace, true)
        invariant forall j: nat :: j in trace <==> j < i && devices[j].sorder == order && old(Stoppable(j))
        invariant forall j :: 0 <= j < |devices| ==>
                    exec[j] == (old(exec[j]) && (j >= i || devices[j].sorder != order || devices[j].percpu))
        invariant OrOver(ret, status, UpTo(devices, order, i))
      {
        if order == devices[i].sorder {
          var r, called := Deregister(i);
          assert r == status[i];
          AddEntry(devices, order, i, ret, r, status);
          ret := ret | r;
          if called {
            SortedSnoc(devices, trace, i, order, true);
            trace := trace + [i];
          }
        } else {
          SkipEntry(devices, order, i);
        }
      }
      RankIsAll(devices, order);
    }

    /** driver_exit_all: by descending rank, table order inside a rank, exactly the stoppable entries. */
    method ExitAll() returns (ret: Code, trace: seq<nat>)
      requires Valid()
      modifies exec
      ensures TraceSorted(devices, trace, true)
      ensures forall i: nat :: i in trace <==> i < |devices| && old(Stoppable(i))
      ensures forall i :: 0 <= i < |devices| ==> exec[i] == (old(exec[i]) && devices[i].percpu)
      ensures ret == SUCCESS <==>
                forall i :: 0 <= i < |devices| ==> old(Stoppable(i)) && devices[i].exit == SUCCESS
      ensures OrOver(ret, old(ExitStatus()), Entries(devices))
    {
      hide OrOver, OfRank, SetupStatus, ExitStatus, Entries, Success;
      ret, trace := SUCCESS, [];
      ghost var status := ExitStatus();
      forall i: nat | i < |devices|
        ensures Success(status, i) <==> Stoppable(i) && devices[i].exit == SUCCESS
      {
        StatusSuccess(i);
      }
      OrNone(status);
      var order := 255;
      assert RanksAbove(devices, 255) == {};
      while order >= 0
        invariant -1 <= order <= 255
        invariant TraceSorted(devices, trace, true)
        invariant forall j: nat :: j in trace <==> j < |devices| && devices[j].sorder > order && old(Stoppable(j))
        invariant forall j :: 0 <= j < |devices| ==>
                    exec[j] == (old(exec[j]) && (devices[j].sorder <= order || devices[j].percpu))
        invariant OrOver(ret, status, RanksAbove(devices, order))
        decreases order
      {
        ghost var now := ExitStatus();
        var r, t := DeregisterWithOrder(order);
        RankMembers(devices, order);
        OrSame(r, now, status, OfRank(devices, order));
        OrJoin(ret, RanksAbove(devices, order), r, OfRank(devices, order), status);
        RanksNext(devices, order);
        ret := ret | r;
        trace := trace + t;
        order := order - 1;
      }
      assert RanksAbove(devices, -1) == Entries(devices) by { RanksAll(devices); }
      OrSuccess(ret, status, Entries(devices));
    }

    /** Starting everything twice and stopping: the second start runs the per-cpu entries only, the stop runs all. */
    method StartTwiceThenStop() returns (first: seq<nat>, second: seq<nat>, last: seq<nat>)
      requires Valid() && forall i :: 0 <= i < |devices| ==> !exec[i]
      modifies exec
      ensures TraceSorted(devices, first, false) && (forall i: nat :: i in first <==> i < |devices|)
      ensures TraceSorted(devices, second, false)
      ensures forall i: nat :: i in second <==> i < |devices| && devices[i].percpu
      ensures TraceSorted(devices, last, true) && (forall i: nat :: i in last <==> i < |devices|)
      ensures forall i :: 0 <= i < |devices| ==> !exec[i]
    {
      var ret;
      ret, first := SetupAll();
      ret, second := SetupAll();
      ret, last := ExitAll();
    }
  }

  // ----- the traces are determined by these contracts -----

  /** Two sorted traces of the same entries are the same trace. */
  lemma {:induction false} TraceUnique(d: seq<Device>, s: seq<nat>, t: seq<nat>, descending: bool)
    requires TraceSorted(d, s, descending) && TraceSorted(d, t, descending) && forall i: nat :: i in s <==> i in t
    ensures s == t
  {
    HeadIn(s);
    HeadIn(t);
    if s != [] {
      FirstIsLeast(d, t, s[0], descending);
      FirstIsLeast(d, s, t[0], descending);
      TailEntries(d, s, t, descending);
      TraceUnique(d, s[1..], t[1..], descending);
    }
  }

  lemma HeadIn(s: seq<nat>)
    ensures s != [] ==> s[0] in s
  {
  }

  lemma FirstIsLeast(d: seq<Device>, t: seq<nat>, x: nat, descending: bool)
    requires TraceSorted(d, t, descending) && x in t
    ensures x < |d| && (x == t[0] || Precedes(d, t[0], x, descending))
  {
  }

  lemma TailEntries(d: seq<Device>, s: seq<nat>, t: seq<nat>, descending: bool)
    requires TraceSorted(d, s, descending) && TraceSorted(d, t, descending) && (forall i: nat :: i in s <==> i in t)
    requires s != [] && t != [] && s[0] == t[0]
    ensures forall i: nat :: i in s[1..] <==> i in t[1..]
  {
    TailIs(d, s, descending);
    TailIs(d, t, descending);
  }

  lemma TailIs(d: seq<Device>, s: seq<nat>, descending: bool)
    requires TraceSorted(d, s, descending) && s != []
    ensures forall i: nat :: i in s[1..] <==> i in s && i != s[0]
  {
    forall i | i in s[1..]
      ensures i != s[0]
    {
      var k :| 0 <= k < |s| - 1 && s[1..][k] == i;
      assert Precedes(d, s[0], s[k + 1], descending);
    }
    assert s == [s[0]] + s[1..];
  }
}
