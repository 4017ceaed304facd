/**
  Time arithmetic of src/lib/libposix/src/posix_utils.c at the default tick rate of 1000 Hz. `tv_sec`
  is a 64-bit signed integer, and sums that leave its range wrap.
 */
module Timespec {
  import opened Quotients

  const NANOSECONDS_PER_SECOND: int := 1_000_000_000
  const TICK_RATE_HZ: int := 1000
  const NANOSECONDS_PER_TICK: int := 1_000_000
  const I63: int := 0x8000_0000_0000_0000
  const UINT_MAX: int := 0xFFFF_FFFF

  datatype Time = Time(sec: int, nsec: int)

  /** A pointer argument; only the comparison does more with a null one than refuse it. */
  datatype Ref = Null | Ref(t: Time)

  datatype Status = Ok | Past | Invalid | TimedOut

  /** UTILS_ValidateTimespec */
  predicate Valid(t: Time) { 0 <= t.nsec < NANOSECONDS_PER_SECOND }

  /** Valid, and the seconds are a non-negative time_t. */
  predicate Representable(t: Time) { Valid(t) && 0 <= t.sec < I63 }

  /** The time in nanoseconds. */
  function Total(t: Time): int { t.sec * NANOSECONDS_PER_SECOND + t.nsec }

  function Wrap64(x: int): (r: int)
    ensures -I63 <= r < I63
    ensures -I63 <= x < I63 ==> r == x
  {
    (x + I63) % (2 * I63) - I63
  }

  /** Valid times are determined by their total. */
  lemma TotalInjective(x: Time, y: Time)
    requires Valid(x) && Valid(y)
    ensures Total(x) == Total(y) <==> x == y
    ensures Total(x) < Total(y) <==> x.sec < y.sec || (x.sec == y.sec && x.nsec < y.nsec)
  {
  }

  // ----- compare -----

  /** UTILS_TimespecCompare */
  function Compare(x: Ref, y: Ref): int {
    if x.Null? && y.Null? then 0
    else if y.Null? then 1
    else if x.Null? then -1
    else if x.t.sec > y.t.sec then 1
    else if x.t.sec < y.t.sec then -1
    else if x.t.nsec > y.t.nsec then 1
    else if x.t.nsec < y.t.nsec then -1
    else 0
  }

  /** The order of the totals, for valid times. */
  lemma CompareIsOrder(x: Time, y: Time)
    requires Valid(x) && Valid(y)
    ensures Compare(Ref(x), Ref(y)) == if Total(x) < Total(y) then -1 else if Total(x) > Total(y) then 1 else 0
  {
    TotalInjective(x, y);
    TotalInjective(y, x);
  }

  /** Antisymmetric and transitive on all pointers, null below everything. */
  lemma CompareTotalOrder(x: Ref, y: Ref, z: Ref)
    ensures Compare(x, y) == -Compare(y, x)
    ensures Compare(x, y) == 0 <==> x == y
    ensures Compare(x, y) <= 0 && Compare(y, z) <= 0 ==> Compare(x, z) <= 0
    ensures x.Null? && y.Ref? ==> Compare(x, y) == -1
  {
  }

  // ----- add and subtract -----

  /** UTILS_TimespecAdd: succeeds exactly when the sum is a representable time, and is then exact. */
  method Add(x: Time, y: Time) returns (ok: bool, r: Time)
    ensures x.nsec + y.nsec < 0 ==> !ok
    ensures Representable(x) && Representable(y) ==>
              (ok <==> Total(x) + Total(y) < I63 * NANOSECONDS_PER_SECOND)
    ensures Representable(x) && Representable(y) && ok ==> Representable(r) && Total(r) == Total(x) + Total(y)
  {
    r := Time(0, x.nsec + y.nsec);
    if r.nsec < 0 {
      return false, r;
    }
    var partialSec := r.nsec / NANOSECONDS_PER_SECOND;
    r := r.(nsec := r.nsec % NANOSECONDS_PER_SECOND);
    r := r.(sec := Wrap64(x.sec + y.sec + partialSec));
    ok := !(r.sec < 0);
  }

  /** UTILS_TimespecSubtract: `Past` exactly when x is before y, otherwise the exact difference. */
  method Subtract(x: Time, y: Time) returns (status: Status, r: Time)
    ensures Representable(x) && Representable(y) ==> status == if Total(x) < Total(y) then Past else Ok
    ensures Representable(x) && Representable(y) && status.Ok? ==>
              Representable(r) && Total(r) == Total(x) - Total(y)
  {
    r := Time(0, 0);
    status := Ok;
    if Valid(x) && Valid(y) {
      CompareIsOrder(x, y);
    }
    var comp := Compare(Ref(x), Ref(y));
    if comp == -1 {
      status := Past;
    } else if comp == 0 {
      r := Time(0, 0);
    } else {
      r := Time(Wrap64(x.sec - y.sec), x.nsec - y.nsec);
      if r.nsec < 0 {
        r := Time(r.sec - 1, r.nsec + NANOSECONDS_PER_SECOND);
      }
      if r.nsec < 0 {
        status := Invalid;
      }
    }
  }

  /** Subtracting and adding back gives the original time. */
  method SubtractThenAdd(x: Time, y: Time) returns (ok: bool, r: Time)
    requires Representable(x) && Representable(y)
    ensures ok <==> Total(y) <= Total(x)
    ensures ok ==> r == x
  {
    var status, d := Subtract(x, y);
    if !status.Ok? {
      return false, d;
    }
    ok, r := Add(d, y);
    if ok {
      TotalInjective(r, x);
    }
  }

  // ----- ticks -----

  /** `ticks` is the least number of ticks that takes at least this many nanoseconds. */
  predicate IsCeiling(ticks: int, nanoseconds: int) {
    (ticks - 1) * NANOSECONDS_PER_TICK < nanoseconds <= ticks * NANOSECONDS_PER_TICK
  }

  lemma CeilingRange(ticks: int, nanoseconds: int)
    requires IsCeiling(ticks, nanoseconds)
    ensures ticks >= 0 <==> nanoseconds > -NANOSECONDS_PER_TICK
    ensures ticks <= UINT_MAX <==> nanoseconds <= UINT_MAX * NANOSECONDS_PER_TICK
  {
  }

  lemma TicksAreCeiling(t: Time)
    requires Valid(t)
    ensures var part := t.nsec / NANOSECONDS_PER_TICK + (if t.nsec % NANOSECONDS_PER_TICK != 0 then 1 else 0);
      0 <= part <= TICK_RATE_HZ && IsCeiling(TICK_RATE_HZ * t.sec + part, Total(t))
  {
  }

  /** UTILS_TimespecToTicks with 32-bit ticks, for seconds whose ticks fit 64 bits: exact unless they leave 32 bits. */
  method ToTicks(t: Time) returns (status: Status, ticks: nat)
    requires -I63 / 1000 < t.sec < I63 / 1000 - 1
    ensures status ==
      if Valid(t) && -NANOSECONDS_PER_TICK < Total(t) <= UINT_MAX * NANOSECONDS_PER_TICK then Ok else Invalid
    ensures status.Ok? ==> IsCeiling(ticks, Total(t))
  {
    if !Valid(t) {
      return Invalid, 0;
    }
    var totalTicks := Wrap64(TICK_RATE_HZ * t.sec);
    var nanoSecs := t.nsec / NANOSECONDS_PER_TICK + (if t.nsec % NANOSECONDS_PER_TICK != 0 then 1 else 0);
    totalTicks := Wrap64(totalTicks + nanoSecs);
    TicksAreCeiling(t);
    CeilingRange(totalTicks, Total(t));
    status := if totalTicks < 0 || totalTicks > UINT_MAX then Invalid else Ok;
    ticks := totalTicks % (UINT_MAX + 1);
  }

  /**
    UTILS_AbsoluteTimespecToDeltaTicks: timed out exactly when the deadline is past; otherwise the
    wait in ticks, rounded up, unless it does not fit.
   */
  method AbsoluteToDeltaTicks(deadline: Time, now: Time) returns (status: Status, ticks: nat)
    requires Representable(deadline) && Representable(now) && deadline.sec - now.sec < I63 / 1000 - 1
    ensures status.TimedOut? <==> Total(deadline) < Total(now)
    ensures status.Invalid? <==> Total(deadline) - Total(now) > UINT_MAX * NANOSECONDS_PER_TICK
    ensures status.TimedOut? || status.Invalid? || status.Ok?
    ensures status.Ok? ==> IsCeiling(ticks, Total(deadline) - Total(now))
  {
    var diff;
    status, diff := Subtract(deadline, now);
    ticks := 0;
    if status.Past? {
      status := TimedOut;
    } else if status.Invalid? {
      status := Invalid;
    } else {
      status, ticks := ToTicks(diff);
    }
  }

  // ----- nanoseconds -----

  /** UTILS_NanosecondsToTimespec: floor division, for negative amounts too. */
  method FromNanoseconds(source: int) returns (r: Time)
    requires -I63 <= source < I63
    ensures Valid(r) && Total(r) == source
  {
    r := Time(TruncDiv(source, NANOSECONDS_PER_SECOND), TruncRem(source, NANOSECONDS_PER_SECOND));
    if r.nsec < 0 {
      var carrySec := TruncDiv(r.nsec, NANOSECONDS_PER_SECOND) + 1;
      r := Time(r.sec - carrySec, r.nsec + carrySec * NANOSECONDS_PER_SECOND);
    }
  }
}
