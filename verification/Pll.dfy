/**
  The PLL settings search of src/platform/sifive/common_fe310/hal/prci/pll.c and the separate
  recomputation of the clock from the stored settings. All arithmetic of the search is on 32-bit
  unsigned values, except for the distance, which goes through a signed int.
 */
module Pll {
  import opened Quotients

  const U32: nat := 0x1_0000_0000
  const MAX_PLL_OUT: nat := 320_000_000
  const MIN_PLL_OUT: nat := 375_000
  const MIN_REFR: nat := 6_000_000
  const MAX_REFR: nat := 12_000_000
  const MIN_VCO: nat := 384_000_000
  const MAX_VCO: nat := 768_000_000
  const MIN_PLLO: nat := 48_000_000
  const MAX_PLLO: nat := 384_000_000

  // ----- C arithmetic -----

  function Mul32(a: nat, b: nat): nat { (a * b) % U32 }

  /** abs((int)(a - b)) on unsigned int operands. */
  function AbsDiff32(a: nat, b: nat): int {
    var d := (a - b) % U32;
    var s := if d >= U32 / 2 then d - U32 else d;
    if s < 0 then -s else s
  }

  function Distance(a: nat, b: nat): nat { if a < b then b - a else a - b }

  lemma AbsDiffExact(a: nat, b: nat)
    requires a < U32 / 2 && b < U32 / 2
    ensures AbsDiff32(a, b) == Distance(a, b)
  {
    if a < b {
      assert (a - b) % U32 == a - b + U32;
    }
  }

  // ----- what the settings mean, in unbounded arithmetic -----

  datatype Settings = Settings(found: bool, r: nat, f: nat, q: nat, diven: bool, n: nat)

  const NO_SETTINGS := Settings(false, 0, 0, 0, false, 0)

  function VcoDivider(q: nat): nat { if q == 0 then 1 else if q == 1 then 2 else if q == 2 then 4 else 8 }

  function Ref(base: nat, r: nat): nat { base / (r + 1) }
  function Vco(base: nat, r: nat, f: nat): nat { Ref(base, r) * (2 * (f + 1)) }
  function PllOut(base: nat, r: nat, f: nat, q: nat): nat { Vco(base, r, f) / VcoDivider(q) }

  /** The output divider: 2 * (n + 1) when enabled. */
  function Divided(out: nat, diven: bool, n: nat): nat {
    var k := 2 * (n + 1);
    DividedSmaller(out, k);
    if diven then out / k else out
  }

  function Output(base: nat, c: Settings): nat {
    Divided(PllOut(base, c.r, c.f, c.q), c.diven, c.n)
  }

  predicate RefOk(base: nat, r: nat) { r < 8 && MIN_REFR <= Ref(base, r) <= MAX_REFR }
  predicate VcoOk(base: nat, r: nat, f: nat) { f < 64 && MIN_VCO <= Vco(base, r, f) <= MAX_VCO }
  predicate OutOk(base: nat, r: nat, f: nat, q: nat) { 1 <= q < 4 && MIN_PLLO <= PllOut(base, r, f, q) <= MAX_PLLO }

  /** Settings within the register fields and the reference, VCO and output limits of the hardware. */
  predicate Legal(base: nat, c: Settings) {
    RefOk(base, c.r) && VcoOk(base, c.r, c.f) && OutOk(base, c.r, c.f, c.q) && c.n < 64
  }

  // ----- the same in plain arithmetic -----

  /**
    What the hardware makes of the register fields and its limits, by quotients and products only: `out`
    is the base clock divided by r + 1, times 2 * (f + 1), divided by 2 to the power q, rounded down.
   */
  ghost predicate Makes(base: nat, r: nat, f: nat, q: nat, out: nat) {
    && r < 8 && f < 64 && 1 <= q < 4
    && var refr := base / (r + 1);
    && 6_000_000 <= refr <= 12_000_000
    && 384_000_000 <= refr * (2 * (f + 1)) <= 768_000_000
    && out * Pow2(q) <= refr * (2 * (f + 1)) < (out + 1) * Pow2(q)
    && 48_000_000 <= out <= 384_000_000
  }

  /** The clock behind the output divider, which divides by 2 * (n + 1) when it is enabled. */
  ghost predicate Leaves(out: nat, diven: bool, n: nat, clk: nat) {
    n < 64 && if diven then clk * (2 * (n + 1)) <= out < (clk + 1) * (2 * (n + 1)) else clk == out
  }

  /** Some settings within the limits give this clock. */
  ghost predicate Reaches(base: nat, clk: nat) {
    exists r, f, q, out, diven, n :: Makes(base, r, f, q, out) && Leaves(out, diven, n, clk)
  }

  predicate NoFarther(target: int, clk: int, x: int) {
    (if clk < target then target - clk else clk - target) <= (if x < target then target - x else x - target)
  }

  /** No clock in reach is closer to the target. */
  ghost predicate Nearest(base: nat, target: nat, clk: nat) {
    forall x: nat :: Reaches(base, x) ==> NoFarther(target, clk, x)
  }

  // ----- what the loops have covered -----

  /** Both outputs that each n below ni offers have been compared with. */
  predicate CoverN(clk: nat, best: nat, out: nat, ni: nat) {
    forall n, diven :: 0 <= n < ni ==> best <= Distance(clk, Divided(out, diven, n))
  }

  predicate CoverQ(base: nat, clk: nat, best: nat, r: nat, f: nat, qi: nat) {
    forall q :: 1 <= q < qi && OutOk(base, r, f, q) ==> CoverN(clk, best, PllOut(base, r, f, q), 64)
  }

  predicate CoverF(base: nat, clk: nat, best: nat, r: nat, fi: nat) {
    forall f :: 0 <= f < fi && VcoOk(base, r, f) ==> CoverQ(base, clk, best, r, f, 4)
  }

  predicate CoverR(base: nat, clk: nat, best: nat, ri: nat) {
    forall r :: 0 <= r < ri && RefOk(base, r) ==> CoverF(base, clk, best, r, 64)
  }

  /** `nearest` and `config` after part of the search. */
  predicate Progress(base: nat, clk: nat, nearest: nat, c: Settings) {
    if c.found then Legal(base, c) && nearest == Distance(clk, Output(base, c)) && nearest < MAX_PLL_OUT
    else c == NO_SETTINGS && nearest == MAX_PLL_OUT
  }

  predicate Target(clk: nat) { MIN_PLL_OUT <= clk <= MAX_PLL_OUT }

  // ----- the search -----

  method SearchN(clk: nat, ri: nat, fi: nat, qi: nat, pllout: nat, nearest0: nat, config0: Settings)
    returns (nearest: nat, config: Settings)
    requires clk < U32 / 2 && pllout < U32 / 2
    ensures CoverN(clk, nearest, pllout, 64)
    ensures if nearest == nearest0 then config == config0 else
              && nearest < nearest0 && config.n < 64
              && config == Settings(true, ri, fi, qi, config.diven, config.n)
              && nearest == Distance(clk, Divided(pllout, config.diven, config.n))
  {
    nearest, config := nearest0, config0;
    for ni := 0 to 64
      invariant CoverN(clk, nearest, pllout, ni)
      invariant if nearest == nearest0 then config == config0 else
                  && nearest < nearest0 && config.n < 64
                  && config == Settings(true, ri, fi, qi, config.diven, config.n)
                  && nearest == Distance(clk, Divided(pllout, config.diven, config.n))
    {
      var n := 2 * (ni + 1);
      DividedSmaller(pllout, n);
      AbsDiffExact(clk, pllout / n);
      AbsDiffExact(clk, pllout);
      var div := 1;
      var diffDiv := AbsDiff32(clk, pllout / n);
      var diffNodiv := AbsDiff32(clk, pllout);
      var diff := diffNodiv;
      if diffDiv < diffNodiv {
        diff := diffDiv;
        div := n;
      }
      if diff < nearest {
        nearest := diff;
        config := Settings(true, ri, fi, qi, div > 1, ni);
      }
    }
  }

  method SearchQ(base: nat, clk: nat, ri: nat, fi: nat, vco: nat, nearest0: nat, config0: Settings)
    returns (nearest: nat, config: Settings)
    requires Target(clk) && RefOk(base, ri) && VcoOk(base, ri, fi) && vco == Vco(base, ri, fi)
    requires Progress(base, clk, nearest0, config0)
    ensures nearest <= nearest0 && Progress(base, clk, nearest, config)
    ensures CoverQ(base, clk, nearest, ri, fi, 4)
  {
    nearest, config := nearest0, config0;
    for qi := 1 to 4
      invariant nearest <= nearest0 && Progress(base, clk, nearest, config)
      invariant CoverQ(base, clk, nearest, ri, fi, qi)
    {
      var q := VcoDivider(qi);
      var pllout := vco / q;
      if pllout < MIN_PLLO || pllout > MAX_PLLO {
        continue;
      }
      var before := nearest;
      nearest, config := SearchN(clk, ri, fi, qi, pllout, nearest, config);
      CoverQLower(base, clk, before, nearest, ri, fi, qi);
    }
  }

  method SearchF(base: nat, clk: nat, ri: nat, refr: nat, nearest0: nat, config0: Settings)
    returns (nearest: nat, config: Settings)
    requires Target(clk) && RefOk(base, ri) && refr == Ref(base, ri)
    requires Progress(base, clk, nearest0, config0)
    ensures nearest <= nearest0 && Progress(base, clk, nearest, config)
    ensures CoverF(base, clk, nearest, ri, 64)
  {
    nearest, config := nearest0, config0;
    for fi := 0 to 64
      invariant nearest <= nearest0 && Progress(base, clk, nearest, config)
      invariant CoverF(base, clk, nearest, ri, fi)
    {
      var f := 2 * (fi + 1);
      var vco := Mul32(refr, f);
      VcoFits(refr, f);
      assert vco == Vco(base, ri, fi);
      if vco < MIN_VCO || vco > MAX_VCO {
        continue;
      }
      var before := nearest;
      nearest, config := SearchQ(base, clk, ri, fi, vco, nearest, config);
      CoverFLower(base, clk, before, nearest, ri, fi);
    }
  }

  /** The product of the reference and the feedback factor does not overflow. */
  lemma VcoFits(refr: nat, f: nat)
    requires refr <= MAX_REFR && f <= 128
    ensures Mul32(refr, f) == refr * f
  {
    ProductSign(MAX_REFR - refr, f);
    ProductSign(refr, f);
    assert (MAX_REFR - refr) * f == MAX_REFR * f - refr * f;
  }

  /** The four loops of pll_config_for_nearest_freq. */
  method Search(base: nat, clk: nat) returns (config: Settings)
    requires base < U32 && Target(clk)
    ensures config.found <==> exists r :: RefOk(base, r)
    ensures config.found ==> Legal(base, config)
    ensures config.found ==> forall c :: Legal(base, c) ==>
              Distance(clk, Output(base, config)) <= Distance(clk, Output(base, c))
    ensures !config.found ==> config == NO_SETTINGS
    ensures config.found ==> exists out: nat, x: nat ::
              && Makes(base, config.r, config.f, config.q, out)
              && Leaves(out, config.diven, config.n, x) && Nearest(base, clk, x)
  {
    var nearest := MAX_PLL_OUT;
    config := NO_SETTINGS;
    for ri := 0 to 8
      invariant Progress(base, clk, nearest, config)
      invariant CoverR(base, clk, nearest, ri)
    {
      var refr := base / (ri + 1);
      if refr < MIN_REFR || refr > MAX_REFR {
        continue;
      }
      var before := nearest;
      nearest, config := SearchF(base, clk, ri, refr, nearest, config);
      CoverRLower(base, clk, before, nearest, ri);
    }
    SearchComplete(base, clk, nearest, config);
    if config.found {
      LegalMakes(base, config);
      NearestIs(base, clk, Output(base, config));
    }
  }

  lemma CoverQLower(base: nat, clk: nat, best: nat, lower: nat, r: nat, f: nat, qi: nat)
    requires lower <= best && CoverQ(base, clk, best, r, f, qi)
    ensures CoverQ(base, clk, lower, r, f, qi)
  {
    forall q | 1 <= q < qi && OutOk(base, r, f, q)
      ensures CoverN(clk, lower, PllOut(base, r, f, q), 64)
    {
      assert CoverN(clk, best, PllOut(base, r, f, q), 64);
    }
  }

  lemma CoverFLower(base: nat, clk: nat, best: nat, lower: nat, r: nat, fi: nat)
    requires lower <= best && CoverF(base, clk, best, r, fi)
    ensures CoverF(base, clk, lower, r, fi)
  {
    forall f | 0 <= f < fi && VcoOk(base, r, f)
      ensures CoverQ(base, clk, lower, r, f, 4)
    {
      CoverQLower(base, clk, best, lower, r, f, 4);
    }
  }

  lemma CoverRLower(base: nat, clk: nat, best: nat, lower: nat, ri: nat)
    requires lower <= best && CoverR(base, clk, best, ri)
    ensures CoverR(base, clk, lower, ri)
  {
    forall r | 0 <= r < ri && RefOk(base, r)
      ensures CoverF(base, clk, lower, r, 64)
    {
      CoverFLower(base, clk, best, lower, r, 64);
    }
  }

  /** Everything legal has been compared with. */
  lemma Covered(base: nat, clk: nat, best: nat, c: Settings)
    requires CoverR(base, clk, best, 8) && Legal(base, c)
    ensures best <= Distance(clk, Output(base, c))
  {
    assert CoverF(base, clk, best, c.r, 64);
    assert CoverQ(base, clk, best, c.r, c.f, 4);
    assert CoverN(clk, best, PllOut(base, c.r, c.f, c.q), 64);
    assert best <= Distance(clk, Divided(PllOut(base, c.r, c.f, c.q), c.diven, c.n));
  }

  /** A legal reference always leads to a legal output closer than the initial `nearest`. */
  lemma SomeChoice(base: nat, clk: nat, r: nat) returns (c: Settings)
    requires Target(clk) && RefOk(base, r)
    ensures Legal(base, c) && Distance(clk, Output(base, c)) < MAX_PLL_OUT
  {
    var out := PllOut(base, r, 31, 1);
    assert Vco(base, r, 31) == Ref(base, r) * 64;
    assert out == Ref(base, r) * 32;
    c := Settings(true, r, 31, 1, clk < out / 2, 0);
  }

  lemma SearchComplete(base: nat, clk: nat, nearest: nat, config: Settings)
    requires Target(clk) && Progress(base, clk, nearest, config) && CoverR(base, clk, nearest, 8)
    ensures config.found <==> exists r :: RefOk(base, r)
    ensures config.found ==> forall c :: Legal(base, c) ==>
              Distance(clk, Output(base, config)) <= Distance(clk, Output(base, c))
  {
    if r :| RefOk(base, r) {
      var c := SomeChoice(base, clk, r);
      Covered(base, clk, nearest, c);
    }
    forall c | config.found && Legal(base, c)
      ensures Distance(clk, Output(base, config)) <= Distance(clk, Output(base, c))
    {
      Covered(base, clk, nearest, c);
    }
  }

  lemma RefBounds(base: nat, r: nat)
    requires RefOk(base, r)
    ensures MIN_REFR <= base < 8 * (MAX_REFR + 1)
  {
    DividedSmaller(base, r + 1);
    var x := Ref(base, r);
    assert base == x * (r + 1) + base % (r + 1);
    assert x * (r + 1) <= MAX_REFR * 8;
  }

  lemma RefExists(base: nat, r: nat)
    requires base >= MIN_REFR && r * (MAX_REFR + 1) <= base < (r + 1) * (MAX_REFR + 1) && r < 8
    ensures RefOk(base, r)
  {
    if r == 0 {
    } else if r == 1 {
    } else if r == 2 {
    } else if r == 3 {
    } else if r == 4 {
    } else if r == 5 {
    } else if r == 6 {
    } else {
    }
  }

  /** The base clocks for which the search succeeds, for every target: 6 MHz to 96.000007 MHz. */
  lemma FoundIff(base: nat)
    ensures (exists r :: RefOk(base, r)) <==> MIN_REFR <= base < 8 * (MAX_REFR + 1)
  {
    if r :| RefOk(base, r) {
      RefBounds(base, r);
    }
    if MIN_REFR <= base < 8 * (MAX_REFR + 1) {
      RefExists(base, base / (MAX_REFR + 1));
    }
  }

  // ----- prci_pll_get_clk -----

  datatype Clock = NotCalibrated | Hertz(clk: nat)

  /** The recomputation from the stored settings, in 32-bit arithmetic. */
  function GetClk(base: nat, c: Settings): Clock {
    if !c.found then NotCalibrated
    else
      var refr := base / (c.r + 1);
      var vco := Mul32(refr, 2 * (c.f + 1));
      var pllout := vco / VcoDivider(c.q);
      Hertz(if c.diven then pllout / (2 * (c.n + 1)) else pllout)
  }

  lemma GetClkIsOutput(base: nat, c: Settings)
    requires c.found && Legal(base, c)
    ensures GetClk(base, c) == Hertz(Output(base, c))
  {
    VcoFits(Ref(base, c.r), 2 * (c.f + 1));
  }

  lemma DividerPower(q: nat)
    requires 1 <= q < 4
    ensures VcoDivider(q) == Pow2(q)
  {
    assert Pow2(1) == 2 && Pow2(2) == 4 && Pow2(3) == 8;
  }

  lemma QuotientIs(x: nat, k: nat, out: nat)
    requires k > 0
    ensures out * k <= x < (out + 1) * k <==> x / k == out
  {
    var q := x / k;
    assert x == q * k + x % k;
    assert (q + 1) * k == q * k + k && (out + 1) * k == out * k + k;
    if q < out { ProductMonotone(q + 1, out, k); }
    if out < q { ProductMonotone(out + 1, q, k); }
  }

  lemma MakesIs(base: nat, r: nat, f: nat, q: nat, out: nat)
    ensures Makes(base, r, f, q, out) <==>
              RefOk(base, r) && VcoOk(base, r, f) && OutOk(base, r, f, q) && PllOut(base, r, f, q) == out
  {
    if 1 <= q < 4 {
      DividerPower(q);
      ProductSign(Ref(base, r), 2 * (f + 1));
      QuotientIs(Vco(base, r, f), Pow2(q), out);
    }
  }

  lemma LeavesIs(out: nat, diven: bool, n: nat, clk: nat)
    ensures Leaves(out, diven, n, clk) <==> n < 64 && Divided(out, diven, n) == clk
  {
    QuotientIs(out, 2 * (n + 1), clk);
  }

  lemma LegalMakes(base: nat, c: Settings)
    requires Legal(base, c)
    ensures exists out :: Makes(base, c.r, c.f, c.q, out) && Leaves(out, c.diven, c.n, Output(base, c))
  {
    var out := PllOut(base, c.r, c.f, c.q);
    MakesIs(base, c.r, c.f, c.q, out);
    LeavesIs(out, c.diven, c.n, Output(base, c));
  }

  lemma NotCloser(base: nat, target: nat, clk: nat, c: Settings)
    requires Distance(target, clk) <= Distance(target, Output(base, c))
    ensures NoFarther(target, clk, Output(base, c))
  {
  }

  lemma NearestIs(base: nat, target: nat, clk: nat)
    requires forall c :: Legal(base, c) ==> Distance(target, clk) <= Distance(target, Output(base, c))
    ensures Nearest(base, target, clk)
  {
    forall x: nat | Reaches(base, x)
      ensures NoFarther(target, clk, x)
    {
      var c := ReachingSettings(base, x);
      NotCloser(base, target, clk, c);
    }
  }

  lemma ReachingSettings(base: nat, clk: nat) returns (c: Settings)
    requires Reaches(base, clk)
    ensures Legal(base, c) && Output(base, c) == clk
  {
    var r, f, q, out, diven, n :| Makes(base, r, f, q, out) && Leaves(out, diven, n, clk);
    MakesIs(base, r, f, q, out);
    LeavesIs(out, diven, n, clk);
    c := Settings(true, r, f, q, diven, n);
  }

  /** What is reported for legal settings is what they give. */
  lemma GetClkMeans(base: nat, c: Settings)
    requires c.found && Legal(base, c)
    ensures GetClk(base, c).Hertz?
    ensures exists out :: Makes(base, c.r, c.f, c.q, out) && Leaves(out, c.diven, c.n, GetClk(base, c).clk)
  {
    GetClkIsOutput(base, c);
    LegalMakes(base, c);
  }

  /**
    Setting a clock and asking for it: for every 32-bit base clock and every target, the clock that
    `prci_pll_get_clk` reports is as close to the target as any legal settings come, and there is one
    exactly for the base clocks of FoundIff.
   */
  method SetThenGet(base: nat, clk: nat) returns (reported: Clock)
    requires base < U32 && Target(clk)
    ensures reported.Hertz? <==> MIN_REFR <= base < 8 * (MAX_REFR + 1)
    ensures reported.Hertz? ==> exists c :: Legal(base, c) && reported.clk == Output(base, c)
    ensures reported.Hertz? ==> forall c :: Legal(base, c) ==>
              Distance(clk, reported.clk) <= Distance(clk, Output(base, c))
    ensures reported.Hertz? ==> Reaches(base, reported.clk) && Nearest(base, clk, reported.clk)
  {
    var config := Search(base, clk);
    FoundIff(base);
    if config.found {
      GetClkIsOutput(base, config);
      LegalMakes(base, config);
      NearestIs(base, clk, Output(base, config));
    }
    reported := GetClk(base, config);
  }
}
