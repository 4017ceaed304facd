/** gcd, mod, multiplicative_inverse, clog2, lcm and isPrime of src/lib/libnmath/arithmetic/arithmetic.c. */
module Arithmetic {
  import opened Quotients

  // ----- divisibility -----

  function Times(k: int, d: int): int { k * d }

  ghost predicate Divides(d: int, x: int) { exists k :: Times(k, d) == x }

  ghost predicate Congruent(x: int, y: int, m: int) { Divides(m, x - y) }

  lemma DividesBy(d: int, x: int, k: int)
    requires k * d == x
    ensures Divides(d, x)
  {
    assert Times(k, d) == x;
  }

  lemma DividesCombination(d: int, x: int, y: int, a: int, b: int)
    requires Divides(d, x) && Divides(d, y)
    ensures Divides(d, a * x + b * y)
  {
    var k :| Times(k, d) == x;
    var l :| Times(l, d) == y;
    assert (a * k + b * l) * d == a * (k * d) + b * (l * d);
    DividesBy(d, a * x + b * y, a * k + b * l);
  }

  lemma DividesOne(d: nat)
    requires Divides(d, 1)
    ensures d == 1
  {
    var k :| Times(k, d) == 1;
    assert k * d == 1;
    ProductSign(k, d);
    ProductSign(k - 1, d - 1);
    assert (k - 1) * (d - 1) == k * d - k - d + 1;
  }

  // ----- gcd -----

  function Gcd(a: nat, b: nat): (g: nat)
    decreases b
  {
    if b == 0 then a else Gcd(b, Remainder(a, b))
  }

  function Remainder(a: nat, b: nat): (r: nat)
    requires b > 0
    ensures r < b
  {
    a % b
  }

  lemma RemainderDivisors(a: nat, b: nat, q: int, r: nat, d: int)
    requires a == q * b + r
    ensures Divides(d, b) && Divides(d, r) ==> Divides(d, a)
    ensures Divides(d, b) && Divides(d, a) ==> Divides(d, r)
  {
    if Divides(d, b) && Divides(d, r) {
      DividesCombination(d, b, r, q, 1);
    }
    if Divides(d, b) && Divides(d, a) {
      DividesCombination(d, a, b, 1, -q);
    }
  }

  /** gcd(a, b) divides both, and every common divisor divides it. */
  lemma {:induction false} GcdIsGreatest(a: nat, b: nat, d: int)
    ensures Divides(Gcd(a, b), a) && Divides(Gcd(a, b), b)
    ensures Divides(d, a) && Divides(d, b) ==> Divides(d, Gcd(a, b))
    ensures a > 0 || b > 0 ==> Gcd(a, b) > 0
    decreases b
  {
    if b == 0 {
      DividesBy(a, a, 1);
      DividesBy(a, 0, 0);
    } else {
      var q, r := a / b, Remainder(a, b);
      assert a == q * b + r;
      GcdIsGreatest(b, r, d);
      RemainderDivisors(a, b, q, r, Gcd(b, r));
      RemainderDivisors(a, b, q, r, d);
    }
  }

  // ----- multiplicative_inverse -----

  /**
    mod(a, b): congruent to a for every divisor, and a residue in range exactly when the divisor is
    positive, the dividend not negative, or the one divides the other.
   */
  function Mod(a: int, b: int): (r: int)
    requires b != 0
    ensures Congruent(a, r, b)
    ensures 0 <= r < Abs(b) <==> b > 0 || a >= 0 || Divides(b, a)
  {
    var ret := TruncRem(a, b);
    ModFacts(a, b);
    RemainderZeroIff(a, b);
    if ret < 0 then b + ret else ret
  }

  /** Otherwise it is below the divisor: mod(-1, -2) is -3. */
  lemma ModBelowDivisor(a: int, b: int)
    requires b < 0 && a < 0 && !Divides(b, a)
    ensures 2 * b < Mod(a, b) < b
  {
    ModFacts(a, b);
    RemainderZeroIff(a, b);
  }

  lemma ModOfMinusOne()
    ensures Mod(-1, -2) == -3
  {
    assert TruncRem(-1, -2) == -1;
  }

  /** C's remainder is 0 exactly when the divisor divides. */
  lemma RemainderZeroIff(a: int, b: int)
    requires b != 0
    ensures TruncRem(a, b) == 0 <==> Divides(b, a)
    ensures a >= 0 ==> TruncRem(a, b) >= 0
    ensures a <= 0 ==> TruncRem(a, b) <= 0
  {
    TruncFacts(a, b);
    TruncSign(a, b);
    var q, r := TruncDiv(a, b), TruncRem(a, b);
    if r == 0 {
      DividesBy(b, a, q);
    }
    if Divides(b, a) {
      var k :| Times(k, b) == a;
      assert (k - q) * b == k * b - q * b;
      OnlyZeroMultiple(k - q, b, r);
    }
  }

  lemma OnlyZeroMultiple(e: int, b: int, r: int)
    requires e * b == r && 0 - Abs(b) < r < Abs(b)
    ensures r == 0
  {
    if e != 0 && b != 0 {
      var x, y := Abs(e), Abs(b);
      assert x * y == Abs(e * b);
      ProductMonotone(1, x, y);
    }
  }

  lemma ModFacts(a: int, b: int)
    requires b != 0
    ensures var ret := TruncRem(a, b);
      0 - Abs(b) < ret < Abs(b) && Congruent(a, ret, b) && Congruent(a, b + ret, b)
  {
    var q, ret := TruncDiv(a, b), TruncRem(a, b);
    TruncFacts(a, b);
    assert (q - 1) * b == q * b - b;
    DividesBy(b, a - ret, q);
    DividesBy(b, a - (b + ret), q - 1);
  }

  /** What the loop keeps; u1 and u2 are the cofactors of base0 that the code does not compute. */
  ghost predicate Bezout(base0: nat, subject0: nat, base: int, subject: int, t1: int, t2: int, u1: int, u2: int) {
    t1 * subject0 + u1 * base0 == base && t2 * subject0 + u2 * base0 == subject
  }

  /** The size of the coefficients: their signs alternate and together with the remainders they make up base0. */
  predicate Alternating(base0: nat, base: int, subject: int, t1: int, t2: int) {
    && (t1 <= 0 <= t2 || t2 <= 0 <= t1)
    && Abs(t2) * base + Abs(t1) * subject == base0
  }

  lemma BezoutStep(base0: nat, subject0: nat, base: int, subject: int, t1: int, t2: int,
                  u1: int, u2: int, q: int, r: int)
    requires Bezout(base0, subject0, base, subject, t1, t2, u1, u2) && base == q * subject + r
    ensures Bezout(base0, subject0, subject, r, t2, t1 - q * t2, u2, u1 - q * u2)
  {
    assert q * subject == q * (t2 * subject0 + u2 * base0) == (q * t2) * subject0 + (q * u2) * base0;
    assert (t1 - q * t2) * subject0 == t1 * subject0 - (q * t2) * subject0;
    assert (u1 - q * u2) * base0 == u1 * base0 - (q * u2) * base0;
  }

  lemma AlternatingStep(base0: nat, base: nat, subject: nat, t1: int, t2: int, q: nat, r: nat)
    requires Alternating(base0, base, subject, t1, t2) && base == q * subject + r
    ensures Alternating(base0, subject, r, t2, t1 - q * t2)
    ensures Abs(t1 - q * t2) == Abs(t1) + Abs(q * t2)
  {
    var t := t1 - q * t2;
    ProductSign(t2, q);
    ProductSign(-t2, q);
    assert (-t2) * q == -(t2 * q) == -(q * t2);
    assert q * Abs(t2) == Abs(q * t2);
    assert (Abs(t1) + q * Abs(t2)) * subject == Abs(t1) * subject + Abs(t2) * (q * subject);
    assert Abs(t2) * base == Abs(t2) * (q * subject) + Abs(t2) * r;
  }

  /** A term of a sum of products is no larger than the sum. */
  lemma TermBound(x: nat, base: nat, y: nat, subject: nat, sum: nat)
    requires x * base + y * subject == sum && base > 0
    ensures x <= sum
  {
    ProductSign(y, subject);
    ProductSign(x, base - 1);
    assert x * (base - 1) == x * base - x;
  }

  lemma BoundsStep(base0: nat, base: nat, subject: nat, t1: int, t2: int, q: nat, r: nat)
    requires subject > 0 && base > 0 && base == q * subject + r && Alternating(base0, base, subject, t1, t2)
    ensures Alternating(base0, subject, r, t2, t1 - q * t2)
    ensures Abs(t2) <= base0 && Abs(q * t2) <= base0 && Abs(t1 - q * t2) <= base0
  {
    AlternatingStep(base0, base, subject, t1, t2, q, r);
    TermBound(Abs(t2), base, Abs(t1), subject, base0);
    TermBound(Abs(t1 - q * t2), subject, Abs(t2), r, base0);
  }

  lemma DivisionStep(base: nat, subject: nat)
    requires subject > 0
    ensures 0 <= base / subject && base == (base / subject) * subject + Remainder(base, subject)
  {
    DividedSmaller(base, subject);
  }

  /** One round of the loop: both identities, the alternating coefficients, the bounds and the gcd. */
  lemma EuclidStep(base0: nat, subject0: nat, base: nat, subject: nat, t1: int, t2: int,
                  u1: int, u2: int, q: nat, r: nat)
    requires subject > 0 && base > 0 && base == q * subject + r && r == Remainder(base, subject)
    requires Bezout(base0, subject0, base, subject, t1, t2, u1, u2)
    requires Alternating(base0, base, subject, t1, t2)
    ensures Bezout(base0, subject0, subject, r, t2, t1 - q * t2, u2, u1 - q * u2)
    ensures Alternating(base0, subject, r, t2, t1 - q * t2)
    ensures Abs(t2) <= base0 && Abs(q * t2) <= base0 && Abs(t1 - q * t2) <= base0
    ensures Gcd(base, subject) == Gcd(subject, r)
  {
    assert Gcd(base, subject) == Gcd(subject, r);
    BezoutStep(base0, subject0, base, subject, t1, t2, u1, u2, q, r);
    BoundsStep(base0, base, subject, t1, t2, q, r);
  }

  /** The coefficient that the loop ends with. */
  function Coefficient(base: nat, subject: nat, t1: int, t2: int): int
    decreases subject
  {
    if subject == 0 then t1
    else
      DividedSmaller(base, subject);
      Coefficient(subject, Remainder(base, subject), t2, t1 - (base / subject) * t2)
  }

  /**
    The loop of lines 92-102: base becomes the greatest common divisor, t1 times the subject is
    congruent to it and an inverse exactly of coprime arguments, and no coefficient on the way exceeds
    base0 in magnitude.
   */
  method Euclid(base0: nat, subject0: nat) returns (base: nat, t1: int)
    requires base0 > 0
    ensures base == Gcd(base0, subject0) && base > 0
    ensures Congruent(t1 * subject0, base, base0) && t1 == Coefficient(base0, subject0, 0, 1)
    ensures IsInverse(t1, subject0, base0) <==> base == 1
    ensures Abs(t1) <= base0
  {
    base := base0;
    var subject := subject0;
    var t2;
    t1, t2 := 0, 1;
    ghost var u1, u2 := 1, 0;
    while subject != 0
      invariant base > 0
      invariant Gcd(base, subject) == Gcd(base0, subject0)
      invariant Bezout(base0, subject0, base, subject, t1, t2, u1, u2)
      invariant Alternating(base0, base, subject, t1, t2)
      invariant Abs(t1) <= base0 && Coefficient(base, subject, t1, t2) == Coefficient(base0, subject0, 0, 1)
      decreases subject
    {
      DivisionStep(base, subject);
      var q := base / subject;
      var r := Remainder(base, subject);
      EuclidStep(base0, subject0, base, subject, t1, t2, u1, u2, q, r);
      var t := t1 - q * t2;
      u1, u2 := u2, u1 - q * u2;
      base := subject;
      subject := r;
      t1 := t2;
      t2 := t;
    }
    assert (-u1) * base0 == -(u1 * base0);
    DividesBy(base0, t1 * subject0 - base, -u1);
    CoefficientInverseIff(base0, subject0, base, t1);
  }

  /** m is an inverse of x modulo base. */
  ghost predicate IsInverse(m: int, x: int, base: int) { Congruent(m * x, 1, base) }

  /** A coefficient that gives the greatest common divisor is an inverse exactly when that is 1. */
  lemma CoefficientInverseIff(base0: nat, subject0: nat, g: nat, t1: int)
    requires base0 > 0 && g == Gcd(base0, subject0) && Congruent(t1 * subject0, g, base0)
    ensures IsInverse(t1, subject0, base0) <==> g == 1
  {
    if IsInverse(t1, subject0, base0) {
      OnlyCoprimeInvert(base0, subject0, t1);
    }
  }

  /** A number with an inverse is coprime to the base. */
  lemma OnlyCoprimeInvert(base0: nat, subject0: nat, m: int)
    requires base0 > 0 && IsInverse(m, subject0, base0)
    ensures Gcd(base0, subject0) == 1
  {
    var g := Gcd(base0, subject0);
    GcdIsGreatest(base0, subject0, 1);
    var k :| Times(k, base0) == m * subject0 - 1;
    assert m * subject0 + (-k) * base0 == 1;
    DividesCombination(g, subject0, base0, m, -k);
    DividesOne(g);
  }

  /**
    multiplicative_inverse reduces t1 modulo the greatest common divisor instead of modulo the base it
    was given. The result is an inverse for base 1 only; for every coprime pair it is 0.
   */
  method MultiplicativeInverse(base0: nat, subject0: nat) returns (m: int)
    requires base0 > 0
    ensures 0 <= m < Gcd(base0, subject0)
    ensures IsInverse(m, subject0, base0) <==> base0 == 1
    ensures Congruent(Coefficient(base0, subject0, 0, 1), m, Gcd(base0, subject0))
  {
    var base, t1 := Euclid(base0, subject0);
    m := Mod(t1, base);
    InverseOnlyForOne(base0, subject0, m);
  }

  lemma InverseOnlyForOne(base0: nat, subject0: nat, m: int)
    requires base0 > 0 && 0 <= m < Gcd(base0, subject0)
    ensures IsInverse(m, subject0, base0) <==> base0 == 1
  {
    if IsInverse(m, subject0, base0) {
      OnlyCoprimeInvert(base0, subject0, m);
      assert m == 0;
      var k :| Times(k, base0) == 0 * subject0 - 1;
      assert (-k) * base0 == -(k * base0);
      DividesBy(base0, 1, -k);
      DividesOne(base0);
    }
    if base0 == 1 {
      DividesBy(1, m * subject0 - 1, m * subject0 - 1);
    }
  }

  // ----- clog2 -----

  /** clog2 with num + 1 computed in an unsigned long of the given modulus. */
  function Clog2(num: nat, modulus: nat): nat
    requires num < modulus && modulus % 2 == 0
    decreases num
  {
    if num <= 1 then 0
    else if num % 2 == 1 then
      if num + 1 == modulus then 1 + Clog2(0, modulus) else 1 + Clog2((num + 1) / 2, modulus)
    else 1 + Clog2(num / 2, modulus)
  }

  /** r is the least exponent with num <= 2^r. */
  predicate IsCeilLog(r: nat, num: nat) {
    num <= Pow2(r) && (r > 0 ==> Pow2(r - 1) < num)
  }

  lemma {:induction false} Clog2Below(num: nat, modulus: nat)
    requires num + 1 < modulus && modulus % 2 == 0
    ensures IsCeilLog(Clog2(num, modulus), num)
    decreases num
  {
    if num > 1 {
      var half := if num % 2 == 1 then (num + 1) / 2 else num / 2;
      Clog2Below(half, modulus);
      assert half > 1 ==> Clog2(half, modulus) > 0;
    }
  }

  lemma Clog2Largest(num: nat, modulus: nat)
    requires num + 1 == modulus && modulus % 2 == 0 && modulus >= 4
    ensures Clog2(num, modulus) == 1
  {
    assert num % 2 == 1;
  }

  lemma OneIsTooSmall(num: nat)
    requires num >= 3
    ensures !IsCeilLog(1, num)
  {
    assert Pow2(1) == 2;
  }

  /** The ceiling of the logarithm for every unsigned long but the largest, for which the result is 1. */
  lemma {:induction false} Clog2Exact(num: nat, modulus: nat)
    requires num < modulus && modulus % 2 == 0 && modulus >= 4
    ensures IsCeilLog(Clog2(num, modulus), num) <==> num != modulus - 1
    ensures num == modulus - 1 ==> Clog2(num, modulus) == 1
  {
    if num == modulus - 1 {
      Clog2Largest(num, modulus);
      OneIsTooSmall(num);
    } else {
      Clog2Below(num, modulus);
    }
  }

  // ----- lcm -----

  /** lcm: its loop starts at the end of the array, so the first element is returned. */
  function Lcm(a: seq<nat>): nat
    requires a != []
  {
    a[0]
  }

  ghost predicate CommonMultiple(m: nat, a: seq<nat>) { forall i :: 0 <= i < |a| ==> Divides(a[i], m) }

  /** That is the least common multiple exactly when it is a common multiple at all. */
  lemma LcmIff(a: seq<nat>)
    requires a != []
    ensures CommonMultiple(Lcm(a), a) && (forall m: nat :: CommonMultiple(m, a) ==> Divides(Lcm(a), m)) <==>
              forall i :: 0 < i < |a| ==> Divides(a[i], a[0])
  {
    DividesBy(a[0], a[0], 1);
    forall m: nat | CommonMultiple(m, a)
      ensures Divides(Lcm(a), m)
    {
      assert Divides(a[0], m);
    }
  }

  // ----- isPrime -----

  ghost predicate Prime(x: int) { x >= 2 && forall d: nat :: 2 <= d < x ==> Remainder(x, d) != 0 }

  function Square(i: nat): (q: nat)
    ensures q >= i
  {
    ProductMonotone(if i > 0 then 1 else 0, i, i);
    i * i
  }

  /** An odd number that the loop of isPrime tries for x. */
  predicate Tried(i: nat, x: nat) { i >= 5 && i % 2 == 1 && Square(i) <= x }

  /** What isPrime answers: its test for the factors 2 and 3 is the wrong way round. */
  ghost predicate Accepted(x: int) {
    x == 2 || x == 3 ||
    (x > 3 && x % 2 == 0 && x % 3 == 0 && forall i: nat :: Tried(i, x) ==> Remainder(x, i) != 0)
  }

  method IsPrime(x: int) returns (r: bool)
    ensures r <==> Accepted(x)
  {
    hide Square, Remainder;
    if x < 2 { return false; }
    if x <= 3 { return true; }
    if x % 2 != 0 || x % 3 != 0 { return false; }
    var i: nat := 5;
    while Square(i) <= x
      invariant i >= 5 && i % 2 == 1
      invariant forall j: nat :: Tried(j, x) && j < i ==> Remainder(x, j) != 0
      decreases x - i
    {
      if Remainder(x, i) == 0 {
        assert Tried(i, x);
        return false;
      }
      i := i + 2;
    }
    AllTried(i, x);
    r := true;
  }

  lemma AllTried(i: nat, x: nat)
    requires Square(i) > x
    ensures forall j: nat :: Tried(j, x) ==> j < i
  {
    forall j: nat | Tried(j, x)
      ensures j < i
    {
      if j >= i { SquareMonotone(i, j); }
    }
  }

  lemma SquareMonotone(i: nat, j: nat)
    requires i <= j
    ensures Square(i) <= Square(j)
  {
    ProductMonotone(i, j, i);
    ProductMonotone(i, j, j);
  }

  /** Above 3 it accepts no prime at all, so it is right exactly for the composite numbers that it refuses. */
  lemma IsPrimeRightIff(x: int)
    ensures (Accepted(x) <==> Prime(x)) <==> x <= 3 || (!Prime(x) && !Accepted(x))
    ensures x > 3 && Prime(x) ==> !Accepted(x)
    ensures Accepted(6) && !Prime(6) && Prime(5) && !Accepted(5)
  {
    if x > 3 && x % 2 == 0 {
      assert Remainder(x, 2) == 0;
    }
    assert Remainder(6, 2) == 0;
    assert Remainder(5, 2) == 1 && Remainder(5, 3) == 2 && Remainder(5, 4) == 1;
    forall i: nat | Tried(i, 6)
      ensures false
    {
      SquareMonotone(5, i);
    }
    assert Prime(2);
    assert Remainder(3, 2) == 1;
  }
}
