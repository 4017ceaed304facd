/**
  The integer printer of src/lib/libc/printf.c against the integer parser of src/lib/libc/strton.c.
  Output is the string of characters sent to the device; a C string is a sequence that is followed
  by the terminator.
 */
module NumberText {
  import opened Quotients
  import opened Sequences

  const BUFFER: nat := 20
  const U64: nat := 0x1_0000_0000_0000_0000

  function DigitChar(d: nat): char
    requires d < 36
  {
    if d < 10 then '0' + d as char else 'a' + (d - 10) as char
  }

  /** The digits of u, most significant first. */
  function Digits(u: nat, radix: nat): (s: string)
    requires 2 <= radix <= 36
    ensures s != []
  {
    DividedSmaller(u, radix);
    if u < radix then [DigitChar(u)] else Digits(u / radix, radix) + [DigitChar(u % radix)]
  }

  function Repeat(c: char, n: int): string { if n <= 0 then [] else seq(n, _ => c) }

  function Padded(u: nat, radix: nat, padc: char, padn: int): string
    requires 2 <= radix <= 36
  {
    Repeat(padc, padn - |Digits(u, radix)|) + Digits(u, radix)
  }

  function Reversed(s: string): string { if s == [] then [] else Reversed(s[1..]) + [s[0]] }

  lemma {:induction false} ReversedSnoc(s: string, c: char)
    ensures Reversed(s + [c]) == [c] + Reversed(s)
  {
    if s != [] {
      ReversedSnoc(s[1..], c);
      assert (s + [c])[1..] == s[1..] + [c];
    }
  }

  function Pow10(n: nat): nat { if n == 0 then 1 else 10 * Pow10(n - 1) }

  lemma Pow10Of20()
    ensures U64 < Pow10(BUFFER)
  {
    assert Pow10(5) == 100_000;
    assert Pow10(10) == 100_000 * Pow10(5);
    assert Pow10(15) == 100_000 * Pow10(10);
    assert Pow10(20) == 100_000 * Pow10(15);
  }

  lemma DivideBound(u: nat, radix: nat, n: nat)
    requires radix >= 10 && n > 0 && u < Pow10(n)
    ensures 0 <= u / radix < Pow10(n - 1)
  {
    var q := u / radix;
    DividedSmaller(u, radix);
    assert u == q * radix + u % radix;
    assert q * (radix - 10) == q * radix - q * 10;
    ProductSign(q, radix - 10);
  }

  lemma DigitsSplit(u: nat, radix: nat)
    requires 2 <= radix <= 36 && u >= radix
    ensures Digits(u, radix) == Digits(u / radix, radix) + [DigitChar(u % radix)]
  {
  }

  lemma LastDigit(u: nat, radix: nat)
    requires 2 <= radix <= 36 && u < radix
    ensures u % radix == u && Digits(u, radix) == [DigitChar(u % radix)]
  {
    SmallRemainder(u, radix);
  }

  lemma SmallRemainder(u: nat, radix: nat)
    requires u < radix
    ensures u % radix == u
  {
  }

  lemma Splice(v: string, q: string, d: char, was: string)
    requires v == q + [d] + Reversed(was)
    ensures v == q + Reversed(was + [d])
  {
    ReversedSnoc(was, d);
    Assoc(q, [d], Reversed(was));
  }

  /** One more digit taken off the end of the number, and the first digit taken off. */
  lemma DigitTaken(v: string, unum: nat, radix: nat, was: string)
    requires 2 <= radix <= 36 && unum >= radix && v == Digits(unum, radix) + Reversed(was)
    ensures v == Digits(unum / radix, radix) + Reversed(was + [DigitChar(unum % radix)])
  {
    DigitsSplit(unum, radix);
    Splice(v, Digits(unum / radix, radix), DigitChar(unum % radix), was);
  }

  lemma LastTaken(v: string, unum: nat, radix: nat, was: string)
    requires 2 <= radix <= 36 && unum < radix && v == Digits(unum, radix) + Reversed(was)
    ensures v == Reversed(was + [DigitChar(unum % radix)])
  {
    LastDigit(unum, radix);
    ReversedSnoc(was, DigitChar(unum % radix));
  }

  /** Lines 70-80: the digits, least significant first, fit the buffer of 20. */
  method FillBuffer(value: nat, radix: nat, buf: array<char>) returns (i: nat)
    requires value < U64 && 10 <= radix <= 36 && buf.Length == BUFFER
    modifies buf
    ensures 0 < i <= BUFFER && Digits(value, radix) == Reversed(buf[..i])
  {
    i := 0;
    var unum: nat := value;
    Pow10Of20();
    assert Digits(value, radix) == Digits(unum, radix) + Reversed(buf[..0]);
    while true
      invariant 0 <= i < BUFFER
      invariant unum < Pow10(BUFFER - i)
      invariant Digits(value, radix) == Digits(unum, radix) + Reversed(buf[..i])
      decreases BUFFER - i
    {
      DivideBound(unum, radix, BUFFER - i);
      QuotientZero(unum, radix);
      var rem := unum % radix;
      if unum < radix {
        LastTaken(Digits(value, radix), unum, radix, buf[..i]);
      } else {
        DigitTaken(Digits(value, radix), unum, radix, buf[..i]);
      }
      Put(buf, i, DigitChar(rem));
      i := i + 1;
      unum := unum / radix;
      if unum == 0 {
        break;
      }
    }
  }

  method Put(buf: array<char>, i: nat, c: char)
    requires i < buf.Length
    modifies buf
    ensures buf[..i + 1] == old(buf[..i]) + [c]
  {
    buf[i] := c;
  }

  lemma QuotientZero(u: nat, radix: nat)
    requires radix > 0
    ensures u / radix == 0 <==> u < radix
  {
    assert u == (u / radix) * radix + u % radix;
    DividedSmaller(u, radix);
    ProductSign(u / radix - 1, radix);
    assert (u / radix - 1) * radix == (u / radix) * radix - radix;
  }

  // ----- what the digits mean -----

  /** The value of a digit in bases up to 36; 36 for other characters. */
  function DigitOf(c: char): (d: nat)
    ensures d < 10 ==> c as int == 48 + d
    ensures 10 <= d < 36 ==> c as int == 97 + (d - 10)
  {
    if '0' <= c <= '9' then (c - '0') as nat
    else if 'a' <= c <= 'z' then 10 + (c - 'a') as nat
    else 36
  }

  /** The number a string of digits stands for. */
  function ValueOf(s: string, radix: nat): nat {
    if s == [] then 0 else Times(ValueOf(s[..|s| - 1], radix), radix) + DigitOf(s[|s| - 1])
  }

  function Times(x: nat, y: nat): nat {
    ProductSign(x, y);
    x * y
  }

  lemma ValueSnoc(s: string, c: char, radix: nat)
    ensures ValueOf(s + [c], radix) == Times(ValueOf(s, radix), radix) + DigitOf(c)
  {
    assert (s + [c])[..|s + [c]| - 1] == s;
  }

  lemma DigitOfChar(d: nat)
    requires d < 36
    ensures DigitOf(DigitChar(d)) == d
  {
  }

  lemma Recomposed(u: nat, radix: nat)
    requires radix > 0
    ensures 0 <= u / radix && u == Times(u / radix, radix) + u % radix
  {
    DividedSmaller(u, radix);
  }

  /** In every radix, the text stands for the number. */
  lemma {:induction false} DigitsValue(u: nat, radix: nat)
    requires 2 <= radix <= 36
    ensures ValueOf(Digits(u, radix), radix) == u
    decreases u
  {
    if u < radix {
      ValueSnoc([], DigitChar(u), radix);
      assert [] + [DigitChar(u)] == [DigitChar(u)];
      DigitOfChar(u);
    } else {
      QuotientLess(u, radix);
      DigitsValue(u / radix, radix);
      DigitsSplit(u, radix);
      ValueSnoc(Digits(u / radix, radix), DigitChar(u % radix), radix);
      DigitOfChar(u % radix);
      Recomposed(u, radix);
    }
  }

  /** And each character is a digit of the radix. */
  lemma {:induction false} DigitsInRange(u: nat, radix: nat)
    requires 2 <= radix <= 36
    ensures forall k :: 0 <= k < |Digits(u, radix)| ==> DigitOf(Digits(u, radix)[k]) < radix
    decreases u
  {
    if u < radix {
      DigitOfChar(u);
    } else {
      QuotientLess(u, radix);
      DigitsInRange(u / radix, radix);
      DigitsSplit(u, radix);
      DigitOfChar(u % radix);
    }
  }

  lemma QuotientLess(u: nat, radix: nat)
    requires 2 <= radix <= u
    ensures 0 <= u / radix < u
  {
    DividedSmaller(u, radix);
    assert u == (u / radix) * radix + u % radix;
    ProductMonotone(2, radix, u / radix);
    QuotientZero(u, radix);
  }

  lemma RepeatSnoc(c: char, n: nat)
    requires n > 0
    ensures Repeat(c, n) == Repeat(c, n - 1) + [c]
  {
  }

  lemma {:induction false} ZerosValue(n: nat, radix: nat)
    ensures ValueOf(Repeat('0', n), radix) == 0
  {
    if n > 0 {
      ZerosValue(n - 1, radix);
      RepeatSnoc('0', n);
      ValueSnoc(Repeat('0', n - 1), '0', radix);
    }
  }

  lemma {:induction false} ZerosInFront(z: string, s: string, radix: nat)
    requires ValueOf(z, radix) == 0
    ensures ValueOf(z + s, radix) == ValueOf(s, radix)
    decreases |s|
  {
    if s == [] {
      assert z + s == z;
    } else {
      var init, c := s[..|s| - 1], s[|s| - 1];
      assert init + [c] == s;
      Assoc(z, init, [c]);
      ZerosInFront(z, init, radix);
      ValueSnoc(z + init, c, radix);
    }
  }

  /** What %u, %x and %p send out with a zero pad stands for the number, whatever the width. */
  lemma PaddedValue(u: nat, radix: nat, padn: int)
    requires 2 <= radix <= 36
    ensures ValueOf(Padded(u, radix, '0', padn), radix) == u
    ensures forall k :: 0 <= k < |Padded(u, radix, '0', padn)| ==> DigitOf(Padded(u, radix, '0', padn)[k]) < radix
  {
    DigitsInRange(u, radix);
    var n := padn - |Digits(u, radix)|;
    if n > 0 {
      ZerosValue(n, radix);
    }
    ZerosInFront(Repeat('0', n), Digits(u, radix), radix);
    DigitsValue(u, radix);
  }

  /** The digits of u without a leading zero. */
  ghost predicate Numeral(d: string, u: nat, radix: nat) {
    && d != "" && (forall k :: 0 <= k < |d| ==> DigitOf(d[k]) < radix)
    && ValueOf(d, radix) == u && (|d| > 1 ==> d[0] != '0')
  }

  /** The text d at the end of t, with as many pad characters before it as the width asks for, and never cut. */
  ghost predicate Fills(t: string, d: string, padc: char, padn: int) {
    && |t| == (if padn > |d| then padn else |d|) && t[|t| - |d|..] == d
    && forall k :: 0 <= k < |t| - |d| ==> t[k] == padc
  }

  /** u in the given radix, padded to a width. */
  ghost predicate Shows(t: string, u: nat, radix: nat, padc: char, padn: int) {
    exists d :: Numeral(d, u, radix) && Fills(t, d, padc, padn)
  }

  lemma {:induction false} NoLeadingZero(u: nat, radix: nat)
    requires 2 <= radix <= 36
    ensures u > 0 ==> Digits(u, radix)[0] != '0'
    ensures u < radix ==> |Digits(u, radix)| == 1
    decreases u
  {
    if u >= radix {
      QuotientLess(u, radix);
      QuotientZero(u, radix);
      NoLeadingZero(u / radix, radix);
      DigitsSplit(u, radix);
    }
  }

  lemma DigitsAreNumeral(u: nat, radix: nat)
    requires 2 <= radix <= 36
    ensures Numeral(Digits(u, radix), u, radix)
  {
    DigitsValue(u, radix);
    DigitsInRange(u, radix);
    NoLeadingZero(u, radix);
  }

  lemma PadFills(d: string, padc: char, padn: int)
    ensures Fills(Repeat(padc, padn - |d|) + d, d, padc, padn)
  {
  }

  lemma PaddedShows(u: nat, radix: nat, padc: char, padn: int)
    requires 2 <= radix <= 36
    ensures Shows(Padded(u, radix, padc, padn), u, radix, padc, padn)
    ensures |Padded(u, radix, padc, padn)| == if padn > |Digits(u, radix)| then padn else |Digits(u, radix)|
  {
    DigitsAreNumeral(u, radix);
    PadFills(Digits(u, radix), padc, padn);
  }

  // ----- unumprint -----

  /**
    unumprint: the value is padded to `padn` characters and never cut, the count is what was emitted,
    and the buffer of 20 is enough for every 64-bit value at radix 10 or more.
   */
  method UnumPrint(value: nat, radix: nat, padc: char, padn: int) returns (out: string, ret: int)
    requires value < U64 && 10 <= radix <= 36
    ensures out == Padded(value, radix, padc, padn)
    ensures ret == |out| && |Digits(value, radix)| <= BUFFER
    ensures Shows(out, value, radix, padc, padn)
  {
    var buf := new char[BUFFER];
    var i := FillBuffer(value, radix, buf);
    ReversedLength(buf[..i]);
    out, ret := "", 0;
    var pad := padn;
    if pad > 0 {
      while i < pad
        invariant pad == padn || i <= pad <= padn
        invariant out == Repeat(padc, padn - pad) && ret == |out|
      {
        out := out + [padc];
        ret := ret + 1;
        pad := pad - 1;
      }
    }
    var digits := EmitBuffer(buf, i);
    out := out + digits;
    ret := ret + i;
    PaddedShows(value, radix, padc, padn);
  }

  /** Lines 90-94, as the text that is sent: the buffer from its end. */
  method EmitBuffer(buf: array<char>, count: nat) returns (out: string)
    requires count <= buf.Length
    ensures out == Reversed(buf[..count])
  {
    out := "";
    var i := count;
    while i > 0
      invariant 0 <= i <= count
      invariant out + Reversed(buf[..i]) == Reversed(buf[..count])
    {
      i := i - 1;
      assert buf[..i + 1] == buf[..i] + [buf[i]];
      ReversedSnoc(buf[..i], buf[i]);
      Assoc(out, [buf[i]], Reversed(buf[..i]));
      out := out + [buf[i]];
    }
  }

  lemma {:induction false} ReversedLength(s: string)
    ensures |Reversed(s)| == |s|
  {
    if s != [] {
      ReversedLength(s[1..]);
    }
  }
}
