/** `atol` (src/lib/libc/strton.c), the number that the `%d` conversion of `vprintf` sends out, and their round trip. */
module NumberParse {
  import opened NumberText

  /** Character i of a C string: the terminator follows the last one. */
  function At(s: string, i: nat): char { if i < |s| then s[i] else '\0' }

  predicate IsSpace(c: char) {
    c == ' ' || c == '\t' || c == '\U{000C}' || c == '\n' || c == '\r' || c == '\U{000B}'
  }
  predicate IsDigit(c: char) { '0' <= c <= '9' }

  function DigitValue(c: char): (d: nat)
    requires IsDigit(c)
    ensures d < 10 && DigitChar(d) == c
  {
    (c - '0') as nat
  }

  function SkipSpace(s: string, i: nat): (k: nat)
    ensures i <= k
    decreases |s| - i
  {
    if i < |s| && IsSpace(s[i]) then SkipSpace(s, i + 1) else i
  }

  /** The number that the digits from index i on append to a. */
  function Accumulate(s: string, i: nat, a: nat): (v: nat)
    ensures a <= v
    decreases |s| - i
  {
    if i < |s| && IsDigit(s[i]) then Accumulate(s, i + 1, a * 10 + DigitValue(s[i])) else a
  }

  /** What `atol` denotes; a value that does not fit a long is undefined in C. */
  datatype Parsed = Value(v: int) | Overflow

  function Parse(s: string, maxLong: nat): Parsed {
    var k := SkipSpace(s, 0);
    var signed := At(s, k) == '-' || At(s, k) == '+';
    var v: int := Accumulate(s, if signed then k + 1 else k, 0);
    if v > maxLong then Overflow else Value(if At(s, k) == '-' then -v else v)
  }

  /** integer_traverse; it reports the first step that would overflow the accumulator. */
  method IntegerTraverse(s: string, from: nat, maxLong: nat) returns (ok: bool, a: nat)
    requires from <= |s|
    ensures ok == (Accumulate(s, from, 0) <= maxLong)
    ensures ok ==> a == Accumulate(s, from, 0)
  {
    a := 0;
    var i := from;
    while At(s, i) != '\0' && At(s, i) != '.' && !IsSpace(At(s, i)) && IsDigit(At(s, i))
      invariant i <= |s| && a <= maxLong
      invariant Accumulate(s, from, 0) == Accumulate(s, i, a)
      decreases |s| - i
    {
      a := a * 10 + DigitValue(At(s, i));
      i := i + 1;
      if a > maxLong {
        return false, a;
      }
    }
    ok := true;
  }

  method Atol(s: string, maxLong: nat) returns (r: Parsed)
    ensures r == Parse(s, maxLong)
  {
    var i := 0;
    while IsSpace(At(s, i))
      invariant i <= |s| && SkipSpace(s, 0) == SkipSpace(s, i)
      decreases |s| - i
    {
      i := i + 1;
    }
    var negative := false;
    if At(s, i) != '\0' && (At(s, i) == '-' || At(s, i) == '+') {
      negative := At(s, i) == '-';
      i := i + 1;
    }
    var ok, a := IntegerTraverse(s, i, maxLong);
    if !ok { return Overflow; }
    var v: int := a;
    r := Value(if negative && v != 0 then -v else v);
  }

  // ----- %d -----

  function Magnitude(x: int): nat { if x < 0 then -x else x }

  /** What the `d` case sends out: the sign comes first and takes one place of the width. */
  function Printed(num: int, padc: char, padn: int): string {
    if num < 0 then "-" + Padded(-num, 10, padc, padn - 1) else Padded(num, 10, padc, padn)
  }

  /** Sign, padding and the digits d, in this order, fill the width together and are never cut. */
  ghost predicate PrintedAs(out: string, negative: bool, d: string, padc: char, padn: int) {
    var sign := if negative then 1 else 0;
    && |out| == (if padn > sign + |d| then padn else sign + |d|) && out[|out| - |d|..] == d
    && (negative ==> out[0] == '-') && forall k :: sign <= k < |out| - |d| ==> out[k] == padc
  }

  lemma PrintedMeans(num: int, padc: char, padn: int)
    ensures PrintedAs(Printed(num, padc, padn), num < 0, Digits(Magnitude(num), 10), padc, padn)
  {
    var d := Digits(Magnitude(num), 10);
    PadFills(d, padc, if num < 0 then padn - 1 else padn);
    if num < 0 {
      var b := Padded(-num, 10, padc, padn - 1);
      assert ("-" + b)[|b| + 1 - |d|..] == b[|b| - |d|..];
    }
  }

  /** Lines 147-159; `num` is not the least long, whose negation is undefined. The sign is not counted. */
  method PrintDecimal(num: int, padc: char, padn: int) returns (out: string, ret: int)
    requires -(U64 / 2) < num < U64 / 2
    ensures out == Printed(num, padc, padn)
    ensures ret == if num < 0 then |out| - 1 else |out|
    ensures exists d :: Numeral(d, Magnitude(num), 10) && PrintedAs(out, num < 0, d, padc, padn)
  {
    var width, sign, unum := padn, "", Magnitude(num);
    if num < 0 {
      sign := "-";
      width := width - 1;
    }
    var digits;
    digits, ret := UnumPrint(unum, 10, padc, width);
    out := sign + digits;
    assert |out| == |sign| + |digits|;
    DigitsAreNumeral(unum, 10);
    PrintedMeans(num, padc, padn);
  }

  // ----- round trip -----

  /** The text p stands at index i of s. */
  ghost predicate Stands(s: string, i: nat, p: string) {
    i + |p| <= |s| && forall k :: 0 <= k < |p| ==> s[i + k] == p[k]
  }

  lemma StandsParts(s: string, i: nat, p: string, q: string)
    requires Stands(s, i, p + q)
    ensures Stands(s, i, p) && Stands(s, i + |p|, q)
  {
    var r := p + q;
    forall k | 0 <= k < |p|
      ensures s[i + k] == p[k]
    {
      assert r[k] == p[k];
    }
    forall k | 0 <= k < |q|
      ensures s[i + |p| + k] == q[k]
    {
      assert r[|p| + k] == q[k];
    }
  }

  /** Reading the digits of u, found at index i, appends u to nothing. */
  lemma {:induction false} ReadDigits(s: string, i: nat, u: nat)
    requires Stands(s, i, Digits(u, 10))
    ensures Accumulate(s, i, 0) == Accumulate(s, i + |Digits(u, 10)|, u)
    decreases u
  {
    if u < 10 {
      assert s[i + 0] == Digits(u, 10)[0];
    } else {
      var e, d := Digits(u / 10, 10), DigitChar(u % 10);
      StandsParts(s, i, e, [d]);
      ReadDigits(s, i, u / 10);
      assert s[i + |e| + 0] == [d][0];
    }
  }

  lemma {:induction false} ReadZeros(s: string, i: nat, n: nat)
    requires i + n <= |s| && forall k :: i <= k < i + n ==> s[k] == '0'
    ensures Accumulate(s, i, 0) == Accumulate(s, i + n, 0)
    decreases n
  {
    if n > 0 {
      ReadZeros(s, i + 1, n - 1);
    }
  }

  lemma ReadPadded(s: string, i: nat, u: nat, padn: int)
    requires Stands(s, i, Padded(u, 10, '0', padn)) && !IsDigit(At(s, i + |Padded(u, 10, '0', padn)|))
    ensures Accumulate(s, i, 0) == u
  {
    var z, d := Repeat('0', padn - |Digits(u, 10)|), Digits(u, 10);
    StandsParts(s, i, z, d);
    forall k | i <= k < i + |z|
      ensures s[k] == '0'
    {
      assert s[i + (k - i)] == z[k - i];
    }
    ReadZeros(s, i, |z|);
    ReadDigits(s, i + |z|, u);
  }

  lemma {:induction false} DigitsAreDigits(u: nat)
    ensures forall k :: 0 <= k < |Digits(u, 10)| ==> IsDigit(Digits(u, 10)[k])
    decreases u
  {
    if u >= 10 {
      DigitsAreDigits(u / 10);
    }
  }

  lemma {:induction false} SkipsBlank(ws: string, t: string, i: nat)
    requires i <= |ws| && (forall k :: 0 <= k < |ws| ==> IsSpace(ws[k])) && !IsSpace(At(t, 0))
    ensures SkipSpace(ws + t, i) == |ws|
    decreases |ws| - i
  {
    var s := ws + t;
    if i < |ws| {
      assert s[i] == ws[i];
      SkipsBlank(ws, t, i + 1);
    } else if t != [] {
      assert s[i] == t[0];
    }
  }

  lemma PaddedStartsWithDigit(u: nat, padn: int)
    ensures var p := Padded(u, 10, '0', padn); p != [] && IsDigit(p[0])
  {
    DigitsAreDigits(u);
  }

  /** White space in front of a text that does not start with it is what is skipped. */
  lemma SkipsTo(ws: string, out: string, rest: string)
    requires (forall k :: 0 <= k < |ws| ==> IsSpace(ws[k])) && out != "" && !IsSpace(out[0])
    ensures SkipSpace(ws + out + rest, 0) == |ws| && At(ws + out + rest, |ws|) == out[0]
  {
    assert ws + out + rest == ws + (out + rest);
    SkipsBlank(ws, out + rest, 0);
  }

  /** Sign and digits, wherever they stand, are read back. */
  lemma ReadPrinted(s: string, at: nat, num: int, padn: int, maxLong: nat)
    requires Magnitude(num) <= maxLong && Stands(s, at, Printed(num, '0', padn)) && SkipSpace(s, 0) == at
    requires !IsDigit(At(s, at + |Printed(num, '0', padn)|))
    ensures Parse(s, maxLong) == Value(num)
  {
    var w: int := if num < 0 then padn - 1 else padn;
    var sign := if num < 0 then "-" else "";
    var p := Padded(Magnitude(num), 10, '0', w);
    PaddedStartsWithDigit(Magnitude(num), w);
    assert Printed(num, '0', padn) == sign + p;
    StandsParts(s, at, sign, p);
    assert At(s, at + |sign|) == s[at + |sign| + 0] == p[0];
    assert num < 0 ==> s[at + 0] == sign[0];
    ReadPadded(s, at + |sign|, Magnitude(num), w);
    ParseFrom(s, at, num < 0, Magnitude(num), maxLong);
  }

  /**
    Print then parse is the identity: whatever the zero-pad width, whatever white space comes before
    and whatever does not continue the number comes behind.
   */
  lemma PrintThenParse(num: int, padn: int, ws: string, rest: string, maxLong: nat)
    requires Magnitude(num) <= maxLong
    requires (forall k :: 0 <= k < |ws| ==> IsSpace(ws[k])) && !IsDigit(At(rest, 0))
    ensures Parse(ws + Printed(num, '0', padn) + rest, maxLong) == Value(num)
  {
    var out := Printed(num, '0', padn);
    PaddedStartsWithDigit(Magnitude(num), if num < 0 then padn - 1 else padn);
    SkipsTo(ws, out, rest);
    StandsInside(ws, out, rest);
    ReadPrinted(ws + out + rest, |ws|, num, padn, maxLong);
  }

  lemma ParseFrom(s: string, k: nat, negative: bool, u: nat, maxLong: nat)
    requires SkipSpace(s, 0) == k && u <= maxLong
    requires if negative then At(s, k) == '-' else IsDigit(At(s, k))
    requires Accumulate(s, if negative then k + 1 else k, 0) == u
    ensures Parse(s, maxLong) == Value(if negative then 0 - u else u)
  {
  }

  lemma StandsInside(a: string, p: string, b: string)
    ensures Stands(a + p + b, |a|, p)
    ensures At(a + p + b, |a| + |p|) == At(b, 0)
  {
  }

  // ----- what atol reads -----

  /** Characters by their codes: white space is 9 to 13 and 32, digits are 48 to 57. */
  lemma CharClasses(c: char)
    ensures IsSpace(c) <==> 9 <= c as int <= 13 || c as int == 32
    ensures IsDigit(c) <==> 48 <= c as int <= 57
    ensures IsDigit(c) ==> DigitValue(c) == DigitOf(c)
  {
  }

  lemma {:induction false} ReadAnyDigits(s: string, i: nat, d: string)
    requires Stands(s, i, d) && forall k :: 0 <= k < |d| ==> IsDigit(d[k])
    ensures Accumulate(s, i, 0) == Accumulate(s, i + |d|, ValueOf(d, 10))
    decreases |d|
  {
    if d != "" {
      var init, c := d[..|d| - 1], d[|d| - 1];
      assert d == init + [c];
      StandsParts(s, i, init, [c]);
      ReadAnyDigits(s, i, init);
      assert s[i + |init| + 0] == [c][0];
      CharClasses(c);
      ValueSnoc(init, c, 10);
    }
  }

  /** Reading on from the first character that is not white space. */
  lemma ParseAt(s: string, at: nat, signed: bool, u: nat, maxLong: nat)
    requires SkipSpace(s, 0) == at && (signed <==> At(s, at) == '+' || At(s, at) == '-')
    requires Accumulate(s, if signed then at + 1 else at, 0) == u
    ensures Parse(s, maxLong) == if u > maxLong then Overflow else Value(if At(s, at) == '-' then 0 - u else u)
  {
  }

  lemma ReadUnsigned(s: string, i: nat, d: string, rest: string)
    requires Stands(s, i, d) && At(s, i + |d|) == At(rest, 0) && !IsDigit(At(rest, 0))
    requires forall k :: 0 <= k < |d| ==> IsDigit(d[k])
    ensures Accumulate(s, i, 0) == ValueOf(d, 10)
  {
    ReadAnyDigits(s, i, d);
  }

  lemma BlankThen(ws: string, body: string)
    requires (forall k :: 0 <= k < |ws| ==> IsSpace(ws[k])) && !IsSpace(At(body, 0))
    ensures SkipSpace(ws + body, 0) == |ws| && At(ws + body, |ws|) == At(body, 0)
  {
    SkipsBlank(ws, body, 0);
  }

  lemma BodyStarts(sign: string, d: string, rest: string)
    requires sign == "" || sign == "+" || sign == "-"
    ensures At(sign + (d + rest), 0) == if sign != "" then sign[0] else if d != "" then d[0] else At(rest, 0)
  {
  }

  lemma BodyStands(ws: string, sign: string, d: string, rest: string)
    ensures Stands(ws + (sign + (d + rest)), |ws| + |sign|, d)
    ensures At(ws + (sign + (d + rest)), |ws| + |sign| + |d|) == At(rest, 0)
  {
    assert ws + (sign + (d + rest)) == ws + sign + d + rest;
    StandsInside(ws + sign, d, rest);
  }

  /**
    Every string is white space, at most one sign, digits and a rest. atol gives the value of the digits,
    none of them for 0, with a minus sign negative; a value above the largest long is undefined.
   */
  lemma ParseMeans(ws: string, sign: string, d: string, rest: string, maxLong: nat)
    requires (forall k :: 0 <= k < |ws| ==> IsSpace(ws[k])) && (sign == "" || sign == "+" || sign == "-")
    requires (forall k :: 0 <= k < |d| ==> IsDigit(d[k])) && !IsDigit(At(rest, 0))
    requires sign == "" && d == "" ==> !IsSpace(At(rest, 0)) && At(rest, 0) != '+' && At(rest, 0) != '-'
    ensures Parse(ws + (sign + (d + rest)), maxLong) ==
              if ValueOf(d, 10) > maxLong then Overflow
              else Value(if sign == "-" then 0 - ValueOf(d, 10) else ValueOf(d, 10))
  {
    hide SkipSpace, Accumulate, Parse, ValueOf, Stands;
    BodyStarts(sign, d, rest);
    BlankThen(ws, sign + (d + rest));
    BodyStands(ws, sign, d, rest);
    var s := ws + (sign + (d + rest));
    ReadUnsigned(s, |ws| + |sign|, d, rest);
    ParseAt(s, |ws|, sign != "", ValueOf(d, 10), maxLong);
  }
}
