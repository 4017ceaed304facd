/**
  `vprintf` (src/lib/libc/printf.c) on whole formats without floating point: flags, widths, conversions
  and literal text. A format built from pieces sends out what the pieces say, and what `%0<width>d`
  sends out is read back by `atol`.
 */
module NumberFormat {
  import opened NumberText
  import opened NumberParse
  import opened Sequences

  datatype Arg = Num(v: int) | Text(s: string) | Letter(c: char)

  /** All sent, a conversion letter that is not known (-1 is returned), or undefined in C. */
  datatype Output = Done(text: string) | Failed(text: string) | Undefined

  /** What the text depends on: INT_MAX of the target. */
  datatype Machine = Machine(maxInt: nat)

  // ----- flags and width -----

  function DigitsEnd(s: string, i: nat): (k: nat)
    requires i <= |s|
    ensures i <= k <= |s| && !IsDigit(At(s, k)) && forall j :: i <= j < k ==> IsDigit(s[j])
    decreases |s| - i
  {
    if i < |s| && IsDigit(s[i]) then DigitsEnd(s, i + 1) else i
  }

  /** Lines 205-215, after the `0` flag at index from - 1; reports the first step that overflows the int. */
  method ScanWidth(fmt: string, from: nat, maxInt: nat) returns (ok: bool, padn: nat, next: nat)
    requires from <= |fmt|
    ensures ok == (Accumulate(fmt, from, 0) <= maxInt)
    ensures ok ==> padn == Accumulate(fmt, from, 0)
    ensures ok ==> from <= next <= |fmt| && !IsDigit(At(fmt, next)) && next == DigitsEnd(fmt, from)
    ensures ok ==> forall k :: from <= k < next ==> IsDigit(fmt[k])
  {
    padn, next := 0, from;
    while true
      invariant from <= next <= |fmt| && padn <= maxInt
      invariant Accumulate(fmt, from, 0) == Accumulate(fmt, next, padn)
      invariant DigitsEnd(fmt, from) == DigitsEnd(fmt, next)
      decreases |fmt| - next
    {
      var ch := At(fmt, next);
      if ch < '0' || ch > '9' {
        return true, padn, next;
      }
      padn := padn * 10 + DigitValue(ch);
      next := next + 1;
      if padn > maxInt {
        return false, padn, next;
      }
    }
  }

  /** Where the conversion letter is, and the padding that applies to it. */
  datatype Flags = Flags(at: nat, padc: char, padn: nat) | TooWide

  function ReadFlags(fmt: string, i: nat, padc: char, padn: nat, target: Machine): (f: Flags)
    requires i <= |fmt|
    ensures f.Flags? ==> i <= f.at <= |fmt|
    decreases |fmt| - i
  {
    if IsLength(At(fmt, i)) then ReadFlags(fmt, i + 1, padc, padn, target)
    else if At(fmt, i) == '0' then
      var w := Accumulate(fmt, i + 1, 0);
      if w > target.maxInt then TooWide else ReadFlags(fmt, DigitsEnd(fmt, i + 1), '0', w, target)
    else Flags(i, padc, padn)
  }

  // ----- one conversion -----

  /** The text of a conversion and the arguments left; `Unknown` is the default branch. */
  datatype Item = Item(text: string, rest: seq<Arg>) | Unknown | BadArg

  predicate IsLength(c: char) { c == 'l' || c == 'z' }

  /** The letters that take an argument. */
  predicate IsConversion(c: char) {
    c == 'i' || c == 'd' || c == 'c' || c == 's' || c == 'p' || c == 'x' || c == 'u'
  }

  predicate IsSigned(x: Arg) { x.Num? && -(U64 / 2) < x.v < U64 / 2 }
  predicate IsUnsigned(x: Arg) { x.Num? && 0 <= x.v < U64 }

  function Convert(letter: char, padc: char, padn: int, args: seq<Arg>): Item {
    if letter == '%' then Item("%", args)
    else if !IsConversion(letter) then Unknown
    else if args == [] then BadArg
    else
      var x, rest := args[0], args[1..];
      if letter == 'c' then if x.Letter? then Item([x.c], rest) else BadArg
      else if letter == 's' then if x.Text? then Item(x.s, rest) else BadArg
      else if letter == 'i' || letter == 'd' then
        if IsSigned(x) then Item(Printed(x.v, padc, padn), rest) else BadArg
      else if !IsUnsigned(x) then BadArg
      else if letter == 'p' then Item("0x" + Padded(x.v, 16, padc, padn - 2), rest)
      else Item(Padded(x.v, if letter == 'x' then 16 else 10, padc, padn), rest)
  }

  /** The switch of lines 145-203. */
  method ConvertOne(letter: char, padc: char, padn: int, args: seq<Arg>) returns (r: Item)
    ensures r == Convert(letter, padc, padn, args)
  {
    if letter == '%' { return Item("%", args); }
    if !IsConversion(letter) { return Unknown; }
    if args == [] { return BadArg; }
    var x, rest := args[0], args[1..];
    if letter == 'c' && x.Letter? { return Item([x.c], rest); }
    if letter == 's' && x.Text? { return Item(x.s, rest); }
    if letter == 'c' || letter == 's' || !x.Num? { return BadArg; }
    var digits, count;
    if letter == 'i' || letter == 'd' {
      if !IsSigned(x) { return BadArg; }
      digits, count := PrintDecimal(x.v, padc, padn);
    } else {
      if !IsUnsigned(x) { return BadArg; }
      if letter == 'p' {
        digits, count := UnumPrint(x.v, 16, padc, padn - 2);
        digits := "0x" + digits;
      } else {
        digits, count := UnumPrint(x.v, if letter == 'x' then 16 else 10, padc, padn);
      }
    }
    r := Item(digits, rest);
  }

  // ----- whole formats -----

  function Prefixed(out: string, r: Output): Output {
    match r
    case Done(t) => Done(out + t)
    case Failed(t) => Failed(out + t)
    case Undefined => Undefined
  }

  lemma PrefixedTwice(a: string, b: string, r: Output)
    ensures Prefixed(a, Prefixed(b, r)) == Prefixed(a + b, r)
  {
    if !r.Undefined? {
      Assoc(a, b, r.text);
    }
  }

  /** What the format sends out from index i on; `padc` is left over from earlier conversions. */
  function Format(fmt: string, i: nat, padc: char, args: seq<Arg>, target: Machine): Output
    requires i <= |fmt|
    decreases |fmt| - i
  {
    if At(fmt, i) == '\0' then Done("")
    else if At(fmt, i) != '%' then Prefixed([fmt[i]], Format(fmt, i + 1, padc, args, target))
    else
      var f := ReadFlags(fmt, i + 1, padc, 0, target);
      if f.TooWide? then Undefined
      else
        match Convert(At(fmt, f.at), f.padc, f.padn, args)
        case Item(text, rest) => Prefixed(text, Format(fmt, f.at + 1, f.padc, rest, target))
        case Unknown => Failed("")
        case BadArg => Undefined
  }

  method ScanFlags(fmt: string, from: nat, padc0: char, target: Machine) returns (f: Flags)
    requires from <= |fmt|
    ensures f == ReadFlags(fmt, from, padc0, 0, target)
  {
    var i, padc, padn := from, padc0, 0;
    while At(fmt, i) == '0' || IsLength(At(fmt, i))
      invariant from <= i <= |fmt|
      invariant ReadFlags(fmt, from, padc0, 0, target) == ReadFlags(fmt, i, padc, padn, target)
      decreases |fmt| - i
    {
      if At(fmt, i) == '0' {
        var ok;
        ok, padn, i := ScanWidth(fmt, i + 1, target.maxInt);
        padc := '0';
        if !ok { return TooWide; }
      } else {
        i := i + 1;
      }
    }
    f := Flags(i, padc, padn);
  }

  /** vprintf, lines 118-245. */
  method VPrintf(fmt: string, args: seq<Arg>, target: Machine) returns (r: Output)
    ensures r == Format(fmt, 0, '\0', args, target)
    ensures forall pieces :: PiecesOk(pieces) && FormatText(pieces) == fmt ==> Meant(pieces, args, target, r)
  {
    forall pieces | PiecesOk(pieces) && FormatText(pieces) == fmt
      ensures Meant(pieces, args, target, Format(fmt, 0, '\0', args, target))
    {
      FormatMeans(pieces, args, target);
    }
    var out, i, padc, rest := "", 0, '\0', args;
    while At(fmt, i) != '\0'
      invariant i <= |fmt|
      invariant Format(fmt, 0, '\0', args, target) == Prefixed(out, Format(fmt, i, padc, rest, target))
      decreases |fmt| - i
    {
      var text := [fmt[i]];
      if At(fmt, i) == '%' {
        var f := ScanFlags(fmt, i + 1, padc, target);
        if f.TooWide? { return Undefined; }
        var item := ConvertOne(At(fmt, f.at), f.padc, f.padn, rest);
        if item.Unknown? { return Failed(out); }
        if item.BadArg? { return Undefined; }
        text, rest, padc, i := item.text, item.rest, f.padc, f.at;
      }
      i := i + 1;
      PrefixedTwice(out, text, Format(fmt, i, padc, rest, target));
      out := out + text;
    }
    r := Done(out);
  }

  // ----- formats built from pieces -----

  /** A character for itself, `%%`, or a conversion with an optional zero-pad width and length letters. */
  datatype Piece = Literal(c: char) | Percent | Conversion(zero: bool, width: nat, longs: string, letter: char)

  predicate PieceOk(p: Piece) {
    match p
    case Literal(c) => c != '%' && c != '\0'
    case Percent => true
    case Conversion(_, _, longs, letter) =>
      && (letter == 'd' || letter == 'i' || letter == 'u' || letter == 'x'
          || letter == 'p' || letter == 'c' || letter == 's')
      && forall k :: 0 <= k < |longs| ==> longs[k] == 'l' || longs[k] == 'z'
  }

  function WidthText(zero: bool, width: nat): string { if zero then "0" + Digits(width, 10) else "" }

  function PieceText(p: Piece): string {
    match p
    case Literal(c) => [c]
    case Percent => "%%"
    case Conversion(zero, width, longs, letter) => "%" + (WidthText(zero, width) + (longs + [letter]))
  }

  function FormatText(pieces: seq<Piece>): string {
    if pieces == [] then "" else PieceText(pieces[0]) + FormatText(pieces[1..])
  }

  /** What a piece stands for, whatever came before it. */
  function PieceItem(p: Piece, args: seq<Arg>, target: Machine): Item {
    match p
    case Literal(c) => Item([c], args)
    case Percent => Item("%", args)
    case Conversion(zero, width, _, letter) =>
      if zero && width > target.maxInt then BadArg else Convert(letter, '0', if zero then width else 0, args)
  }

  function Shown(pieces: seq<Piece>, args: seq<Arg>, target: Machine): Output {
    if pieces == [] then Done("")
    else
      match PieceItem(pieces[0], args, target)
      case Item(text, rest) => Prefixed(text, Shown(pieces[1..], rest, target))
      case _ => Undefined
  }

  /** Without a width the pad character left over from earlier conversions does not matter. */
  lemma NoWidthNoPad(letter: char, a: char, b: char, args: seq<Arg>)
    ensures Convert(letter, a, 0, args) == Convert(letter, b, 0, args)
  {
  }

  lemma {:induction false} ReadLongs(fmt: string, i: nat, longs: string, padc: char, padn: nat, target: Machine)
    requires Stands(fmt, i, longs) && forall k :: 0 <= k < |longs| ==> IsLength(longs[k])
    ensures ReadFlags(fmt, i, padc, padn, target) == ReadFlags(fmt, i + |longs|, padc, padn, target)
    decreases |longs|
  {
    if longs != "" {
      assert fmt[i + 0] == longs[0];
      assert [longs[0]] + longs[1..] == longs;
      StandsParts(fmt, i, [longs[0]], longs[1..]);
      ReadLongs(fmt, i + 1, longs[1..], padc, padn, target);
    }
  }

  /** A width written as digits is the width read, all of it. */
  lemma WidthAsWritten(fmt: string, i: nat, w: nat)
    requires Stands(fmt, i, Digits(w, 10)) && !IsDigit(At(fmt, i + |Digits(w, 10)|))
    ensures Accumulate(fmt, i, 0) == w && DigitsEnd(fmt, i) == i + |Digits(w, 10)|
  {
    var d := Digits(w, 10);
    assert Padded(w, 10, '0', 0) == d;
    ReadPadded(fmt, i, w, 0);
    DigitsAreDigits(w);
    forall k | i <= k < i + |d|
      ensures IsDigit(fmt[k])
    {
      assert fmt[i + (k - i)] == d[k - i];
    }
  }

  /** The optional `0` flag with its width. */
  lemma ReadWidth(fmt: string, i: nat, zero: bool, width: nat, padc: char, target: Machine)
    requires Stands(fmt, i, WidthText(zero, width)) && !IsDigit(At(fmt, i + |WidthText(zero, width)|))
    ensures ReadFlags(fmt, i, padc, 0, target) ==
      if zero && width > target.maxInt then TooWide
      else
        var rest := i + |WidthText(zero, width)|;
        ReadFlags(fmt, rest, if zero then '0' else padc, if zero then width else 0, target)
  {
    if zero {
      assert fmt[i + 0] == WidthText(zero, width)[0];
      StandsParts(fmt, i, "0", Digits(width, 10));
      WidthAsWritten(fmt, i + 1, width);
    }
  }

  lemma ReadConversion(fmt: string, i: nat, p: Piece, padc: char, target: Machine)
    requires p.Conversion? && PieceOk(p) && Stands(fmt, i, PieceText(p))
    ensures fmt[i] == '%'
    ensures ReadFlags(fmt, i + 1, padc, 0, target) ==
              if p.zero && p.width > target.maxInt then TooWide
              else Flags(i + |PieceText(p)| - 1, if p.zero then '0' else padc, if p.zero then p.width else 0)
    ensures fmt[i + |PieceText(p)| - 1] == p.letter
  {
    var wide, tail := WidthText(p.zero, p.width), p.longs + [p.letter];
    assert fmt[i + 0] == PieceText(p)[0];
    StandsParts(fmt, i, "%", wide + tail);
    StandsParts(fmt, i + 1, wide, tail);
    var at := i + 1 + |wide|;
    StandsParts(fmt, at, p.longs, [p.letter]);
    assert fmt[at + |p.longs| + 0] == [p.letter][0];
    assert fmt[at + 0] == tail[0];
    ReadWidth(fmt, i + 1, p.zero, p.width, padc, target);
    ReadLongs(fmt, at, p.longs, if p.zero then '0' else padc, if p.zero then p.width else 0, target);
  }

  /** What the format sends out at a conversion whose flags have been read. */
  lemma ConversionStep(fmt: string, i: nat, f: Flags, padc: char, args: seq<Arg>, target: Machine)
    requires i < |fmt| && fmt[i] == '%' && f == ReadFlags(fmt, i + 1, padc, 0, target)
    ensures f.TooWide? ==> Format(fmt, i, padc, args, target) == Undefined
    ensures f.Flags? ==>
      match Convert(At(fmt, f.at), f.padc, f.padn, args)
      case Item(text, rest) =>
        Format(fmt, i, padc, args, target) == Prefixed(text, Format(fmt, f.at + 1, f.padc, rest, target))
      case Unknown => Format(fmt, i, padc, args, target) == Failed("")
      case BadArg => Format(fmt, i, padc, args, target) == Undefined
  {
  }

  /** The piece at index i is dealt with; only the pad character that is left over depends on it. */
  ghost predicate Consumes(fmt: string, i: nat, next: nat, item: Item, padc: char, after: char,
                           args: seq<Arg>, target: Machine)
    requires i <= |fmt| && next <= |fmt|
  {
    match item
    case Item(text, rest) =>
      Format(fmt, i, padc, args, target) == Prefixed(text, Format(fmt, next, after, rest, target))
    case _ => Format(fmt, i, padc, args, target) == Undefined
  }

  lemma ConversionDone(fmt: string, i: nat, p: Piece, padc: char, args: seq<Arg>, target: Machine)
    requires p.Conversion? && PieceOk(p) && Stands(fmt, i, PieceText(p))
    ensures var after := if p.zero then '0' else padc;
      Consumes(fmt, i, i + |PieceText(p)|, PieceItem(p, args, target), padc, after, args, target)
  {
    ReadConversion(fmt, i, p, padc, target);
    NoWidthNoPad(p.letter, padc, '0', args);
    ConversionStep(fmt, i, ReadFlags(fmt, i + 1, padc, 0, target), padc, args, target);
  }

  lemma PieceStep(fmt: string, i: nat, p: Piece, padc: char, args: seq<Arg>, target: Machine) returns (after: char)
    requires PieceOk(p) && Stands(fmt, i, PieceText(p))
    ensures Consumes(fmt, i, i + |PieceText(p)|, PieceItem(p, args, target), padc, after, args, target)
  {
    after := padc;
    match p
    case Literal(c) => assert fmt[i + 0] == [c][0];
    case Percent =>
      assert fmt[i + 0] == "%%"[0] && fmt[i + 1] == "%%"[1];
      ConversionStep(fmt, i, Flags(i + 1, padc, 0), padc, args, target);
    case Conversion(zero, width, longs, letter) =>
      ConversionDone(fmt, i, p, padc, args, target);
      after := if zero then '0' else padc;
  }

  lemma ShownFirst(p: Piece, rest: seq<Piece>, args: seq<Arg>, target: Machine)
    ensures var item := PieceItem(p, args, target);
      Shown([p] + rest, args, target) ==
        if item.Item? then Prefixed(item.text, Shown(rest, item.rest, target)) else Undefined
  {
    assert ([p] + rest)[1..] == rest;
  }

  lemma FormatTextFirst(p: Piece, rest: seq<Piece>)
    ensures FormatText([p] + rest) == PieceText(p) + FormatText(rest)
  {
    assert ([p] + rest)[1..] == rest;
  }

  /** The format from index i on. */
  ghost predicate Ends(fmt: string, i: nat, text: string) { Stands(fmt, i, text) && i + |text| == |fmt| }

  predicate PiecesOk(pieces: seq<Piece>) { forall k :: 0 <= k < |pieces| ==> PieceOk(pieces[k]) }

  lemma FormatEnd(fmt: string, padc: char, args: seq<Arg>, target: Machine)
    ensures Format(fmt, |fmt|, padc, args, target) == Done("")
  {
  }

  /**
    A piece and the pieces behind it. Both the format and the pieces send `text` and go on with the
    arguments `left`, or both are undefined.
   */
  lemma FormatFirst(fmt: string, i: nat, p: Piece, rest: seq<Piece>, padc: char, args: seq<Arg>, target: Machine)
    returns (ok: bool, text: string, left: seq<Arg>, after: char)
    requires PieceOk(p) && Ends(fmt, i, PieceText(p) + FormatText(rest))
    ensures Ends(fmt, i + |PieceText(p)|, FormatText(rest))
    ensures Format(fmt, i, padc, args, target) ==
              if ok then Prefixed(text, Format(fmt, i + |PieceText(p)|, after, left, target)) else Undefined
    ensures Shown([p] + rest, args, target) == if ok then Prefixed(text, Shown(rest, left, target)) else Undefined
  {
    StandsParts(fmt, i, PieceText(p), FormatText(rest));
    after := PieceStep(fmt, i, p, padc, args, target);
    ShownFirst(p, rest, args, target);
    var item := PieceItem(p, args, target);
    ok := item.Item?;
    text, left := if ok then item.text else "", if ok then item.rest else [];
  }

  lemma EndsInside(fmt: string, i: nat, text: string)
    requires Ends(fmt, i, text)
    ensures i <= |fmt|
  {
  }

  lemma FirstOk(pieces: seq<Piece>)
    requires pieces != [] && PiecesOk(pieces)
    ensures PieceOk(pieces[0]) && PiecesOk(pieces[1..])
  {
  }

  lemma FormatNothing(fmt: string, i: nat, padc: char, args: seq<Arg>, target: Machine)
    requires Ends(fmt, i, FormatText([]))
    ensures Format(fmt, i, padc, args, target) == Shown([], args, target)
  {
  }

  lemma {:induction false} FormatFrom(fmt: string, i: nat, pieces: seq<Piece>,
                                      padc: char, args: seq<Arg>, target: Machine)
    requires PiecesOk(pieces) && Ends(fmt, i, FormatText(pieces))
    ensures i <= |fmt| && Format(fmt, i, padc, args, target) == Shown(pieces, args, target)
    decreases |pieces|
  {
    hide *;
    EndsInside(fmt, i, FormatText(pieces));
    if pieces == [] {
      FormatNothing(fmt, i, padc, args, target);
    } else {
      var p, rest := pieces[0], pieces[1..];
      assert pieces == [p] + rest;
      FirstOk(pieces);
      FormatTextFirst(p, rest);
      var ok, text, left, after := FormatFirst(fmt, i, p, rest, padc, args, target);
      if ok {
        FormatFrom(fmt, i + |PieceText(p)|, rest, after, left, target);
      }
    }
  }

  /**
    Each piece of a format means the same wherever it stands: the output is that of the pieces one after
    the other, undefined from a piece on that has no argument of its type or a width that overflows.
   */
  lemma FormatOfPieces(pieces: seq<Piece>, args: seq<Arg>, target: Machine)
    requires PiecesOk(pieces)
    ensures Format(FormatText(pieces), 0, '\0', args, target) == Shown(pieces, args, target)
  {
    FormatFrom(FormatText(pieces), 0, pieces, '\0', args, target);
  }

  // ----- what formats mean, letter by letter -----

  /** The argument has the type the letter asks for. */
  predicate Suits(letter: char, x: Arg) {
    if letter == 'c' then x.Letter?
    else if letter == 's' then x.Text?
    else if letter == 'd' || letter == 'i' then x.Num? && -0x8000_0000_0000_0000 < x.v < 0x8000_0000_0000_0000
    else x.Num? && 0 <= x.v < 0x1_0000_0000_0000_0000
  }

  /** A sign for negative numbers, and the digits behind it. */
  ghost predicate ShowsSigned(t: string, v: int, width: int) {
    if v < 0 then t != "" && t[0] == '-' && Shows(t[1..], -v, 10, '0', width - 1) else Shows(t, v, 10, '0', width)
  }

  ghost predicate ShowsPointer(t: string, v: nat, width: int) {
    |t| >= 2 && t[0] == '0' && t[1] == 'x' && Shows(t[2..], v, 16, '0', width - 2)
  }

  /** The text of one conversion: u is radix 10, x radix 16, p radix 16 behind 0x, d and i signed radix 10. */
  ghost predicate Sends(letter: char, width: int, x: Arg, t: string) {
    if letter == 'd' || letter == 'i' then x.Num? && ShowsSigned(t, x.v, width)
    else if letter == 'u' then IsUnsigned(x) && Shows(t, x.v, 10, '0', width)
    else if letter == 'x' then IsUnsigned(x) && Shows(t, x.v, 16, '0', width)
    else if letter == 'p' then IsUnsigned(x) && ShowsPointer(t, x.v, width)
    else if letter == 'c' then x.Letter? && t == [x.c]
    else letter == 's' && x.Text? && t == x.s
  }

  /** A conversion takes one argument, the other pieces none. */
  function Taken(p: Piece): nat { if p.Conversion? then 1 else 0 }

  /** The piece can be sent: it has an argument of its type and a width that an int can hold. */
  predicate CanSend(p: Piece, args: seq<Arg>, target: Machine) {
    p.Conversion? ==> (p.zero ==> p.width <= target.maxInt) && args != [] && Suits(p.letter, args[0])
  }

  ghost predicate PieceSends(p: Piece, args: seq<Arg>, t: string) {
    match p
    case Literal(c) => t == [c]
    case Percent => t == "%"
    case Conversion(zero, width, _, letter) => args != [] && Sends(letter, if zero then width else 0, args[0], t)
  }

  predicate AllCanSend(pieces: seq<Piece>, args: seq<Arg>, target: Machine) {
    pieces != [] ==>
      && CanSend(pieces[0], args, target) && Taken(pieces[0]) <= |args|
      && AllCanSend(pieces[1..], args[Taken(pieces[0])..], target)
  }

  /** t is the texts of the pieces one after the other, each with the next arguments. */
  ghost predicate AllSend(pieces: seq<Piece>, args: seq<Arg>, t: string) {
    if pieces == [] then t == ""
    else
      exists k :: 0 <= k <= |t| && PieceSends(pieces[0], args, t[..k]) && Taken(pieces[0]) <= |args|
        && AllSend(pieces[1..], args[Taken(pieces[0])..], t[k..])
  }

  lemma SignBefore(v: int, width: int, t: string)
    requires v < 0 && Shows(t, -v, 10, '0', width - 1)
    ensures ShowsSigned("-" + t, v, width)
  {
    assert ("-" + t)[1..] == t;
  }

  lemma PrintedShows(v: int, width: int)
    ensures ShowsSigned(Printed(v, '0', width), v, width)
  {
    if v < 0 {
      PaddedShows(-v, 10, '0', width - 1);
      SignBefore(v, width, Padded(-v, 10, '0', width - 1));
    } else {
      PaddedShows(v, 10, '0', width);
    }
  }

  lemma PrefixBefore(v: nat, width: int, t: string)
    requires Shows(t, v, 16, '0', width - 2)
    ensures ShowsPointer("0x" + t, v, width)
  {
    assert ("0x" + t)[2..] == t;
  }

  lemma ConvertMeans(letter: char, width: int, args: seq<Arg>)
    requires IsConversion(letter)
    ensures var r := Convert(letter, '0', width, args);
      if args != [] && Suits(letter, args[0])
      then r.Item? && r.rest == args[1..] && Sends(letter, width, args[0], r.text)
      else r.BadArg?
  {
    hide Padded, Printed, Shows, ShowsSigned, ShowsPointer;
    if args != [] && Suits(letter, args[0]) && args[0].Num? {
      var v := args[0].v;
      if letter == 'd' || letter == 'i' {
        PrintedShows(v, width);
      } else if letter == 'p' {
        PaddedShows(v, 16, '0', width - 2);
        PrefixBefore(v, width, Padded(v, 16, '0', width - 2));
      } else {
        PaddedShows(v, if letter == 'x' then 16 else 10, '0', width);
      }
    }
  }

  lemma PieceMeans(p: Piece, args: seq<Arg>, target: Machine)
    requires PieceOk(p)
    ensures var r := PieceItem(p, args, target);
      if CanSend(p, args, target)
      then Taken(p) <= |args| && r.Item? && r.rest == args[Taken(p)..] && PieceSends(p, args, r.text)
      else !r.Item?
  {
    if p.Conversion? {
      ConvertMeans(p.letter, if p.zero then p.width else 0, args);
    }
  }

  lemma SendMore(p: Piece, rest: seq<Piece>, args: seq<Arg>, a: string, b: string)
    requires PieceSends(p, args, a) && Taken(p) <= |args| && AllSend(rest, args[Taken(p)..], b)
    ensures AllSend([p] + rest, args, a + b)
  {
    var t, all := a + b, [p] + rest;
    assert t[..|a|] == a && t[|a|..] == b;
    assert all[0] == p && all[1..] == rest;
  }

  lemma CanSendFirst(p: Piece, rest: seq<Piece>, args: seq<Arg>, target: Machine)
    requires Taken(p) <= |args|
    ensures AllCanSend([p] + rest, args, target) <==>
              CanSend(p, args, target) && AllCanSend(rest, args[Taken(p)..], target)
  {
    assert ([p] + rest)[1..] == rest;
  }

  lemma CannotSend(p: Piece, rest: seq<Piece>, args: seq<Arg>, target: Machine)
    requires !CanSend(p, args, target)
    ensures !AllCanSend([p] + rest, args, target)
  {
  }

  lemma NothingMeans(args: seq<Arg>, target: Machine)
    ensures Shown([], args, target).Done? && AllSend([], args, Shown([], args, target).text)
    ensures AllCanSend([], args, target)
  {
  }

  lemma {:induction false} ShownMeans(pieces: seq<Piece>, args: seq<Arg>, target: Machine)
    requires PiecesOk(pieces)
    ensures var r := Shown(pieces, args, target);
      if AllCanSend(pieces, args, target) then r.Done? && AllSend(pieces, args, r.text) else r.Undefined?
  {
    hide *;
    if pieces == [] {
      NothingMeans(args, target);
    } else {
      var p, rest := pieces[0], pieces[1..];
      assert pieces == [p] + rest;
      FirstOk(pieces);
      ShownFirst(p, rest, args, target);
      PieceMeans(p, args, target);
      if CanSend(p, args, target) {
        var left, item := args[Taken(p)..], PieceItem(p, args, target);
        CanSendFirst(p, rest, args, target);
        ShownMeans(rest, left, target);
        if AllCanSend(rest, left, target) {
          SendMore(p, rest, args, item.text, Shown(rest, left, target).text);
          SentText(item.text, Shown(rest, left, target));
        } else {
          SentText(item.text, Shown(rest, left, target));
        }
      } else {
        CannotSend(p, rest, args, target);
      }
    }
  }

  lemma SentText(text: string, r: Output)
    ensures Prefixed(text, r) ==
      if r.Done? then Done(text + r.text) else if r.Failed? then Failed(text + r.text) else Undefined
  {
  }

  /** All is sent when it can be, and otherwise the format is undefined in C. */
  ghost predicate Meant(pieces: seq<Piece>, args: seq<Arg>, target: Machine, r: Output) {
    if AllCanSend(pieces, args, target) then r.Done? && AllSend(pieces, args, r.text) else r.Undefined?
  }

  /**
    What vprintf sends for a format made of pieces: if every conversion finds an argument of its type and
    no width overflows, the texts of the pieces in order, and otherwise the format is undefined in C.
   */
  lemma FormatMeans(pieces: seq<Piece>, args: seq<Arg>, target: Machine)
    requires PiecesOk(pieces)
    ensures Meant(pieces, args, target, Format(FormatText(pieces), 0, '\0', args, target))
  {
    FormatOfPieces(pieces, args, target);
    ShownMeans(pieces, args, target);
  }

  lemma UnknownAt(fmt: string, i: nat, padc: char, args: seq<Arg>, target: Machine)
    requires i < |fmt| && fmt[i] == '%' && !IsConversion(At(fmt, i + 1))
    requires At(fmt, i + 1) != '%' && !IsLength(At(fmt, i + 1)) && At(fmt, i + 1) != '0'
    ensures Format(fmt, i, padc, args, target) == Failed("")
  {
    ConversionStep(fmt, i, Flags(i + 1, padc, 0), padc, args, target);
  }

  /** A letter that is none of the conversions, or the end of the format behind a %, stops with -1. */
  lemma UnknownFails(before: string, tail: string, args: seq<Arg>, target: Machine)
    requires Plain(before)
    requires var c := At(tail, 0);
      && c != 'i' && c != 'd' && c != 'c' && c != 's' && c != 'p' && c != 'x' && c != 'u'
      && c != '%' && c != 'l' && c != 'z' && c != '0'
    ensures Format(before + "%" + tail, 0, '\0', args, target) == Failed(before)
  {
    StandsEnds(before, "%", tail);
    StandsInside(before, "%", tail);
    assert (before + "%" + tail)[|before| + 0] == "%"[0];
    FailsBehind(before + "%" + tail, before, args, target);
  }

  lemma FailsBehind(fmt: string, before: string, args: seq<Arg>, target: Machine)
    requires Plain(before) && Stands(fmt, 0, before) && |before| < |fmt| && fmt[|before|] == '%'
    requires var c := At(fmt, |before| + 1); !IsConversion(c) && c != '%' && !IsLength(c) && c != '0'
    ensures Format(fmt, 0, '\0', args, target) == Failed(before)
  {
    LiteralRun(fmt, 0, before, '\0', args, target);
    UnknownAt(fmt, |before|, '\0', args, target);
    assert before + "" == before;
  }

  // ----- format, print and parse -----

  /** Characters that a format sends out as they are. */
  predicate Plain(t: string) { forall k :: 0 <= k < |t| ==> t[k] != '%' && t[k] != '\0' }

  lemma LiteralStep(fmt: string, i: nat, padc: char, args: seq<Arg>, target: Machine)
    requires i < |fmt| && fmt[i] != '%' && fmt[i] != '\0'
    ensures Format(fmt, i, padc, args, target) == Prefixed([fmt[i]], Format(fmt, i + 1, padc, args, target))
  {
  }

  lemma {:induction false} LiteralUpTo(fmt: string, i: nat, j: nat, padc: char, args: seq<Arg>, target: Machine)
    requires i <= j <= |fmt| && forall k :: i <= k < j ==> fmt[k] != '%' && fmt[k] != '\0'
    ensures Format(fmt, i, padc, args, target) == Prefixed(fmt[i..j], Format(fmt, j, padc, args, target))
    decreases j - i
  {
    if i < j {
      LiteralStep(fmt, i, padc, args, target);
      LiteralUpTo(fmt, i + 1, j, padc, args, target);
      PrefixedTwice([fmt[i]], fmt[i + 1..j], Format(fmt, j, padc, args, target));
      assert [fmt[i]] + fmt[i + 1..j] == fmt[i..j];
    } else {
      NothingSent(Format(fmt, i, padc, args, target));
      assert fmt[i..j] == "";
    }
  }

  lemma NothingSent(r: Output)
    ensures Prefixed("", r) == r
  {
    if !r.Undefined? {
      assert "" + r.text == r.text;
    }
  }

  lemma LiteralRun(fmt: string, i: nat, t: string, padc: char, args: seq<Arg>, target: Machine)
    requires Stands(fmt, i, t) && Plain(t)
    ensures Format(fmt, i, padc, args, target) == Prefixed(t, Format(fmt, i + |t|, padc, args, target))
  {
    forall k | i <= k < i + |t|
      ensures fmt[k] != '%' && fmt[k] != '\0'
    {
      assert fmt[i + (k - i)] == t[k - i];
    }
    assert fmt[i..i + |t|] == t;
    LiteralUpTo(fmt, i, i + |t|, padc, args, target);
  }

  /** One conversion, then text to the end of the format. */
  lemma FormatLast(fmt: string, i: nat, p: Piece, rest: string, padc: char, args: seq<Arg>, target: Machine)
    requires p.Conversion? && PieceOk(p) && PieceItem(p, args, target).Item? && Plain(rest)
    requires Stands(fmt, i, PieceText(p)) && Stands(fmt, i + |PieceText(p)|, rest)
    requires i + |PieceText(p)| + |rest| == |fmt|
    ensures Format(fmt, i, padc, args, target) == Prefixed(PieceItem(p, args, target).text, Prefixed(rest, Done("")))
  {
    var item, after := PieceItem(p, args, target), if p.zero then '0' else padc;
    ConversionDone(fmt, i, p, padc, args, target);
    LiteralRun(fmt, i + |PieceText(p)|, rest, after, item.rest, target);
    FormatEnd(fmt, after, item.rest, target);
  }

  lemma FormatAround(fmt: string, ws: string, p: Piece, rest: string, args: seq<Arg>, target: Machine)
    requires p.Conversion? && PieceOk(p) && PieceItem(p, args, target).Item? && Plain(ws) && Plain(rest)
    requires Stands(fmt, 0, ws) && Stands(fmt, |ws|, PieceText(p)) && Stands(fmt, |ws| + |PieceText(p)|, rest)
    requires |ws| + |PieceText(p)| + |rest| == |fmt|
    ensures Format(fmt, 0, '\0', args, target) == Done(ws + PieceItem(p, args, target).text + rest)
  {
    var text := PieceItem(p, args, target).text;
    LiteralRun(fmt, 0, ws, '\0', args, target);
    FormatLast(fmt, |ws|, p, rest, '\0', args, target);
    PrefixedTwice(ws, text, Prefixed(rest, Done("")));
    PrefixedTwice(ws + text, rest, Done(""));
  }

  lemma NumberPiece(w: nat)
    ensures PieceText(Conversion(true, w, "", 'd')) == "%0" + Digits(w, 10) + "d"
  {
    assert "%" + (("0" + Digits(w, 10)) + ("" + "d")) == "%0" + Digits(w, 10) + "d";
  }

  lemma FormatNumber(num: int, w: nat, ws: string, rest: string, target: Machine)
    requires IsSigned(Num(num)) && w <= target.maxInt && Plain(ws) && Plain(rest)
    ensures var fmt := ws + ("%0" + Digits(w, 10) + "d") + rest;
      Format(fmt, 0, '\0', [Num(num)], target) == Done(ws + Printed(num, '0', w) + rest)
  {
    var p := Conversion(true, w, "", 'd');
    NumberPiece(w);
    StandsInside(ws, PieceText(p), rest);
    StandsEnds(ws, PieceText(p), rest);
    FormatAround(ws + PieceText(p) + rest, ws, p, rest, [Num(num)], target);
  }

  lemma StandsEnds(a: string, p: string, b: string)
    ensures Stands(a + p + b, 0, a) && Stands(a + p + b, |a| + |p|, b)
  {
  }

  /** vprintf of `%0<width>d` and then atol of what was sent out gives the number back. */
  method PrintThenRead(num: int, w: nat, ws: string, rest: string, target: Machine, maxLong: nat) returns (r: Parsed)
    requires IsSigned(Num(num)) && Magnitude(num) <= maxLong && w <= target.maxInt
    requires forall k :: 0 <= k < |ws| ==> IsSpace(ws[k])
    requires !IsDigit(At(rest, 0)) && Plain(rest)
    ensures r == Value(num)
  {
    FormatNumber(num, w, ws, rest, target);
    PrintThenParse(num, w, ws, rest, maxLong);
    var sent := VPrintf(ws + ("%0" + Digits(w, 10) + "d") + rest, [Num(num)], target);
    r := Atol(sent.text, maxLong);
  }
}
