/**
 What printed text means, in terms a caller of `g_fprintf` would use: the sign, digits and padding of a number, the side
 a string is filled on, and which conversions a format made of given parts asks for.
 */
module Formats {
  import opened Words
  import opened LibC

  // ----- digits

  /** A digit of a numeral in this base. */
  predicate IsIn(c: char, base: nat) {
    || ('0' <= c <= '9' && c as int - '0' as int < base)
    || ('a' <= c <= 'f' && c as int - 'a' as int + 10 < base)
  }

  predicate AllIn(s: seq<char>, base: nat) {
    forall i | 0 <= i < |s| :: IsIn(s[i], base)
  }

  /** What digits are worth, the first one most. */
  function Worth(s: seq<char>, base: nat): nat
    requires AllIn(s, base)
  {
    if s == [] then 0
    else
      var c := s[|s| - 1];
      Worth(s[..|s| - 1], base) * base + if c <= '9' then c as int - '0' as int else c as int - 'a' as int + 10
  }

  lemma OneDigitMore(s: seq<char>, t: nat, base: nat)
    requires 2 <= base <= 16 && AllIn(s, base) && t < base
    ensures AllIn(s + [Digit(t)], base) && Worth(s + [Digit(t)], base) == Worth(s, base) * base + t
  {
    assert (s + [Digit(t)])[..|s|] == s;
  }

  lemma {:induction false} NumeralIsWorth(n: nat, base: nat)
    requires 2 <= base <= 16
    ensures AllIn(Numeral(n, base), base) && Worth(Numeral(n, base), base) == n
    ensures Numeral(n, base)[0] == '0' ==> Numeral(n, base) == "0"
    decreases n
  {
    hide Numeral, Worth, AllIn, Digit;
    NumeralUnfolds(n, base);
    QuotientSmaller(n, base);
    NumeralMeans(n, base);
    if n < base {
      NoDigits(base);
      OneDigitMore([], n, base);
      assert [] + [Digit(n)] == [Digit(n)];
      ZeroDigit(n);
    } else {
      NumeralIsWorth(n / base, base);
      OneDigitMore(Numeral(n / base, base), n % base, base);
    }
  }

  lemma NoDigits(base: nat)
    ensures AllIn([], base) && Worth([], base) == 0
  {
  }

  lemma ZeroDigit(t: nat)
    requires t < 16
    ensures Digit(t) == '0' <==> t == 0
  {
  }

  /** Zeros in front are worth nothing. */
  lemma {:induction false} ZerosInFront(k: nat, s: seq<char>, base: nat)
    requires 2 <= base && AllIn(s, base)
    ensures AllIn(Repeat('0', k) + s, base) && Worth(Repeat('0', k) + s, base) == Worth(s, base)
    decreases k + |s|
  {
    var whole := Repeat('0', k) + s;
    if s != [] {
      ZerosInFront(k, s[..|s| - 1], base);
      assert whole[..|whole| - 1] == Repeat('0', k) + s[..|s| - 1];
    } else if k > 0 {
      RepeatOneMore('0', k);
      ZerosInFront(k - 1, s, base);
      assert whole[..|whole| - 1] == Repeat('0', k - 1) + s;
    }
  }

  // ----- numbers

  function AtMost31(justify: int): nat {
    if justify > 31 || justify < -31 then 31 else if justify < 0 then -justify else justify
  }

  function Base(fmt: char): nat {
    if fmt == 'x' || fmt == 'p' then 16 else 10
  }

  /**
   The text of a number: spaces, a sign exactly for a signed conversion of a negative number, digits worth its
   magnitude, and spaces, which are behind it for negative widths and otherwise in front. Digits fill a width, at most
   31, together with the spaces; zeros instead of spaces stand in front for pointers, and where hexadecimal asks for it.
   */
  lemma NumberMeans(n: Word, fmt: char, justify: int, zeropad: bool)
    returns (before: nat, digits: seq<char>, after: nat)
    requires fmt in {'d', 'i', 'u', 'x', 'p'}
    ensures
      var minus := (fmt == 'd' || fmt == 'i') && n >= 0x8000_0000;
      && AllIn(digits, Base(fmt)) && digits != []
      && Formatted(n, fmt, justify, zeropad)
         == Repeat(' ', before) + (if minus then "-" else "") + digits + Repeat(' ', after)
      && Worth(digits, Base(fmt)) == (if minus then 0x1_0000_0000 - n else n)
    ensures if justify < 0 then before == 0 else after == 0
    ensures fmt in {'d', 'i', 'u'} ==>
              && (digits[0] == '0' ==> digits == "0")
              && before + after == if AtMost31(justify) > |digits| then AtMost31(justify) - |digits| else 0
    ensures fmt == 'p' ==> before == after == 0 && |digits| == 8
    ensures fmt == 'x' && zeropad ==> before == after == 0 && |digits| >= AtMost31(justify)
    ensures fmt == 'x' && !zeropad ==>
              && (digits[0] == '0' ==> digits == "0")
              && before + after == if AtMost31(justify) > |digits| then AtMost31(justify) - |digits| else 0
  {
    hide Formatted, Worth, AllIn, Repeat, AtMost31;
    if fmt == 'p' || (fmt == 'x' && zeropad) {
      digits := ZeroFilled(n, fmt, justify, zeropad);
      before, after := 0, 0;
    } else {
      before, digits, after := SpaceFilled(n, fmt, justify, zeropad);
    }
  }

  lemma ZeroFilled(n: Word, fmt: char, justify: int, zeropad: bool) returns (digits: seq<char>)
    requires fmt == 'p' || (fmt == 'x' && zeropad)
    ensures AllIn(digits, 16) && digits != [] && Worth(digits, 16) == n
    ensures Formatted(n, fmt, justify, zeropad) == Repeat(' ', 0) + "" + digits + Repeat(' ', 0)
    ensures if fmt == 'p' then |digits| == 8 else |digits| >= AtMost31(justify)
  {
    hide Numeral, Worth, AllIn, Repeat, LeadingSpaces;
    var numeral := Numeral(n, 16);
    var zeros := Filler(n, fmt, justify, zeropad);
    digits := Body(n, fmt, justify, zeropad);
    assert Body(n, fmt, justify, zeropad) == zeros + numeral;
    NumeralIsWorth(n, 16);
    CoreLength(n, fmt);
    assert zeros == Repeat('0', |zeros|);
    ZerosInFront(|zeros|, numeral, 16);
    NumeralStart(n, 16);
    assert digits[0] != ' ';
    LeadingAre(digits, 0);
    assert Repeat(' ', 0) == [];
    assert [] + "" + digits + [] == digits;
    assert digits[0..] + [] == digits;
  }

  lemma SpaceFilled(n: Word, fmt: char, justify: int, zeropad: bool)
    returns (before: nat, digits: seq<char>, after: nat)
    requires fmt in {'d', 'i', 'u'} || (fmt == 'x' && !zeropad)
    ensures
      var minus := (fmt == 'd' || fmt == 'i') && n >= 0x8000_0000;
      && AllIn(digits, Base(fmt)) && digits != []
      && Formatted(n, fmt, justify, zeropad)
         == Repeat(' ', before) + (if minus then "-" else "") + digits + Repeat(' ', after)
      && Worth(digits, Base(fmt)) == (if minus then 0x1_0000_0000 - n else n)
    ensures if justify < 0 then before == 0 else after == 0
    ensures digits[0] == '0' ==> digits == "0"
    ensures before + after == if AtMost31(justify) > |digits| then AtMost31(justify) - |digits| else 0
  {
    hide Numeral, Worth, AllIn, Repeat, Filler, Core, Formatted, Missing, AtMost31;
    var minus := (fmt == 'd' || fmt == 'i') && n >= 0x8000_0000;
    var sign := if minus then "-" else "";
    digits := Numeral(if minus then 0x1_0000_0000 - n else n, Base(fmt));
    NumeralIsWorth(if minus then 0x1_0000_0000 - n else n, Base(fmt));
    CoreAndFiller(n, fmt, justify, zeropad);
    var k := Missing(AtMost31(justify), |digits|);
    NoSpaces();
    if justify < 0 {
      before, after := 0, k;
      LeftJustified(n, fmt, justify, zeropad);
      InFront(sign, digits, Repeat(' ', k));
    } else {
      before, after := k, 0;
      Behind(Repeat(' ', k), sign, digits);
      NotJustified(n, fmt, justify, zeropad);
    }
    MissingIs(AtMost31(justify), |digits|);
  }

  lemma MissingIs(width: nat, used: nat)
    ensures Missing(width, used) == if width > used then width - used else 0
  {
  }

  lemma NoSpaces()
    ensures Repeat(' ', 0) == []
  {
  }

  lemma InFront(a: seq<char>, b: seq<char>, c: seq<char>)
    ensures [] + a + b + c == a + b + c
  {
  }

  lemma Behind(a: seq<char>, b: seq<char>, c: seq<char>)
    ensures a + b + c + [] == a + (b + c)
  {
  }

  lemma NotJustified(n: Word, fmt: char, justify: int, zeropad: bool)
    requires (Decimal(fmt) || Hexadecimal(fmt)) && justify >= 0
    ensures Formatted(n, fmt, justify, zeropad) == Filler(n, fmt, justify, zeropad) + Core(n, fmt)
  {
    hide Filler, Core, LeadingSpaces;
  }

  lemma CoreAndFiller(n: Word, fmt: char, justify: int, zeropad: bool)
    requires fmt in {'d', 'i', 'u'} || (fmt == 'x' && !zeropad)
    ensures
      var minus := (fmt == 'd' || fmt == 'i') && n >= 0x8000_0000;
      var digits := Numeral(if minus then 0x1_0000_0000 - n else n, Base(fmt));
      && Core(n, fmt) == (if minus then "-" else "") + digits
      && Filler(n, fmt, justify, zeropad) == Repeat(' ', Missing(AtMost31(justify), |digits|))
  {
    hide Numeral, Repeat, Missing;
    assert "" + Numeral(n, Base(fmt)) == Numeral(n, Base(fmt));
  }

  // ----- formats, put together

  /** A part of a format: a character, a percent sign, or a conversion of the next argument. */
  datatype Part =
    | Text(c: char)
    | Percent
    | Conversion(minus: bool, zero: bool, width: nat, modifier: seq<char>, letter: char)
  {
    /** How it can be spelt: no width is none at all, and one of - and 0 at most. */
    predicate Valid() {
      match this
      case Text(c) => c != '%'
      case Percent => true
      case Conversion(minus, zero, width, modifier, letter) =>
        && !(minus && zero) && width < 0x8000_0000 && modifier in {"", "l", "z"}
        && !('0' <= letter <= '9') && letter !in {'-', '%', 'l', 'z'}
    }

    /** The field width with its sign. */
    function Justify(): int
      requires Conversion?
    {
      if minus then 0 - width else width
    }

    function Digits(): seq<char>
      requires Conversion?
    {
      (if zero then "0" else "") + (if width > 0 then Numeral(width, 10) else "")
    }

    function Spelt(): (s: seq<char>)
      ensures |s| > 0
    {
      match this
      case Text(c) => [c]
      case Percent => "%%"
      case Conversion(minus, _, _, modifier, letter) =>
        "%" + (if minus then "-" else "") + Digits() + modifier + [letter]
    }

    /** What it asks for, given the argument it would take. */
    function Asks(w: Word, memory: Word -> seq<char>): Piece {
      match this
      case Text(c) => Literal(c)
      case Percent => Literal('%')
      case Conversion(minus, zero, width, _, letter) =>
        if letter != 's' then Num(Formatted(w, letter, Justify(), zero))
        else
          var s := if w == 0 then "(null)" else memory(w);
          var missing := if width > |s| then width - |s| else 0;
          if minus then Str(0, s, missing) else Str(missing, s, 0)
    }
  }

  function SpeltAll(parts: seq<Part>): seq<char> {
    if parts == [] then [] else parts[0].Spelt() + SpeltAll(parts[1..])
  }

  function AskedFor(parts: seq<Part>, args: Args, k: nat): seq<Piece> {
    if parts == [] then []
    else
      [parts[0].Asks(args.word(k), args.memory)]
      + AskedFor(parts[1..], args, if parts[0].Conversion? then k + 1 else k)
  }

  lemma DigitsAre(p: Part)
    requires p.Conversion? && p.Valid()
    ensures AllDigits(p.Digits()) && Value(p.Digits(), 10) == p.width
  {
    hide Numeral, Value, AllDigits;
    var zeros, numeral := if p.zero then "0" else "", if p.width > 0 then Numeral(p.width, 10) else "";
    if p.width > 0 {
      NumeralDigits(p.width);
      NumeralMeans(p.width, 10);
    } else {
      EmptyIsZero();
    }
    assert "" + numeral == numeral;
    if p.zero { ZeroBefore(numeral); }
  }

  lemma EmptyIsZero()
    ensures AllDigits("") && Value("", 10) == 0
  {
  }

  lemma {:induction false} ZeroBefore(s: seq<char>)
    requires AllDigits(s)
    ensures AllDigits("0" + s) && Value("0" + s, 10) == Value(s, 10)
  {
    var whole := "0" + s;
    if s != [] {
      ZeroBefore(s[..|s| - 1]);
      assert whole[..|whole| - 1] == "0" + s[..|s| - 1];
    } else {
      assert whole == ['0'] && whole[..0] == [];
    }
  }

  /** The conversion's text between the sign of its width and the letter. */
  lemma SpeltIs(p: Part)
    requires p.Conversion? && p.Valid()
    ensures
      var t, a, d := p.Spelt(), if p.minus then 1 else 0, |p.Digits()|;
      && |t| == 1 + a + d + |p.modifier| + 1 && t[0] == '%' && (p.minus ==> t[1] == '-')
      && t[1 + a..1 + a + d] == p.Digits() && t[|t| - 1] == p.letter
      && (|p.modifier| == 1 ==> t[1 + a + d] == p.modifier[0]) && |p.modifier| <= 1
  {
    hide Part.Digits;
  }

  lemma FirstDigit(p: Part)
    requires p.Conversion? && p.Valid() && |p.Digits()| > 0
    ensures IsDigit(p.Digits()[0]) && (p.Digits()[0] == '0' <==> p.zero)
  {
    DigitsAre(p);
    if !p.zero {
      NumeralMeans(p.width, 10);
      assert p.Digits() == "" + Numeral(p.width, 10) == Numeral(p.width, 10);
    }
    hide Numeral;
  }

  lemma NoDigit(p: Part)
    requires p.Conversion? && p.Valid() && |p.Digits()| == 0
    ensures !p.zero
  {
    hide Numeral;
  }

  /** A text within another one. */
  lemma Within(s: seq<char>, i: nat, t: seq<char>, low: nat, high: nat)
    requires i + |t| <= |s| && s[i..i + |t|] == t && low <= high <= |t|
    ensures s[i + low..i + high] == t[low..high]
    ensures forall j {:trigger t[j]} | 0 <= j < |t| :: s[i + j] == t[j]
  {
    forall j {:trigger t[j]} | 0 <= j < |t| ensures s[i + j] == t[j] {
      assert s[i..i + |t|][j] == s[i + j];
    }
    assert s[i..i + |t|][low..high] == s[i + low..i + high];
  }

  /** The width is read, and the letter found, as they were written. */
  lemma DirectiveRead(fmt: seq<char>, i: nat, p: Part)
    requires p.Conversion? && p.Valid() && i + |p.Spelt()| <= |fmt| && fmt[i..i + |p.Spelt()|] == p.Spelt()
    ensures fmt[i] == '%' && i + 1 < |fmt| && fmt[i + 1] != '%'
    ensures Directive(fmt, i + 1) == (p.Justify(), i + |p.Spelt()| - 1)
    ensures fmt[i + |p.Spelt()| - 1] == p.letter && (fmt[i + 1] == '0' <==> p.zero)
  {
    hide Part.Digits, Part.Spelt, AllDigits, Value, DigitsEnd, Parsed, Directive;
    var t, a, digits := p.Spelt(), if p.minus then 1 else 0, p.Digits();
    var start, end := i + 1 + a, i + 1 + a + |digits|;
    SpeltIs(p);
    Within(fmt, i, t, 1 + a, 1 + a + |digits|);
    if |digits| > 0 {
      FirstDigit(p);
      assert fmt[start] == fmt[start..end][0];
    } else {
      NoDigit(p);
    }
    DigitsAre(p);
    ParsedAt(fmt, i + 1, start, end, p.width);
    DirectiveIs(fmt, i + 1);
    SignedWrap(if p.minus then 0 - p.width else p.width);
  }

  /** A number is read where its digits are, with the sign before them. */
  lemma ParsedAt(s: seq<char>, at: nat, start: nat, end: nat, m: nat)
    requires at <= start <= end <= |s| && start == (if Minus(s, at) then at + 1 else at)
    requires AllDigits(s[start..end]) && Value(s[start..end], 10) == m && (end < |s| ==> !IsDigit(s[end]))
    ensures Parsed(s, at) == (Signed(Wrap(if Minus(s, at) then 0 - m else m)), end)
  {
    DigitsEndAt(s, start, end);
    hide Value, DigitsEnd, AllDigits;
  }

  /**
   A format put together from parts asks for those parts: characters as they are, strings in their fields, the shorter
   side filled, and numbers as `Formatted` has them, each with the next argument.
   */
  lemma {:induction false} FormatMeans(fmt: seq<char>, i: nat, parts: seq<Part>, args: Args, k: nat)
    requires i <= |fmt| && fmt[i..] == SpeltAll(parts) && forall p | p in parts :: p.Valid()
    ensures Complete(fmt, i) && Pieces(fmt, i, args, k) == AskedFor(parts, args, k)
    decreases |parts|
  {
    hide Part.Asks, Part.Spelt, Directive, Converted, Pieces, Complete, Part.Valid;
    if parts == [] {
      NothingMeant(fmt, i, args, k);
    } else {
      var p, rest := parts[0], parts[1..];
      var next := i + |p.Spelt()|;
      Cut(fmt, i, p.Spelt(), SpeltAll(rest));
      hide SpeltAll;
      FormatMeans(fmt, next, rest, args, if p.Conversion? then k + 1 else k);
      PartMeans(fmt, i, next, p, args, k);
    }
  }

  lemma NothingMeant(fmt: seq<char>, i: nat, args: Args, k: nat)
    requires i >= |fmt|
    ensures Complete(fmt, i) && Pieces(fmt, i, args, k) == []
  {
  }

  lemma Cut(s: seq<char>, i: nat, t: seq<char>, u: seq<char>)
    requires i <= |s| && s[i..] == t + u
    ensures i + |t| <= |s| && s[i..i + |t|] == t && s[i + |t|..] == u
  {
    assert s[i..i + |t|] == s[i..][..|t|] && s[i + |t|..] == s[i..][|t|..];
  }

  lemma PartMeans(fmt: seq<char>, i: nat, next: nat, p: Part, args: Args, k: nat)
    requires p.Valid() && i <= next <= |fmt| && fmt[i..next] == p.Spelt() && Complete(fmt, next)
    ensures Complete(fmt, i)
    ensures
      Pieces(fmt, i, args, k)
        == [p.Asks(args.word(k), args.memory)] + Pieces(fmt, next, args, if p.Conversion? then k + 1 else k)
  {
    hide Directive, Formatted, Part.Digits, Converted, Complete, Pieces, Part.Spelt, Part.Asks;
    if p.Conversion? {
      ConversionMeans(fmt, i, next, p, args, k);
    } else {
      CharacterMeans(fmt, i, next, p, args, k);
    }
  }

  lemma CharacterMeans(fmt: seq<char>, i: nat, next: nat, p: Part, args: Args, k: nat)
    requires p.Valid() && !p.Conversion? && i <= next <= |fmt| && fmt[i..next] == p.Spelt() && Complete(fmt, next)
    ensures Complete(fmt, i)
    ensures Pieces(fmt, i, args, k) == [p.Asks(args.word(k), args.memory)] + Pieces(fmt, next, args, k)
  {
    hide Directive, Converted, Part.Digits, Pieces;
    Within(fmt, i, p.Spelt(), 0, 1);
    assert fmt[i] == p.Spelt()[0] && (p.Text? || fmt[i + 1] == p.Spelt()[1]);
    PiecesOfCharacter(fmt, i, args, k);
  }

  lemma ConversionMeans(fmt: seq<char>, i: nat, next: nat, p: Part, args: Args, k: nat)
    requires p.Valid() && p.Conversion? && i <= next <= |fmt| && fmt[i..next] == p.Spelt() && Complete(fmt, next)
    ensures Complete(fmt, i)
    ensures Pieces(fmt, i, args, k) == [p.Asks(args.word(k), args.memory)] + Pieces(fmt, next, args, k + 1)
  {
    hide Directive, Part.Digits, Part.Spelt, Part.Asks, Converted, Pieces;
    DirectiveRead(fmt, i, p);
    PiecesOfConversion(fmt, i, args, k);
    ConvertedIs(p, args, k);
  }

  lemma ConvertedIs(p: Part, args: Args, k: nat)
    requires p.Valid() && p.Conversion?
    ensures Converted(p.letter, p.Justify(), p.zero, args, k) == p.Asks(args.word(k), args.memory)
  {
    hide Formatted;
  }

  // ----- and printed

  /** The text of one part: a string is filled with spaces in front, or behind it after a minus sign. */
  function TextOf(p: Part, w: Word, memory: Word -> seq<char>): seq<char> {
    match p
    case Text(c) => [c]
    case Percent => "%"
    case Conversion(minus, zero, width, _, letter) =>
      if letter != 's' then Formatted(w, letter, p.Justify(), zero)
      else
        var s := if w == 0 then "(null)" else memory(w);
        var fill := seq(if width > |s| then width - |s| else 0, _ => ' ');
        if minus then s + fill else fill + s
  }

  function TextOfAll(parts: seq<Part>, args: Args, k: nat): seq<char> {
    if parts == [] then []
    else
      TextOf(parts[0], args.word(k), args.memory)
      + TextOfAll(parts[1..], args, if parts[0].Conversion? then k + 1 else k)
  }

  lemma FullText(p: Part, w: Word, memory: Word -> seq<char>)
    ensures Full(p.Asks(w, memory)) == TextOf(p, w, memory)
  {
    hide Formatted;
  }

  lemma {:induction false} AllText(parts: seq<Part>, args: Args, k: nat)
    ensures All(AskedFor(parts, args, k)) == TextOfAll(parts, args, k)
    decreases |parts|
  {
    hide Full, TextOf, Part.Asks;
    if parts != [] {
      var k' := if parts[0].Conversion? then k + 1 else k;
      FullText(parts[0], args.word(k), args.memory);
      AllText(parts[1..], args, k');
      var piece, rest := parts[0].Asks(args.word(k), args.memory), AskedFor(parts[1..], args, k');
      assert ([piece] + rest)[1..] == rest;
    }
  }

  /** All of it is sent, and fits the buffer, exactly if it has at most 255 characters. */
  lemma FormatPrints(fmt: seq<char>, parts: seq<Part>, args: Args)
    requires fmt == SpeltAll(parts) && forall p | p in parts :: p.Valid()
    ensures Complete(fmt, 0)
    ensures
      var ps, text := Pieces(fmt, 0, args, 0), TextOfAll(parts, args, 0);
      Output(ps, 256) == text && Touched(ps, 256) <= 256 <==> |text| <= 255
  {
    hide SpeltAll, AskedFor, Complete, Pieces, Output, Touched, All, TextOfAll;
    assert fmt[0..] == fmt;
    FormatMeans(fmt, 0, parts, args, 0);
    AllText(parts, args, 0);
    WholeTextSent(fmt, args);
  }

  /** A string that does not fit is not cut: nothing of it is sent, though 255 bytes of it are stored. */
  lemma LongStringDropped(args: Args)
    requires args.word(0) != 0 && |args.memory(args.word(0))| >= 256
    ensures Complete("%s", 0)
    ensures var ps := Pieces("%s", 0, args, 0); Output(ps, 256) == [] && Touched(ps, 256) == 255
  {
    var p := Conversion(false, false, 0, "", 's');
    hide Directive, Converted, Pieces, Complete;
    assert SpeltAll([p]) == "%s" by {
      assert p.Spelt() == "%" + "" + ("" + "") + "" + ['s'] == "%s";
      assert [p][1..] == [];
    }
    FormatMeans("%s", 0, [p], args, 0) by { assert "%s"[0..] == "%s"; }
    assert AskedFor([p], args, 0) == [p.Asks(args.word(0), args.memory)] by { assert [p][1..] == []; }
  }
}
