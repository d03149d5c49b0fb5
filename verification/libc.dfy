/**
 The loader's own formatted output: `format_number`, `parse_dec` and `g_fprintf`. The scratch text of a number is a
 sequence; the buffer that is printed to is an array, with what lies behind its 256 bytes.
 */
module LibC {
  import opened Words

  // ----- numerals

  function Power(base: nat, k: nat): (p: nat)
    requires base > 0
    ensures p > 0
  {
    if k == 0 then 1 else Power(base, k - 1) * base
  }

  function Digit(d: nat): char
    requires d < 16
  {
    if d < 10 then ('0' as int + d) as char else ('a' as int + d - 10) as char
  }

  /** The shortest numeral of n. */
  function Numeral(n: nat, base: nat): (s: seq<char>)
    requires 2 <= base <= 16
    ensures |s| > 0
  {
    if n < base then [Digit(n)] else Numeral(n / base, base) + [Digit(n % base)]
  }

  /** The digits of n above the lowest k, as a number, and the number the lowest k digits make. */
  function Above(n: nat, base: nat, k: nat): nat
    requires base > 0
  {
    n / Power(base, k)
  }

  function Below(n: nat, base: nat, k: nat): nat
    requires base > 0
  {
    n % Power(base, k)
  }

  /** Splitting off the digit worth base to the k - 1. */
  lemma NextDigit(n: nat, base: nat, k: nat) returns (t: nat)
    requires 2 <= base <= 16 && k > 0
    ensures t == Below(n, base, k) / Power(base, k - 1) == n / Power(base, k - 1) % base < base
    ensures Above(n, base, k - 1) == Above(n, base, k) * base + t
    ensures Below(n, base, k - 1) == Below(n, base, k) - t * Power(base, k - 1)
  {
    var p := Power(base, k - 1);
    assert Power(base, k) == p * base;
    hide Power;
    Split(n, base, p);
    t := n % (p * base) / p;
  }

  lemma AboveAll(n: nat, base: nat, k: nat)
    requires base > 0
    ensures Above(n, base, k) == 0 <==> n < Power(base, k)
    ensures n < Power(base, k) ==> Below(n, base, k) == n
    ensures Above(n, base, 0) == n
  {
    assert Power(base, 0) == 1;
    hide Power;
    if n < Power(base, k) { DivUnique(n, Power(base, k), 0, n); }
  }

  lemma Split(n: nat, base: nat, p: nat)
    requires base > 0 && p > 0 && p * base > 0
    ensures var t := n % (p * base) / p;
            && n / p == n / (p * base) * base + t
            && n / p % base == t < base
            && n % p == n % (p * base) - t * p
  {
    var q, r := n / (p * base), n % (p * base);
    var t, low := r / p, r % p;
    assert n == q * (p * base) + r;
    assert r == t * p + low;
    assert t < base by {
      if base < t { ProductOrder(base, t, p); }
    }
    var u := q * base + t;
    assert u * p == q * (p * base) + t * p by {
      assert u * p == q * base * p + t * p;
    }
    DivUnique(n, p, u, low);
    DivUnique(u, base, q, t);
  }

  function DigitOf(c: char): nat {
    if '0' <= c <= '9' then c as int - '0' as int else if 'a' <= c <= 'f' then c as int - 'a' as int + 10 else 0
  }

  /** The value of a numeral, place by place. */
  function Value(s: seq<char>, base: nat): nat {
    if s == [] then 0 else Value(s[..|s| - 1], base) * base + DigitOf(s[|s| - 1])
  }

  /** The numeral is worth its number, and has no zeros in front. */
  lemma {:induction false} NumeralMeans(n: nat, base: nat)
    requires 2 <= base <= 16
    ensures Value(Numeral(n, base), base) == n
    ensures Numeral(n, base)[0] == '0' <==> n == 0
    decreases n
  {
    var q, t := n / base, n % base;
    NumeralUnfolds(n, base);
    DigitValue(t);
    QuotientSmaller(n, base);
    hide Numeral, Digit, DigitOf, Value;
    if n < base {
      Appended([], Digit(t), base);
      assert [] + [Digit(t)] == [Digit(t)];
    } else {
      NumeralMeans(q, base);
      Appended(Numeral(q, base), Digit(t), base);
    }
  }

  lemma NumeralUnfolds(n: nat, base: nat)
    requires 2 <= base <= 16
    ensures n % base < 16
    ensures Numeral(n, base) == (if n < base then [] else Numeral(n / base, base)) + [Digit(n % base)]
  {
    if n < base { DivUnique(n, base, 0, n); }
    hide Digit;
  }

  lemma QuotientSmaller(n: nat, base: nat)
    requires 2 <= base
    ensures n == n / base * base + n % base && (n < base ==> n % base == n && n / base == 0)
    ensures n >= base ==> 0 < n / base < n
  {
    var q := n / base;
    if n < base { DivUnique(n, base, 0, n); }
    if 0 < q { ProductOrder(1, base, q); }
  }

  lemma Appended(s: seq<char>, c: char, base: nat)
    ensures Value(s + [c], base) == Value(s, base) * base + DigitOf(c)
    ensures s != [] ==> (s + [c])[0] == s[0]
  {
    assert (s + [c])[..|s|] == s;
    hide DigitOf;
  }

  lemma DigitValue(t: nat)
    requires t < 16
    ensures DigitOf(Digit(t)) == t && (Digit(t) == '0' <==> t == 0) && Value([], 10) == 0 == Value([], 16)
  {
  }

  /** A number below base to the k has at most k digits. */
  lemma {:induction false} NumeralLength(n: nat, base: nat, k: nat)
    requires 2 <= base <= 16 && n < Power(base, k) && k > 0
    ensures |Numeral(n, base)| <= k
    decreases k
  {
    hide Numeral, Power;
    NumeralUnfolds(n, base);
    SmallerPower(base, k);
    if n >= base {
      QuotientBelow(n, base, Power(base, k - 1));
      NumeralLength(n / base, base, k - 1);
    }
  }

  lemma QuotientBelow(n: nat, d: nat, p: nat)
    requires d > 0 && n < p * d
    ensures n / d < p
  {
    var q := n / d;
    assert n == q * d + n % d;
    if p < q { ProductOrder(p, q, d); }
  }

  lemma Powers()
    ensures Power(10, 9) == 1_000_000_000 && Power(10, 10) == 10_000_000_000
    ensures Power(16, 8) == 0x1_0000_0000 && Power(16, 7) == 0x1000_0000
    ensures Power(10, 0) == Power(16, 0) == 1
  {
    assert Power(10, 5) == 100_000;
    assert Power(16, 4) == 0x1_0000;
  }

  lemma SmallerPower(base: nat, k: nat)
    requires base > 0 && k > 0
    ensures Power(base, k) == Power(base, k - 1) * base
    ensures k > 1 ==> Power(base, k - 1) / base == Power(base, k - 2)
    ensures k == 1 ==> Power(base, k) == base
  {
    if k > 1 { DivUnique(Power(base, k - 1), base, Power(base, k - 2), 0); }
  }

  /** A numeral grows by its last digit. */
  lemma NumeralGrows(n: nat, t: nat, base: nat)
    requires 2 <= base <= 16 && t < base
    ensures Numeral(n * base + t, base) == (if n == 0 then [] else Numeral(n, base)) + [Digit(t)]
  {
    var v := n * base + t;
    LastDigit(n, t, base);
    hide Digit;
    assert Numeral(v, base) == if v < base then [Digit(v)] else Numeral(v / base, base) + [Digit(v % base)];
    hide Numeral;
  }

  lemma LastDigit(n: nat, t: nat, base: nat)
    requires t < base
    ensures var v := n * base + t; v / base == n && v % base == t && (v < base <==> n == 0)
  {
    DivUnique(n * base + t, base, n, t);
    if n > 0 { ProductOrder(0, n, base); }
  }

  predicate IsDigit(c: char) { '0' <= c <= '9' }

  predicate AllDigits(s: seq<char>) { forall q | 0 <= q < |s| :: IsDigit(s[q]) }

  lemma {:induction false} NumeralDigits(n: nat)
    ensures AllDigits(Numeral(n, 10))
  {
    if n >= 10 { NumeralDigits(n / 10); }
  }

  lemma {:induction false} NumeralStart(n: nat, base: nat)
    requires 2 <= base <= 16
    ensures Numeral(n, base)[0] != ' ' && Numeral(n, base)[0] != '-'
  {
    NumeralUnfolds(n, base);
    QuotientSmaller(n, base);
    hide Numeral;
    if n >= base { NumeralStart(n / base, base); }
  }

  // ----- format_number

  function Repeat(c: char, k: nat): (s: seq<char>)
    ensures |s| == k && forall i | 0 <= i < k :: s[i] == c
  {
    seq(k, _ => c)
  }

  lemma RepeatOneMore(c: char, k: nat)
    requires k > 0
    ensures Repeat(c, k) == Repeat(c, k - 1) + [c]
  {
  }

  /** The field width asked for: at most 31, whichever side the text goes to. */
  function Width(justify: int): (w: nat)
    ensures w < 32
  {
    var w := if justify < 0 then -justify else justify;
    if w >= 32 then 31 else w
  }

  function Missing(width: nat, used: nat): nat {
    if width > used then width - used else 0
  }

  predicate Decimal(fmt: char) { fmt == 'd' || fmt == 'i' || fmt == 'u' }

  predicate Hexadecimal(fmt: char) { fmt == 'x' || fmt == 'p' }

  predicate Negative(n: Word, fmt: char) { (fmt == 'd' || fmt == 'i') && n >= 0x8000_0000 }

  /** The number itself: a sign if it is read as signed and is negative, and its digits. */
  function Core(n: Word, fmt: char): seq<char>
    requires Decimal(fmt) || Hexadecimal(fmt)
  {
    if Negative(n, fmt) then "-" + Numeral(0x1_0000_0000 - n, 10)
    else Numeral(n, if Decimal(fmt) then 10 else 16)
  }

  /** What is put before it: the sign of a negative number is not counted. */
  function Filler(n: Word, fmt: char, justify: int, zeropad: bool): seq<char>
    requires Decimal(fmt) || Hexadecimal(fmt)
  {
    var digits := |Core(n, fmt)| - if Negative(n, fmt) then 1 else 0;
    var width := if fmt == 'p' then 8 else Width(justify);
    Repeat(if fmt == 'p' || (fmt == 'x' && zeropad) then '0' else ' ', Missing(width, digits))
  }

  /** The scratch text, right-justified; nothing for a conversion that is not known. */
  function Body(n: Word, fmt: char, justify: int, zeropad: bool): seq<char> {
    if Decimal(fmt) || Hexadecimal(fmt) then Filler(n, fmt, justify, zeropad) + Core(n, fmt) else []
  }

  function LeadingSpaces(s: seq<char>): (k: nat)
    ensures k <= |s| && (forall i | 0 <= i < k :: s[i] == ' ') && (k < |s| ==> s[k] != ' ')
  {
    if s == [] || s[0] != ' ' then 0 else 1 + LeadingSpaces(s[1..])
  }

  /** The text that is wanted: for a negative width, leading spaces go to the end. */
  function Formatted(n: Word, fmt: char, justify: int, zeropad: bool): seq<char> {
    var body := Body(n, fmt, justify, zeropad);
    if justify < 0
    then var k := LeadingSpaces(body); body[k..] + Repeat(' ', k)
    else body
  }

  function Prefix(s: seq<char>, room: int): seq<char> {
    if room >= |s| then s else if room <= 0 then [] else s[..room]
  }

  /** A number whose digits above the lowest left ones are written out, with what goes before it. */
  function Started(pad: char, width: nat, left: nat, sign: seq<char>, q: nat, base: nat): seq<char>
    requires 2 <= base <= 16
  {
    Repeat(pad, Missing(width, left + |Numeral(q, base)|)) + sign + Numeral(q, base)
  }

  lemma StartedGrows(pad: char, width: nat, left: nat, sign: seq<char>, q: nat, base: nat, t: nat)
    requires 2 <= base <= 16 && t < base && left > 0
    ensures Started(pad, width, left - 1, sign, q * base + t, base)
      == (if q == 0 then Repeat(pad, Missing(width, left)) + sign else Started(pad, width, left, sign, q, base))
         + [Digit(t)]
  {
    NumeralGrows(q, t, base);
    hide Numeral, Digit, Repeat;
  }

  /** The part of the field to the left of all places a digit can have. */
  method WideField(pad: char, width: nat, places: nat) returns (buf: seq<char>, w: nat)
    ensures buf == Repeat(pad, Missing(width, places)) && w == width - |buf|
  {
    hide Repeat;
    w, buf := width, [];
    while w > places
      invariant w <= width && buf == Repeat(pad, width - w) && (w < width ==> w >= places)
    {
      buf := buf + [pad];
      w := w - 1;
      RepeatOneMore(pad, width - w);
    }
  }

  /** What one more decimal digit does to the loop's variables. */
  lemma DecimalStep(m: nat, left: nat, n: nat, div: nat, width: nat, sign: seq<char>)
    requires 0 < left && n == Below(m, 10, left) && div == Power(10, left - 1)
    ensures 0 <= n / div < 10 && n - n / div * div == Below(m, 10, left - 1)
    ensures left > 1 ==> div / 10 == Power(10, left - 2)
    ensures m < Power(10, left) ==> Above(m, 10, left) == 0
    ensures n / div == 0 && Above(m, 10, left) == 0 ==> m < Power(10, left - 1)
    ensures Above(m, 10, left - 1) == Above(m, 10, left) * 10 + n / div
    ensures Started(' ', width, left - 1, sign, Above(m, 10, left - 1), 10)
      == (if Above(m, 10, left) == 0 then Repeat(' ', Missing(width, left)) + sign
          else Started(' ', width, left, sign, Above(m, 10, left), 10)) + [Digit(n / div)]
  {
    var digit := NextDigit(m, 10, left);
    SmallerPower(10, left);
    AboveAll(m, 10, left);
    AboveAll(m, 10, left - 1);
    StartedGrows(' ', width, left, sign, Above(m, 10, left), 10, digit);
    hide *;
  }

  /** The 'd', 'i' and 'u' loop: digits are split off from the top, spaces stand for leading zeros. */
  method DecimalText(m: Word, neg: bool, width: nat) returns (buf: seq<char>)
    requires width < 32 && (neg ==> m > 0)
    ensures buf == Repeat(' ', Missing(width, |Numeral(m, 10)|)) + (if neg then "-" else "") + Numeral(m, 10)
  {
    Powers();
    AboveAll(m, 10, 10);
    ghost var sign := if neg then "-" else "";
    assert Started(' ', width, 0, sign, m, 10)
        == Repeat(' ', Missing(width, |Numeral(m, 10)|)) + sign + Numeral(m, 10);
    hide Power, Numeral, Repeat, Digit, Above, Below, Started;
    var n: int, div, left, printing := m, 1_000_000_000, 10, false;
    var w;
    buf, w := WideField(' ', width, left);
    while left > 0
      invariant 0 <= left <= 10
      invariant left > 0 ==> div == Power(10, left - 1)
      invariant n == Below(m, 10, left)
      invariant !printing ==> left > 0 && m < Power(10, left)
      invariant !printing ==> w + Missing(width, left) == width && buf == Repeat(' ', Missing(width, left))
      invariant printing ==> left == 0 || Above(m, 10, left) > 0
      invariant printing ==> buf == Started(' ', width, left, sign, Above(m, 10, left), 10)
    {
      DecimalStep(m, left, n, div, width, sign);
      var t := n / div;
      n := n - t * div;
      div := div / 10;
      if t != 0 || left == 1 {
        if neg && t != 0 && !printing {
          buf := buf + ['-'];
          if w > 0 { w := w - 1; }
        }
        printing := true;
      }
      if printing {
        buf := buf + [Digit(t)];
      } else if w >= left {
        buf := buf + [' '];
        w := w - 1;
        RepeatOneMore(' ', Missing(width, left - 1));
      }
      left := left - 1;
    }
  }

  lemma HexStep(n: nat, left: nat, pad: char, width: nat)
    requires 0 < left
    ensures var t := n / Power(16, left - 1) % 16;
      && 0 <= t < 16
      && (n < Power(16, left) ==> Above(n, 16, left) == 0)
      && (t == 0 && Above(n, 16, left) == 0 ==> n < Power(16, left - 1))
      && Above(n, 16, left - 1) == Above(n, 16, left) * 16 + t
      && Started(pad, width, left - 1, [], Above(n, 16, left - 1), 16)
        == (if Above(n, 16, left) == 0 then Repeat(pad, Missing(width, left)) + []
            else Started(pad, width, left, [], Above(n, 16, left), 16)) + [Digit(t)]
  {
    var digit := NextDigit(n, 16, left);
    AboveAll(n, 16, left);
    AboveAll(n, 16, left - 1);
    StartedGrows(pad, width, left, [], Above(n, 16, left), 16, digit);
    hide *;
  }

  /** The 'x' and 'p' loop. */
  method HexText(n: Word, width: nat, zeropad: bool) returns (buf: seq<char>)
    requires width < 32
    ensures buf == Repeat(if zeropad then '0' else ' ', Missing(width, |Numeral(n, 16)|)) + Numeral(n, 16)
  {
    Powers();
    AboveAll(n, 16, 8);
    var pad := if zeropad then '0' else ' ';
    assert Started(pad, width, 0, [], n, 16) == Repeat(pad, Missing(width, |Numeral(n, 16)|)) + Numeral(n, 16);
    hide Power, Numeral, Repeat, Digit, Above, Below, Started;
    var w, left, printing := width, 8, false;
    buf, w := WideField(pad, width, left);
    while left > 0
      invariant 0 <= left <= 8
      invariant !printing ==> left > 0 && n < Power(16, left)
      invariant !printing ==> w + Missing(width, left) == width && buf == Repeat(pad, Missing(width, left))
      invariant printing ==> left == 0 || Above(n, 16, left) > 0
      invariant printing ==> buf == Started(pad, width, left, [], Above(n, 16, left), 16)
    {
      HexStep(n, left, pad, width);
      var t := n / Power(16, left - 1) % 16;
      if t != 0 || left == 1 {
        printing := true;
      }
      if printing {
        buf := buf + [Digit(t)];
      } else if w >= left {
        buf := buf + [pad];
        w := w - 1;
        RepeatOneMore(pad, Missing(width, left - 1));
      }
      left := left - 1;
    }
  }

  lemma DecimalBody(n: Word, fmt: char, justify: int, zeropad: bool)
    requires Decimal(fmt)
    ensures
      var neg := Negative(n, fmt);
      var digits := Numeral(if neg then 0x1_0000_0000 - n else n, 10);
      Body(n, fmt, justify, zeropad)
        == Repeat(' ', Missing(Width(justify), |digits|)) + (if neg then "-" else "") + digits
  {
    hide Numeral, Repeat, Width, Missing;
    var digits := Numeral(if Negative(n, fmt) then 0x1_0000_0000 - n else n, 10);
    var pad := Repeat(' ', Missing(Width(justify), |digits|));
    assert pad + "" + digits == pad + digits;
    assert pad + "-" + digits == pad + ("-" + digits);
  }

  lemma HexBody(n: Word, fmt: char, justify: int, zeropad: bool)
    requires Hexadecimal(fmt)
    ensures
      var digits := Numeral(n, 16);
      Body(n, fmt, justify, zeropad)
        == Repeat(if fmt == 'p' || zeropad then '0' else ' ',
                  Missing(if fmt == 'p' then 8 else Width(justify), |digits|)) + digits
  {
    hide Numeral, Repeat, Width, Missing;
  }

  lemma BodyForms(n: Word, fmt: char, justify: int, zeropad: bool)
    ensures Decimal(fmt) ==>
      var neg := Negative(n, fmt);
      var digits := Numeral(if neg then 0x1_0000_0000 - n else n, 10);
      Body(n, fmt, justify, zeropad)
        == Repeat(' ', Missing(Width(justify), |digits|)) + (if neg then "-" else "") + digits
    ensures Hexadecimal(fmt) ==>
      var digits := Numeral(n, 16);
      Body(n, fmt, justify, zeropad)
        == Repeat(if fmt == 'p' || zeropad then '0' else ' ',
                  Missing(if fmt == 'p' then 8 else Width(justify), |digits|)) + digits
    ensures !Decimal(fmt) && !Hexadecimal(fmt) ==> Body(n, fmt, justify, zeropad) == []
  {
    if Decimal(fmt) { DecimalBody(n, fmt, justify, zeropad); }
    if Hexadecimal(fmt) { HexBody(n, fmt, justify, zeropad); }
    assert !Decimal(fmt) && !Hexadecimal(fmt) ==> Body(n, fmt, justify, zeropad) == [];
    hide *;
  }

  const NOTE := "<FMTODO>"

  /** The switch over the conversion; used counts the bytes of scratch stored to, terminator included. */
  method ScratchText(n: Word, fmt: char, justify: int, zeropad: bool) returns (buf: seq<char>, ghost used: nat)
    ensures buf == Body(n, fmt, justify, zeropad)
    ensures used == if Decimal(fmt) || Hexadecimal(fmt) then |buf| + 1 else |NOTE| + 1
  {
    hide Numeral, Repeat, Body, Missing;
    BodyForms(n, fmt, justify, zeropad);
    var w := if justify < 0 then -justify else justify;
    if w >= 32 { w := 31; }
    match fmt {
    case 'd' | 'i' =>
      var neg := n >= 0x8000_0000;
      buf := DecimalText(if neg then Wrap(0 - n as int) else n, neg, w);
    case 'u' =>
      buf := DecimalText(n, false, w);
    case 'p' =>
      buf := HexText(n, 8, true);
    case 'x' =>
      buf := HexText(n, w, zeropad);
    case _ =>
      buf, used := [], |NOTE| + 1;
      return;
    }
    used := |buf| + 1;
  }

  const SCRATCH := 32

  /** How many bytes of the scratch buffer are stored to: the text and its terminator, or a note that is cut off. */
  function ScratchUsed(n: Word, fmt: char, justify: int, zeropad: bool): nat {
    if Decimal(fmt) || Hexadecimal(fmt) then |Body(n, fmt, justify, zeropad)| + 1 else |NOTE| + 1
  }

  /** Memory with a text stored at d. */
  function Splice(m: seq<char>, d: nat, t: seq<char>): (r: seq<char>)
    requires d + |t| <= |m|
    ensures |r| == |m|
  {
    m[..d] + t + m[d + |t|..]
  }

  lemma SpliceMore(m: seq<char>, d: nat, t: seq<char>, c: char)
    requires d + |t| < |m|
    ensures Splice(m, d, t + [c]) == Splice(m, d, t)[d + |t| := c]
  {
  }

  lemma SpliceNothing(m: seq<char>, d: nat)
    requires d <= |m|
    ensures Splice(m, d, []) == m
  {
  }

  lemma SpliceOn(m: seq<char>, d: nat, t: seq<char>, u: seq<char>)
    requires d + |t| + |u| <= |m|
    ensures Splice(Splice(m, d, t), d + |t|, u) == Splice(m, d, t + u)
  {
  }

  /** What is stored through dst: as much of the text as fits before the terminator, and the terminator. */
  method FormatNumber(buf: array<char>, d: nat, room: int, n: Word, fmt: char, justify: int, zeropad: bool)
    returns (d': nat, ghost scratch: nat)
    requires d + |Prefix(Formatted(n, fmt, justify, zeropad), room - 1)| < buf.Length
    modifies buf
    ensures var text := Prefix(Formatted(n, fmt, justify, zeropad), room - 1);
      d' == d + |text| && buf[..] == Splice(old(buf[..]), d, text + ['\0'])
    ensures scratch <= SCRATCH <==> !(Negative(n, fmt) && Width(justify) == 31)
  {
    hide Body, Repeat, Splice, Prefix;
    ScratchSuffices(n, fmt, justify, zeropad);
    var text;
    text, scratch := ScratchText(n, fmt, justify, zeropad);
    var p, spaces := 0, 0;
    if justify < 0 {
      while p < |text| && text[p] == ' '
        invariant p == spaces <= |text|
        invariant forall i | 0 <= i < p :: text[i] == ' '
      {
        spaces := spaces + 1;
        p := p + 1;
      }
      LeadingAre(text, p);
    }
    assert Formatted(n, fmt, justify, zeropad) == text[p..] + Repeat(' ', spaces);
    d' := CopyOut(text, p, spaces, buf, d, room);
  }

  /** The two copying loops, and the terminator behind them. */
  method CopyOut(text: seq<char>, from: nat, pad: nat, buf: array<char>, d: nat, room: int) returns (d': nat)
    requires from <= |text| && d + |Prefix(text[from..] + Repeat(' ', pad), room - 1)| < buf.Length
    modifies buf
    ensures var shown := Prefix(text[from..] + Repeat(' ', pad), room - 1);
      d' == d + |shown| && buf[..] == Splice(old(buf[..]), d, shown + ['\0'])
  {
    hide Splice, Prefix, Repeat;
    ghost var m := buf[..];
    PrefixParts(text[from..], pad, room);
    var left;
    d', left := CopyText(text, from, buf, d, room);
    ghost var first, n := text[from..from + (d' - d)], d' - d;
    assert first == text[from..][..n];
    d', left := PutSpaces(buf, d', pad, left);
    SpliceOn(m, d, first, Repeat(' ', d' - d - n));
    SpliceMore(m, d, first + Repeat(' ', d' - d - n), '\0');
    buf[d'] := '\0';
  }

  function Min(a: int, b: int): int { if a < b then a else b }

  function Max(a: int, b: int): int { if a < b then b else a }

  lemma PrefixParts(s: seq<char>, pad: nat, room: int)
    ensures
      var n := Min(|s|, Max(room - 1, 0));
      Prefix(s + Repeat(' ', pad), room - 1) == s[..n] + Repeat(' ', Min(pad, Max(room - n - 1, 0)))
  {
  }

  /** Text from an index on, only while room is left. */
  method CopyText(text: seq<char>, from: nat, buf: array<char>, d: nat, room: int) returns (d': nat, left: int)
    requires from <= |text| && d + Min(|text| - from, Max(room - 1, 0)) <= buf.Length
    modifies buf
    ensures
      var n := Min(|text| - from, Max(room - 1, 0));
      d' == d + n && left == room - n && buf[..] == Splice(old(buf[..]), d, text[from..from + n])
  {
    hide Splice;
    var p := from;
    d', left := d, room;
    SpliceNothing(buf[..], d);
    assert text[from..from] == [];
    while p < |text| && left > 1
      invariant from <= p <= |text| && d' == d + (p - from) && left == room - (p - from) && (p > from ==> left >= 1)
      invariant buf[..] == Splice(old(buf[..]), d, text[from..p])
    {
      SpliceMore(old(buf[..]), d, text[from..p], text[p]);
      assert text[from..p + 1] == text[from..p] + [text[p]];
      buf[d'] := text[p];
      d', p, left := d' + 1, p + 1, left - 1;
    }
  }

  /** A run of padding: at most want spaces, and only while room is left. */
  method PutSpaces(buf: array<char>, d: nat, want: int, room: int) returns (d': nat, left: int)
    requires d + Min(Max(want, 0), Max(room - 1, 0)) <= buf.Length
    modifies buf
    ensures
      var n := Min(Max(want, 0), Max(room - 1, 0));
      d' == d + n && left == room - n && buf[..] == Splice(old(buf[..]), d, Repeat(' ', n))
  {
    hide Splice, Repeat;
    var w := want;
    d', left := d, room;
    SpliceNothing(buf[..], d);
    assert Repeat(' ', 0) == [];
    while w > 0 && left > 1
      invariant d <= d' && left == room - (d' - d) && w == want - (d' - d)
      invariant d' == d || (w >= 0 && left >= 1)
      invariant buf[..] == Splice(old(buf[..]), d, Repeat(' ', d' - d))
    {
      RepeatOneMore(' ', d' - d + 1);
      SpliceMore(old(buf[..]), d, Repeat(' ', d' - d), ' ');
      buf[d'] := ' ';
      d', w, left := d' + 1, w - 1, left - 1;
    }
  }

  lemma LeadingAre(s: seq<char>, k: nat)
    requires k <= |s| && (forall i | 0 <= i < k :: s[i] == ' ') && (k < |s| ==> s[k] != ' ')
    ensures LeadingSpaces(s) == k
  {
  }

  // ----- how wide the text is

  lemma CoreLength(n: Word, fmt: char)
    requires Decimal(fmt) || Hexadecimal(fmt)
    ensures 0 < |Core(n, fmt)| <= if Negative(n, fmt) then 11 else 10
    ensures Hexadecimal(fmt) ==> |Core(n, fmt)| <= 8
    ensures Negative(n, fmt) ==> |Core(n, fmt)| >= 2
    ensures Core(n, fmt)[0] != ' '
  {
    Powers();
    var m := if Negative(n, fmt) then 0x1_0000_0000 - n else n;
    var base := if Decimal(fmt) then 10 else 16;
    NumeralLength(m, base, if Decimal(fmt) then 10 else 8);
    NumeralStart(m, base);
    hide Numeral, Power;
  }

  /**
   Text is as wide as asked for, or as the number needs, except that a negative number shorter than its field comes
   out one too wide: its sign is not counted in time.
   */
  lemma FieldWidth(n: Word, fmt: char, justify: int, zeropad: bool)
    requires Decimal(fmt) || Hexadecimal(fmt)
    ensures
      var core, width := |Core(n, fmt)|, if fmt == 'p' then 8 else Width(justify);
      |Formatted(n, fmt, justify, zeropad)|
        == (if width > core then width else core) + if Negative(n, fmt) && core <= width then 1 else 0
  {
    CoreLength(n, fmt);
    hide Numeral, Repeat, Width, Core;
  }

  /** The 32-byte scratch buffer holds text and terminator unless a negative number is asked for at full width. */
  lemma ScratchSuffices(n: Word, fmt: char, justify: int, zeropad: bool)
    ensures ScratchUsed(n, fmt, justify, zeropad) <= SCRATCH <==> !(Negative(n, fmt) && Width(justify) == 31)
  {
    if Decimal(fmt) || Hexadecimal(fmt) {
      CoreLength(n, fmt);
    }
    hide Numeral, Repeat, Width, Core;
  }

  /** A negative width puts the same text first and the same padding last. */
  lemma LeftJustified(n: Word, fmt: char, justify: int, zeropad: bool)
    requires Decimal(fmt) || (fmt == 'x' && !zeropad)
    requires justify < 0
    ensures Formatted(n, fmt, -justify, zeropad) == Filler(n, fmt, justify, zeropad) + Core(n, fmt)
    ensures Formatted(n, fmt, justify, zeropad) == Core(n, fmt) + Filler(n, fmt, justify, zeropad)
  {
    CoreLength(n, fmt);
    hide Numeral, Core;
    var pad := |Filler(n, fmt, justify, zeropad)|;
    LeadingAre(Body(n, fmt, justify, zeropad), pad);
  }

  // ----- parse_dec

  function DigitsEnd(s: seq<char>, i: nat): (j: nat)
    requires i <= |s|
    ensures i <= j <= |s| && AllDigits(s[i..j]) && (j < |s| ==> !IsDigit(s[j]))
    decreases |s| - i
  {
    if i < |s| && IsDigit(s[i])
    then
      var j := DigitsEnd(s, i + 1);
      assert s[i..j] == [s[i]] + s[i + 1..j];
      j
    else i
  }

  lemma {:induction false} DigitsEndAt(s: seq<char>, i: nat, j: nat)
    requires i <= j <= |s| && AllDigits(s[i..j]) && (j < |s| ==> !IsDigit(s[j]))
    ensures DigitsEnd(s, i) == j
    decreases j - i
  {
    if i < j {
      assert s[i] == s[i..j][0];
      assert s[i + 1..j] == s[i..j][1..];
      DigitsEndAt(s, i + 1, j);
    }
  }

  predicate Minus(s: seq<char>, at: nat) {
    at < |s| && s[at] == '-'
  }

  /** The number whose text starts at at, in 32-bit arithmetic, and where its digits end. */
  function Parsed(s: seq<char>, at: nat): (int, nat)
    requires at <= |s|
  {
    var start := if Minus(s, at) then at + 1 else at;
    var end := DigitsEnd(s, start);
    var v := Value(s[start..end], 10);
    (Signed(Wrap(if Minus(s, at) then 0 - v else v)), end)
  }

  method ParseDec(s: seq<char>, at: nat) returns (r: int, p: nat)
    requires at <= |s|
    ensures (r, p) == Parsed(s, at)
  {
    hide DigitsEnd, Signed, Wrap, Value, AllDigits;
    p := at;
    var neg := false;
    if p < |s| && s[p] == '-' {
      neg := true;
      p := p + 1;
    }
    ghost var start := p;
    var acc: Word := 0;
    NoDigitsYet(s, start);
    while p < |s| && IsDigit(s[p])
      invariant start <= p <= |s| && AllDigits(s[start..p])
      invariant acc == Wrap(Value(s[start..p], 10))
    {
      OneDigitMore(s, start, p);
      acc := Wrap(acc as int * 10 + s[p] as int - '0' as int);
      p := p + 1;
    }
    DigitsEndAt(s, start, p);
    Negated(Value(s[start..p], 10));
    r := Signed(if neg then Wrap(0 - acc as int) else acc);
  }

  lemma NoDigitsYet(s: seq<char>, start: nat)
    requires start <= |s|
    ensures AllDigits(s[start..start]) && Wrap(Value(s[start..start], 10)) == 0
  {
  }

  lemma OneDigitMore(s: seq<char>, start: nat, p: nat)
    requires start <= p < |s| && AllDigits(s[start..p]) && IsDigit(s[p])
    ensures AllDigits(s[start..p + 1])
    ensures Wrap(Wrap(Value(s[start..p], 10)) as int * 10 + s[p] as int - '0' as int)
         == Wrap(Value(s[start..p + 1], 10))
  {
    var longer := s[start..p + 1];
    assert longer[..|longer| - 1] == s[start..p];
    TimesTen(Value(s[start..p], 10), s[p] as int - '0' as int);
    hide Wrap;
  }

  lemma TimesTen(v: int, d: int)
    ensures Wrap(Wrap(v) as int * 10 + d) == Wrap(v * 10 + d)
  {
    WrapPeriod(Wrap(v) as int * 10 + d, v / 0x1_0000_0000 * 10);
  }

  lemma Negated(v: int)
    ensures Wrap(0 - Wrap(v) as int) == Wrap(-v)
  {
    WrapPeriod(-v, v / 0x1_0000_0000);
  }

  /**
   Reading back a number printed as signed or unsigned, with nothing before it, gives the same 32 bits, the most
   negative number included; reading stops at the first character after the digits.
   */
  lemma RoundTrip(n: Word, fmt: char, justify: int, zeropad: bool, rest: seq<char>)
    requires Decimal(fmt)
    requires justify < 0 || Filler(n, fmt, justify, zeropad) == []
    requires rest == [] || !IsDigit(rest[0])
    ensures Parsed(Formatted(n, fmt, justify, zeropad) + rest, 0) == (Signed(n), |Core(n, fmt)|)
  {
    if justify < 0 {
      hide *;
      LeftReadsBack(n, fmt, justify, zeropad, rest);
    } else {
      hide Filler, Core, Parsed, LeadingSpaces;
      assert Filler(n, fmt, justify, zeropad) + Core(n, fmt) == Core(n, fmt);
      CoreReadsBack(n, fmt, rest);
    }
  }

  lemma LeftReadsBack(n: Word, fmt: char, justify: int, zeropad: bool, rest: seq<char>)
    requires Decimal(fmt) && justify < 0
    requires rest == [] || !IsDigit(rest[0])
    ensures Parsed(Formatted(n, fmt, justify, zeropad) + rest, 0) == (Signed(n), |Core(n, fmt)|)
  {
    hide Core, Filler, Formatted, Parsed, IsDigit, Decimal, Missing, Width, Numeral;
    var core, filler := Core(n, fmt), Filler(n, fmt, justify, zeropad);
    var tail := filler + rest;
    assert tail == [] || !IsDigit(tail[0]) by { FillerIsSpaces(n, fmt, justify, zeropad); }
    LeftJustified(n, fmt, justify, zeropad);
    CoreReadsBack(n, fmt, tail);
    assert core + filler + rest == core + tail;
  }

  lemma FillerIsSpaces(n: Word, fmt: char, justify: int, zeropad: bool)
    requires Decimal(fmt)
    ensures var filler := Filler(n, fmt, justify, zeropad); filler == [] || !IsDigit(filler[0])
  {
    hide Core, Missing, Width;
  }

  lemma CoreReadsBack(n: Word, fmt: char, tail: seq<char>)
    requires Decimal(fmt)
    requires tail == [] || !IsDigit(tail[0])
    ensures Parsed(Core(n, fmt) + tail, 0) == (Signed(n), |Core(n, fmt)|)
  {
    hide Numeral, Core, Value, DigitsEnd, Parsed, AllDigits, IsDigit, Decimal, Negative;
    var m := if Negative(n, fmt) then 0x1_0000_0000 - n else n;
    var sign, digits := if Negative(n, fmt) then "-" else "", Numeral(m, 10);
    NumeralDigits(m);
    NumeralMeans(m, 10);
    CoreParts(n, fmt);
    SignedText(sign, digits, tail, m);
    Magnitude(n, fmt);
  }

  lemma CoreParts(n: Word, fmt: char)
    requires Decimal(fmt)
    ensures Core(n, fmt) == (if Negative(n, fmt) then "-" else "")
                            + Numeral(if Negative(n, fmt) then 0x1_0000_0000 - n else n, 10)
  {
    hide Numeral;
    assert "" + Numeral(n, 10) == Numeral(n, 10);
  }

  lemma Magnitude(n: Word, fmt: char)
    ensures Signed(Wrap(if Negative(n, fmt) then 0 - (0x1_0000_0000 - n as int) else n)) == Signed(n)
  {
    WrapPeriod(n, -1);
  }

  lemma SignedText(sign: seq<char>, digits: seq<char>, tail: seq<char>, m: nat)
    requires sign == "" || sign == "-"
    requires digits != [] && AllDigits(digits) && Value(digits, 10) == m
    requires tail == [] || !IsDigit(tail[0])
    ensures Parsed(sign + digits + tail, 0) == (Signed(Wrap(if sign == "-" then 0 - m else m)), |sign + digits|)
  {
    var s := sign + digits + tail;
    hide Value, DigitsEnd, Parsed;
    assert s[|sign|..|sign + digits|] == digits;
    ReadsBack(s, |sign|, |sign + digits|, m);
  }

  lemma ReadsBack(s: seq<char>, start: nat, end: nat, m: nat)
    requires start <= end <= |s| && AllDigits(s[start..end]) && Value(s[start..end], 10) == m
    requires start == (if Minus(s, 0) then 1 else 0)
    requires end < |s| ==> !IsDigit(s[end])
    ensures Parsed(s, 0) == (Signed(Wrap(if Minus(s, 0) then 0 - m else m)), end)
  {
    DigitsEndAt(s, start, end);
    hide Value, DigitsEnd;
  }

  // ----- g_fprintf

  const BUFFER := 256

  /** What a format asks for, in order: a character, a string with spaces around it, or a number's text. */
  datatype Piece = Literal(c: char) | Str(before: nat, s: seq<char>, after: nat) | Num(t: seq<char>)

  /** The optional width, read from i on, and the index of the conversion letter after it. */
  function Directive(fmt: seq<char>, i: nat): (d: (int, nat))
    requires i < |fmt|
    ensures i <= d.1
  {
    var (justify, j) := Parsed(fmt, i);
    (justify, if j < |fmt| && (fmt[j] == 'l' || fmt[j] == 'z') then j + 1 else j)
  }

  /** No conversion breaks off before its letter, though a single % may end the format. */
  predicate Complete(fmt: seq<char>, i: nat)
    decreases |fmt| - i
  {
    if i >= |fmt| || i + 1 == |fmt| then true
    else if fmt[i] != '%' then Complete(fmt, i + 1)
    else if fmt[i + 1] == '%' then Complete(fmt, i + 2)
    else var at := Directive(fmt, i + 1).1; at < |fmt| && Complete(fmt, at + 1)
  }

  /** The variable arguments as words, and the string at an address. */
  datatype Args = Args(word: nat -> Word, memory: Word -> seq<char>) {
    function String(k: nat): seq<char> {
      if word(k) == 0 then "(null)" else memory(word(k))
    }
  }

  /** A string in its field. */
  function Padded(s: seq<char>, justify: int): Piece {
    Str(if justify > |s| then justify - |s| else 0, s, if -justify > |s| then -justify - |s| else 0)
  }

  function Converted(letter: char, justify: int, zeropad: bool, args: Args, k: nat): Piece {
    if letter == 's' then Padded(args.String(k), justify)
    else Num(Formatted(args.word(k), letter, justify, zeropad))
  }

  function Pieces(fmt: seq<char>, i: nat, args: Args, k: nat): seq<Piece>
    requires Complete(fmt, i)
    decreases |fmt| - i
  {
    if i >= |fmt| then []
    else if fmt[i] != '%' then [Literal(fmt[i])] + Pieces(fmt, i + 1, args, k)
    else if i + 1 == |fmt| then []
    else if fmt[i + 1] == '%' then [Literal('%')] + Pieces(fmt, i + 2, args, k)
    else
      var (justify, at) := Directive(fmt, i + 1);
      [Converted(fmt[at], justify, fmt[i + 1] == '0', args, k)] + Pieces(fmt, at + 1, args, k + 1)
  }

  /** What one piece puts into a buffer with room for left bytes: a string that does not fit is dropped, not cut. */
  function Shown(p: Piece, left: int): seq<char>
    requires left > 1
  {
    match p
    case Literal(c) => [c]
    case Num(t) => Prefix(t, left - 1)
    case Str(before, s, after) =>
      var pre := Min(before, left - 1);
      if |s| > left - pre - 1 then Repeat(' ', pre)
      else Repeat(' ', pre) + s + Repeat(' ', Min(after, left - pre - |s| - 1))
  }

  /** The room counted after it; a number is not charged, and nothing follows a string that did not fit. */
  function Remaining(p: Piece, left: int): int
    requires left > 1
  {
    match p
    case Literal(c) => left - 1
    case Num(t) => left
    case Str(before, s, after) =>
      var rest := left - Min(before, left - 1) - |s|;
      if rest < 1 then 0 else rest - Min(after, rest - 1)
  }

  /** The text sent for the pieces. */
  function Output(ps: seq<Piece>, left: int): seq<char> {
    if ps == [] || left <= 1 then []
    else Shown(ps[0], left) + Output(ps[1..], Remaining(ps[0], left))
  }

  /**
   What the piece itself stores into the buffer: a number ends in a terminator of its own, and a string that does not
   fit is stored as far as room was counted.
   */
  function Written(p: Piece, left: int): seq<char>
    requires left > 1
  {
    match p
    case Literal(_) => Shown(p, left)
    case Num(_) => Shown(p, left) + ['\0']
    case Str(before, s, _) =>
      var pre := Min(before, left - 1);
      if |s| > left - pre - 1 then Repeat(' ', pre) + s[..left - pre - 1] else Shown(p, left)
  }

  function Reach(p: Piece, left: int): nat
    requires left > 1
  {
    |Written(p, left)|
  }

  /** How many bytes of the buffer are stored to for the pieces, the last terminator included. */
  function Touched(ps: seq<Piece>, left: int): nat {
    if ps == [] || left <= 1 then 1
    else Max(Reach(ps[0], left), |Shown(ps[0], left)| + Touched(ps[1..], Remaining(ps[0], left)))
  }

  /** The buffer with what lies behind it, where the next character goes, the room counted, and what was not charged. */
  datatype Printer = Printer(buf: seq<char>, d: nat, room: int, numeric: nat)

  /** One piece printed. */
  function Step(t: Printer, p: Piece): Printer
    requires t.room > 1 && t.d + Reach(p, t.room) <= |t.buf|
  {
    Printer(Splice(t.buf, t.d, Written(p, t.room)), t.d + |Shown(p, t.room)|, Remaining(p, t.room),
            t.numeric + if p.Num? then |Shown(p, t.room)| else 0)
  }

  /** All pieces printed, and the terminator. */
  function Printed(t: Printer, ps: seq<Piece>): Printer
    requires t.d + Touched(ps, t.room) <= |t.buf|
    decreases |ps|
  {
    if ps == [] || t.room <= 1 then t.(buf := t.buf[t.d := '\0'])
    else Printed(Step(t, ps[0]), ps[1..])
  }

  lemma PrintedOne(t: Printer, p: Piece, rest: seq<Piece>)
    requires t.room > 1 && t.d + Touched([p] + rest, t.room) <= |t.buf|
    ensures t.d + Reach(p, t.room) <= |t.buf|
    ensures Step(t, p).d + Touched(rest, Step(t, p).room) <= |t.buf|
    ensures Printed(t, [p] + rest) == Printed(Step(t, p), rest)
  {
    hide Shown, Remaining, Written, Splice, Touched, Printed;
    assert ([p] + rest)[1..] == rest;
    PrintedOn(t, [p] + rest);
  }

  /**
   The text that is sent is in front of where printing stopped, with the terminator behind it, and numbers have put
   in what is not charged; nothing outside of what is touched has changed.
   */
  lemma {:induction false} PrintedText(t: Printer, ps: seq<Piece>)
    requires t.d + Touched(ps, t.room) <= |t.buf|
    ensures var r := Printed(t, ps);
      && |r.buf| == |t.buf| && r.d == t.d + |Output(ps, t.room)| < |r.buf| && r.buf[r.d] == '\0'
      && r.buf[..r.d] == t.buf[..t.d] + Output(ps, t.room)
      && r.numeric == t.numeric + Uncharged(ps, t.room)
      && r.buf[t.d + Touched(ps, t.room)..] == t.buf[t.d + Touched(ps, t.room)..]
    decreases |ps|
  {
    hide Shown, Remaining, Written, Splice, Output, Touched, Printed, Uncharged, Step;
    if ps != [] && t.room > 1 {
      OnePiece(ps, t.room);
      PrintedOn(t, ps);
      StepLeaves(t, ps[0]);
      PrintedText(Step(t, ps[0]), ps[1..]);
      PrintedJoins(t, ps, Step(t, ps[0]));
    } else {
      NothingPrinted(t, ps);
    }
  }

  lemma NothingPrinted(t: Printer, ps: seq<Piece>)
    requires (ps == [] || t.room <= 1) && t.d + Touched(ps, t.room) <= |t.buf|
    ensures Output(ps, t.room) == [] && Uncharged(ps, t.room) == 0 && Touched(ps, t.room) == 1 && t.d < |t.buf|
    ensures Printed(t, ps) == t.(buf := t.buf[t.d := '\0'])
    ensures Printed(t, ps).buf[t.d + Touched(ps, t.room)..] == t.buf[t.d + Touched(ps, t.room)..]
    ensures Printed(t, ps).buf[..t.d] == t.buf[..t.d]
  {
  }

  lemma StepLeaves(t: Printer, p: Piece)
    requires t.room > 1 && t.d + Reach(p, t.room) <= |t.buf|
    ensures var u := Step(t, p);
      && |u.buf| == |t.buf| && u.d == t.d + |Shown(p, t.room)| <= t.d + Reach(p, t.room)
      && u.room == Remaining(p, t.room)
      && u.numeric == t.numeric + (if p.Num? then |Shown(p, t.room)| else 0)
      && u.buf[..u.d] == t.buf[..t.d] + Shown(p, t.room)
      && u.buf[t.d + Reach(p, t.room)..] == t.buf[t.d + Reach(p, t.room)..]
  {
    hide Shown, Remaining, Written, Splice;
    ShownIsWritten(p, t.room);
    SpliceKeeps(t.buf, t.d, Written(p, t.room), |Shown(p, t.room)|);
    assert Written(p, t.room)[..|Shown(p, t.room)|] == Shown(p, t.room);
  }

  lemma ShownIsWritten(p: Piece, left: int)
    requires left > 1
    ensures Shown(p, left) <= Written(p, left)
  {
  }

  lemma SpliceKeeps(m: seq<char>, d: nat, t: seq<char>, n: nat)
    requires d + |t| <= |m| && n <= |t|
    ensures Splice(m, d, t)[..d + n] == m[..d] + t[..n]
    ensures Splice(m, d, t)[d + |t|..] == m[d + |t|..]
  {
  }

  /** The induction step of PrintedText: what the first piece leaves is what the others go on from. */
  lemma PrintedJoins(t: Printer, ps: seq<Piece>, u: Printer)
    requires ps != [] && t.room > 1 && t.d + Touched(ps, t.room) <= |t.buf|
    requires u == Step(t, ps[0]) && u.d <= |t.buf|
    requires u.buf[..u.d] == t.buf[..t.d] + Shown(ps[0], t.room)
    requires u.buf[t.d + Reach(ps[0], t.room)..] == t.buf[t.d + Reach(ps[0], t.room)..]
    requires var r := Printed(u, ps[1..]);
      && |r.buf| == |u.buf| && r.d <= |r.buf| && r.buf[..r.d] == u.buf[..u.d] + Output(ps[1..], u.room)
      && r.buf[u.d + Touched(ps[1..], u.room)..] == u.buf[u.d + Touched(ps[1..], u.room)..]
    ensures var r := Printed(t, ps);
      && r.buf[..r.d] == t.buf[..t.d] + Output(ps, t.room)
      && r.buf[t.d + Touched(ps, t.room)..] == t.buf[t.d + Touched(ps, t.room)..]
  {
    hide Shown, Remaining, Written, Splice, Output, Touched, Printed;
    OnePiece(ps, t.room);
    PrintedOn(t, ps);
    var r, n, rest := Printed(u, ps[1..]), t.d + Touched(ps, t.room), u.d + Touched(ps[1..], u.room);
    TextJoins(t.buf[..t.d], Shown(ps[0], t.room), Output(ps[1..], u.room));
    SameTail(r.buf, u.buf, rest, n);
    SameTail(u.buf, t.buf, t.d + Reach(ps[0], t.room), n);
  }

  lemma OnePiece(ps: seq<Piece>, left: int)
    requires ps != [] && left > 1
    ensures Output(ps, left) == Shown(ps[0], left) + Output(ps[1..], Remaining(ps[0], left))
    ensures Touched(ps, left) >= Reach(ps[0], left)
    ensures Touched(ps, left) >= |Shown(ps[0], left)| + Touched(ps[1..], Remaining(ps[0], left))
    ensures Uncharged(ps, left)
      == (if ps[0].Num? then |Shown(ps[0], left)| else 0) + Uncharged(ps[1..], Remaining(ps[0], left))
  {
    hide Shown, Remaining, Written;
  }

  lemma PrintedOn(t: Printer, ps: seq<Piece>)
    requires ps != [] && t.room > 1 && t.d + Touched(ps, t.room) <= |t.buf|
    ensures t.d + Reach(ps[0], t.room) <= |t.buf| && |Step(t, ps[0]).buf| == |t.buf|
    ensures var u := Step(t, ps[0]);
      && u.d + Touched(ps[1..], u.room) <= |t.buf|
      && Printed(t, ps) == Printed(u, ps[1..])
  {
    hide Shown, Remaining, Written, Splice;
  }

  lemma TextJoins(x: seq<char>, y: seq<char>, z: seq<char>)
    ensures x + y + z == x + (y + z)
  {
  }

  lemma SameTail(a: seq<char>, b: seq<char>, n: nat, k: nat)
    requires |a| == |b| && n <= k <= |a| && a[n..] == b[n..]
    ensures a[k..] == b[k..]
  {
    assert a[k..] == a[n..][k - n..] && b[k..] == b[n..][k - n..];
  }

  /** Everything that is touched is stored to: what was in the buffer before makes no difference there. */
  lemma {:induction false} TouchedIsStored(t: Printer, t': Printer, ps: seq<Piece>, k: nat)
    requires t.d + Touched(ps, t.room) <= |t.buf| == |t'.buf| && t'.d == t.d && t'.room == t.room
    requires k < t.d + Touched(ps, t.room) && (k < t.d ==> t.buf[k] == t'.buf[k])
    ensures |Printed(t, ps).buf| == |Printed(t', ps).buf| == |t.buf| && Printed(t, ps).buf[k] == Printed(t', ps).buf[k]
    decreases |ps|
  {
    hide Shown, Remaining, Written, Splice, Output, Touched, Printed;
    PrintedText(t, ps);
    PrintedText(t', ps);
    if ps != [] && t.room > 1 {
      OnePiece(ps, t.room);
      PrintedOn(t, ps);
      PrintedOn(t', ps);
      ShownIsWritten(ps[0], t.room);
      var u, u' := Step(t, ps[0]), Step(t', ps[0]);
      StepStores(t, t', ps[0], k);
      if k < u.d + Touched(ps[1..], u.room) {
        TouchedIsStored(u, u', ps[1..], k);
      } else {
        TouchedReaches(ps, t.room);
        KeptBehind(u, ps[1..], k);
        KeptBehind(u', ps[1..], k);
      }
    } else {
      NothingPrinted(t, ps);
      NothingPrinted(t', ps);
    }
  }

  lemma TouchedReaches(ps: seq<Piece>, left: int)
    requires ps != [] && left > 1
    ensures Touched(ps, left)
      == Max(Reach(ps[0], left), |Shown(ps[0], left)| + Touched(ps[1..], Remaining(ps[0], left)))
  {
    hide Shown, Remaining, Written;
  }

  lemma StepStores(t: Printer, t': Printer, p: Piece, k: nat)
    requires t.room == t'.room > 1 && t.d == t'.d && t.d + Reach(p, t.room) <= |t.buf| == |t'.buf| && k < |t.buf|
    requires k < t.d + Reach(p, t.room) ==> (k < t.d ==> t.buf[k] == t'.buf[k])
    ensures k < t.d + Reach(p, t.room) ==> Step(t, p).buf[k] == Step(t', p).buf[k]
  {
    hide Shown, Remaining, Written;
  }

  lemma KeptBehind(t: Printer, ps: seq<Piece>, k: nat)
    requires t.d + Touched(ps, t.room) <= k < |t.buf|
    ensures |Printed(t, ps).buf| == |t.buf| && Printed(t, ps).buf[k] == t.buf[k]
  {
    hide Touched, Printed, Output, Uncharged;
    PrintedText(t, ps);
    var n := t.d + Touched(ps, t.room);
    assert Printed(t, ps).buf[n..][k - n] == t.buf[n..][k - n];
  }

  // ----- the printing loop

  /** memcpy of n characters. */
  method CopyChars(buf: array<char>, d: nat, ns: seq<char>, n: nat)
    requires n <= |ns| && d + n <= buf.Length
    modifies buf
    ensures buf[..] == Splice(old(buf[..]), d, ns[..n])
  {
    hide Splice;
    var i := 0;
    SpliceNothing(buf[..], d);
    assert ns[..0] == [];
    while i < n
      invariant 0 <= i <= n && buf[..] == Splice(old(buf[..]), d, ns[..i])
    {
      SpliceMore(old(buf[..]), d, ns[..i], ns[i]);
      assert ns[..i + 1] == ns[..i] + [ns[i]];
      buf[d + i] := ns[i];
      i := i + 1;
    }
  }

  /** The string conversion, with its padding on either side. */
  method PutString(buf: array<char>, d: nat, ns: seq<char>, justify: int, room: int)
    returns (d': nat, left: int, stop: bool)
    requires room > 1 && d + Reach(Padded(ns, justify), room) <= buf.Length
    modifies buf
    ensures var p := Padded(ns, justify);
      && buf[..] == Splice(old(buf[..]), d, Written(p, room)) && d' == d + |Shown(p, room)|
      && (if stop then Remaining(p, room) == 0 else Remaining(p, room) == left)
    ensures (d' - d) + left == room && left >= 1
  {
    hide Splice, Repeat;
    ghost var m := buf[..];
    var len := |ns|;
    d', left := PutSpaces(buf, d, justify - len, room);
    ghost var pre := Repeat(' ', d' - d);
    if len > left - 1 {
      CopyChars(buf, d', ns, left - 1);
      SpliceOn(m, d, pre, ns[..left - 1]);
      return d', left, true;
    }
    CopyChars(buf, d', ns, len);
    assert ns[..len] == ns;
    SpliceOn(m, d, pre, ns);
    d', left := d' + len, left - len;
    ghost var start := d';
    d', left := PutSpaces(buf, d', -len - justify, left);
    SpliceOn(m, d, pre + ns, Repeat(' ', d' - start));
    stop := false;
  }

  /** One conversion whose letter is at the index the directive leads to. */
  method PutConversion(buf: array<char>, d: nat, fmt: seq<char>, at: nat, args: Args, k: nat, room: int)
    returns (d': nat, next: nat, left: int, stop: bool)
    requires at < |fmt| && Directive(fmt, at).1 < |fmt| && room > 1
    requires d + Reach(ConversionAt(fmt, at, args, k), room) <= buf.Length
    modifies buf
    ensures var p := ConversionAt(fmt, at, args, k);
      && next == Directive(fmt, at).1 + 1
      && buf[..] == Splice(old(buf[..]), d, Written(p, room)) && d' == d + |Shown(p, room)|
      && (if stop then Remaining(p, room) == 0 else Remaining(p, room) == left)
      && (d' - d) + left == room + (if p.Num? then |Shown(p, room)| else 0) && left >= 1
  {
    hide Shown, Remaining, Written, Directive, Formatted, Splice;
    DirectiveIs(fmt, at);
    var zeropad := fmt[at] == '0';
    var justify, p := ParseDec(fmt, at);
    if p < |fmt| && (fmt[p] == 'l' || fmt[p] == 'z') { p := p + 1; }
    next := p + 1;
    if fmt[p] == 's' {
      d', left, stop := PutString(buf, d, args.String(k), justify, room);
    } else {
      NumberWritten(Formatted(args.word(k), fmt[p], justify, zeropad), room);
      ghost var scratch;
      d', scratch := FormatNumber(buf, d, room, args.word(k), fmt[p], justify, zeropad);
      left, stop := room, false;
    }
  }

  /** The piece a conversion at at asks for. */
  function ConversionAt(fmt: seq<char>, at: nat, args: Args, k: nat): Piece
    requires at < |fmt| && Directive(fmt, at).1 < |fmt|
  {
    var (justify, letter) := Directive(fmt, at);
    Converted(fmt[letter], justify, fmt[at] == '0', args, k)
  }

  lemma NumberWritten(t: seq<char>, left: int)
    requires left > 1
    ensures Shown(Num(t), left) == Prefix(t, left - 1) && Written(Num(t), left) == Prefix(t, left - 1) + ['\0']
    ensures Remaining(Num(t), left) == left
  {
  }

  lemma DirectiveIs(fmt: seq<char>, i: nat)
    requires i < |fmt|
    ensures var (justify, j) := Parsed(fmt, i);
      Directive(fmt, i) == (justify, if j < |fmt| && (fmt[j] == 'l' || fmt[j] == 'z') then j + 1 else j)
  {
  }

  /** The room counted when printing stops: at a string that does not fit, what its padding left. */
  function FinalRoom(ps: seq<Piece>, left: int): int {
    if ps == [] || left <= 1 then left
    else if Remaining(ps[0], left) == 0 then left - Min(ps[0].before, left - 1)
    else FinalRoom(ps[1..], Remaining(ps[0], left))
  }

  /** What is sent and the room left make up the room at first, and what numbers put in. */
  lemma {:induction false} Accounting(ps: seq<Piece>, left: int)
    ensures |Output(ps, left)| + FinalRoom(ps, left) == left + Uncharged(ps, left)
    decreases |ps|
  {
    if ps != [] && left > 1 {
      TouchedPiece(ps[0], left);
      hide Shown, Written;
      Accounting(ps[1..], Remaining(ps[0], left));
    }
  }

  /** What is still to come, from where printing stands, makes up the whole. */
  predicate ToCome(r: Printer, fmt: seq<char>, s: nat, args: Args, k: nat, t: Printer) {
    && Complete(fmt, s) && t.d + Touched(Pieces(fmt, s, args, k), t.room) <= |t.buf|
    && r == Printed(t, Pieces(fmt, s, args, k))
  }

  /**
   What is sent is the output of the format's pieces. At every loop head, what is in the buffer and the room left add
   up to the buffer and the characters that came from number conversions, which are never charged; so what is stored
   to, buf up to Touched, can be more than the buffer.
   */
  method Fprintf(buf: array<char>, fmt: seq<char>, args: Args)
    returns (sent: seq<char>, ghost left: int, ghost numeric: nat)
    requires Complete(fmt, 0) && Touched(Pieces(fmt, 0, args, 0), BUFFER) <= buf.Length
    modifies buf
    ensures var ps := Pieces(fmt, 0, args, 0);
      && sent == Output(ps, BUFFER)
      && buf[..] == Printed(Printer(old(buf[..]), 0, BUFFER, 0), ps).buf
      && buf[Touched(ps, BUFFER)..] == old(buf[Touched(ps, BUFFER)..])
      && numeric == Uncharged(ps, BUFFER) && left == FinalRoom(ps, BUFFER) && |sent| + left == BUFFER + numeric
  {
    hide Output, Touched, Pieces, Shown, Remaining, Written, Directive, Complete, Converted, ToCome, Printed, Splice;
    hide Uncharged, FinalRoom;
    var s, d, k, room := 0, 0, 0, BUFFER;
    ghost var ps := Pieces(fmt, 0, args, 0);
    ghost var t := Printer(buf[..], 0, BUFFER, 0);
    ghost var r := Printed(t, ps);
    PrintedText(t, ps);
    Accounting(ps, BUFFER);
    numeric := 0;
    AtFirst(fmt, args, t);
    ghost var ended := false;
    while s < |fmt| && room > 1
      invariant d >= 0 && d + room == BUFFER + numeric && room >= 1
      invariant !ended && ToCome(r, fmt, s, args, k, Printer(buf[..], d, room, numeric))
      decreases |fmt| - s
    {
      t := Printer(buf[..], d, room, numeric);
      left := room;
      if fmt[s] == '%' && s + 1 == |fmt| {
        LoneSign(r, fmt, s, args, k, t);
        ended := true;
        break;
      }
      if fmt[s] != '%' || fmt[s + 1] == '%' {
        OneCharacter(r, fmt, s, args, k, t);
        if fmt[s] == '%' { s := s + 1; }
        buf[d] := fmt[s];
        d, s, room := d + 1, s + 1, room - 1;
        continue;
      }
      ghost var p := OneConversion(r, fmt, s, args, k, t);
      var d', next, rest, stop := PutConversion(buf, d, fmt, s + 1, args, k, room);
      numeric := numeric + (d' - d) + rest - room;
      d, s, k, room := d', next, k + 1, rest;
      if stop {
        NothingMore(r, fmt, s, args, k, Step(t, p));
        ended := true;
        break;
      }
    }
    if !ended { NothingMore(r, fmt, s, args, k, Printer(buf[..], d, room, numeric)); }
    left := room;
    buf[d] := '\0';
    sent := buf[..d];
  }

  lemma AtFirst(fmt: seq<char>, args: Args, t: Printer)
    requires Complete(fmt, 0) && t.d + Touched(Pieces(fmt, 0, args, 0), t.room) <= |t.buf|
    ensures ToCome(Printed(t, Pieces(fmt, 0, args, 0)), fmt, 0, args, 0, t)
  {
    hide Touched, Pieces, Complete, Printed;
  }

  lemma PiecesOfCharacter(fmt: seq<char>, s: nat, args: Args, k: nat)
    requires Complete(fmt, s) && s < |fmt|
    ensures fmt[s] == '%' && s + 1 == |fmt| ==> Pieces(fmt, s, args, k) == []
    ensures fmt[s] != '%' ==>
      && Complete(fmt, s + 1)
      && Pieces(fmt, s, args, k) == [Literal(fmt[s])] + Pieces(fmt, s + 1, args, k)
    ensures fmt[s] == '%' && s + 1 < |fmt| && fmt[s + 1] == '%' ==>
      && Complete(fmt, s + 2)
      && Pieces(fmt, s, args, k) == [Literal('%')] + Pieces(fmt, s + 2, args, k)
  {
    hide Directive, Converted;
  }

  lemma PiecesOfConversion(fmt: seq<char>, s: nat, args: Args, k: nat)
    requires Complete(fmt, s) && s + 1 < |fmt| && fmt[s] == '%' && fmt[s + 1] != '%'
    ensures var at := Directive(fmt, s + 1).1;
      && at < |fmt| && Complete(fmt, at + 1)
      && Pieces(fmt, s, args, k) == [ConversionAt(fmt, s + 1, args, k)] + Pieces(fmt, at + 1, args, k + 1)
  {
    hide Directive, Converted;
  }

  lemma LoneSign(r: Printer, fmt: seq<char>, s: nat, args: Args, k: nat, t: Printer)
    requires ToCome(r, fmt, s, args, k, t) && s + 1 == |fmt| && fmt[s] == '%'
    ensures t.d < |t.buf| && r == t.(buf := t.buf[t.d := '\0'])
  {
    hide Pieces, Complete;
    PiecesOfCharacter(fmt, s, args, k);
  }

  lemma NothingMore(r: Printer, fmt: seq<char>, s: nat, args: Args, k: nat, t: Printer)
    requires ToCome(r, fmt, s, args, k, t) && (t.room <= 1 || s >= |fmt|)
    ensures t.d < |t.buf| && r == t.(buf := t.buf[t.d := '\0'])
  {
  }

  lemma OneCharacter(r: Printer, fmt: seq<char>, s: nat, args: Args, k: nat, t: Printer)
    requires ToCome(r, fmt, s, args, k, t) && t.room > 1 && s < |fmt|
    requires fmt[s] == '%' ==> s + 1 < |fmt| && fmt[s + 1] == '%'
    ensures var next := if fmt[s] == '%' then s + 2 else s + 1;
      && t.d < |t.buf|
      && ToCome(r, fmt, next, args, k, Printer(t.buf[t.d := fmt[next - 1]], t.d + 1, t.room - 1, t.numeric))
  {
    hide Pieces, Complete, Touched, Printed;
    var next := if fmt[s] == '%' then s + 2 else s + 1;
    PiecesOfCharacter(fmt, s, args, k);
    PrintedOne(t, Literal(fmt[next - 1]), Pieces(fmt, next, args, k));
    SpliceMore(t.buf, t.d, [], fmt[next - 1]);
    SpliceNothing(t.buf, t.d);
    assert [] + [fmt[next - 1]] == [fmt[next - 1]];
    hide Splice;
  }

  lemma OneConversion(r: Printer, fmt: seq<char>, s: nat, args: Args, k: nat, t: Printer) returns (p: Piece)
    requires ToCome(r, fmt, s, args, k, t) && t.room > 1
    requires s + 1 < |fmt| && fmt[s] == '%' && fmt[s + 1] != '%'
    ensures Directive(fmt, s + 1).1 < |fmt| && p == ConversionAt(fmt, s + 1, args, k)
    ensures t.d + Reach(p, t.room) <= |t.buf|
    ensures ToCome(r, fmt, Directive(fmt, s + 1).1 + 1, args, k + 1, Step(t, p))
  {
    hide Pieces, Complete, Touched, Printed, Directive, ConversionAt, Shown, Remaining, Splice, Written;
    PiecesOfConversion(fmt, s, args, k);
    p := ConversionAt(fmt, s + 1, args, k);
    PrintedOne(t, p, Pieces(fmt, Directive(fmt, s + 1).1 + 1, args, k + 1));
  }

  // ----- what is lost when the buffer is short

  function Full(p: Piece): seq<char> {
    match p
    case Literal(c) => [c]
    case Num(t) => t
    case Str(before, s, after) => Repeat(' ', before) + s + Repeat(' ', after)
  }

  /** All the text a format asks for. */
  function All(ps: seq<Piece>): seq<char> {
    if ps == [] then [] else Full(ps[0]) + All(ps[1..])
  }

  /** Text that fits is sent whole, inside the buffer. */
  lemma {:induction false} FittingText(ps: seq<Piece>, left: int)
    requires |All(ps)| <= left - 1
    ensures Output(ps, left) == All(ps) && Touched(ps, left) == |All(ps)| + 1
  {
    if ps != [] && left > 1 {
      var p, rest := ps[0], Remaining(ps[0], left);
      PieceFits(p, left);
      hide Shown, Remaining, Full, Reach;
      FittingText(ps[1..], rest);
    }
  }

  lemma PieceFits(p: Piece, left: int)
    requires left > 1 && |Full(p)| <= left - 1
    ensures Shown(p, left) == Full(p) && Remaining(p, left) >= left - |Full(p)| && Reach(p, left) <= |Full(p)| + 1
  {
  }

  /** All the text is sent, and inside the buffer, exactly if it fits. */
  lemma WholeTextSent(fmt: seq<char>, args: Args)
    requires Complete(fmt, 0)
    ensures var ps := Pieces(fmt, 0, args, 0);
      Output(ps, BUFFER) == All(ps) && Touched(ps, BUFFER) <= BUFFER <==> |All(ps)| <= BUFFER - 1
  {
    var ps := Pieces(fmt, 0, args, 0);
    TouchedBeyond(ps, BUFFER);
    hide Output, Touched, Pieces, All, Complete;
    if |All(ps)| <= BUFFER - 1 { FittingText(ps, BUFFER); }
  }

  /** The terminator lies behind all that is sent. */
  lemma {:induction false} TouchedBeyond(ps: seq<Piece>, left: int)
    ensures Touched(ps, left) >= |Output(ps, left)| + 1
    decreases |ps|
  {
    if ps != [] && left > 1 {
      var rest := Remaining(ps[0], left);
      hide Shown, Remaining, Reach;
      TouchedBeyond(ps[1..], rest);
    }
  }

  /** The characters that numbers put into the buffer. */
  function Uncharged(ps: seq<Piece>, left: int): nat {
    if ps == [] || left <= 1 then 0
    else (if ps[0].Num? then |Shown(ps[0], left)| else 0) + Uncharged(ps[1..], Remaining(ps[0], left))
  }

  /** The room counted where a string does not fit; 0 if all of them do. */
  function RoomAtDrop(ps: seq<Piece>, left: int): nat {
    if ps == [] || left <= 1 then 0
    else if Remaining(ps[0], left) == 0 then left - Min(ps[0].before, left - 1)
    else RoomAtDrop(ps[1..], Remaining(ps[0], left))
  }

  /**
   How far the buffer is stored to, exactly: behind the text sent, or, at a string that does not fit, as far as the
   room that is counted, which numbers have pushed beyond the end by as many bytes as they have digits.
   */
  lemma {:induction false} TouchedExactly(ps: seq<Piece>, left: int)
    ensures Touched(ps, left)
      == if RoomAtDrop(ps, left) > 1 then left - 1 + Uncharged(ps, left) else |Output(ps, left)| + 1
    decreases |ps|
  {
    if ps != [] && left > 1 {
      TouchedExactly(ps[1..], Remaining(ps[0], left));
      TouchedPiece(ps[0], left);
      TouchedBeyond(ps[1..], Remaining(ps[0], left));
      hide Shown, Remaining, Reach;
    }
  }

  lemma TouchedPiece(p: Piece, left: int)
    requires left > 1
    ensures Remaining(p, left) == 0 ==> p.Str? && Reach(p, left) == left - 1
    ensures Remaining(p, left) == 0 ==> |Shown(p, left)| == Min(p.before, left - 1)
    ensures Remaining(p, left) != 0 ==> Reach(p, left) <= |Shown(p, left)| + 1
    ensures Remaining(p, left) > 0 ==> Remaining(p, left) == left - if p.Num? then 0 else |Shown(p, left)|
  {
  }

  /** Without numbers, a prefix of the text is sent that fits the buffer; it is all of it exactly if that fits. */
  lemma {:induction false} PlainTextCut(ps: seq<Piece>, left: int)
    requires left >= 1 && forall p | p in ps :: !p.Num?
    ensures Output(ps, left) <= All(ps) && |Output(ps, left)| <= left - 1
    ensures Output(ps, left) == All(ps) <==> |All(ps)| <= left - 1
  {
    hide Shown, Remaining, Full;
    if ps != [] && left > 1 {
      var p, rest := ps[0], Remaining(ps[0], left);
      var output, all := Output(ps[1..], rest), All(ps[1..]);
      assert Output(ps, left) == Shown(p, left) + output && All(ps) == Full(p) + all;
      assert rest <= 1 ==> output == [];
      PieceCut(p, left);
      if rest >= 1 { PlainTextCut(ps[1..], rest); }
      hide Output, All;
      Joined(Shown(p, left), Full(p), output, all);
    }
  }

  /** Two prefixes in a row make a prefix if the first one is whole or the second one empty. */
  lemma Joined(x: seq<char>, full: seq<char>, y: seq<char>, all: seq<char>)
    requires x <= full && y <= all && (x == full || y == [])
    ensures x + y <= full + all
    ensures x + y == full + all <==> |x| + |y| == |full| + |all|
  {
    if |x| + |y| == |full| + |all| {
      assert x == full && y == all;
    }
  }

  lemma PieceCut(p: Piece, left: int)
    requires left > 1 && !p.Num?
    ensures Shown(p, left) <= Full(p) && |Shown(p, left)| <= left - 1
    ensures Remaining(p, left) >= 1 ==> Remaining(p, left) == left - |Shown(p, left)|
    ensures Remaining(p, left) > 1 ==> Shown(p, left) == Full(p)
    ensures Remaining(p, left) < 1 ==> |Full(p)| > left - 1
    ensures |Full(p)| <= left - 1 ==> Shown(p, left) == Full(p)
  {
  }

  // ----- numbers that overrun

  /** n unsigned conversions of width 31 in a row. */
  predicate WideNumbers(fmt: seq<char>, n: nat) {
    |fmt| == 4 * n && forall j | 0 <= j < n :: fmt[4 * j..4 * j + 4] == "%31u"
  }

  lemma WideDirective(fmt: seq<char>, i: nat)
    requires i + 4 <= |fmt| && fmt[i..i + 4] == "%31u"
    ensures fmt[i] == '%' && fmt[i + 1] == '3' && fmt[i + 3] == 'u' && Directive(fmt, i + 1) == (31, i + 3)
  {
    assert fmt[i] == fmt[i..i + 4][0] && fmt[i + 1] == fmt[i..i + 4][1];
    assert fmt[i + 2] == fmt[i..i + 4][2] && fmt[i + 3] == fmt[i..i + 4][3];
    var digits := fmt[i + 1..i + 3];
    assert digits == ['3', '1'] && digits[..1] == ['3'] && digits[..1][..0] == [];
    DigitsEndAt(fmt, i + 1, i + 3);
    ThirtyOne();
    hide DigitsEnd, Value;
  }

  lemma ThirtyOne()
    ensures AllDigits(['3', '1']) && Value(['3', '1'], 10) == 31
  {
    var s: seq<char> := ['3', '1'];
    assert s[..1] == ['3'] && s[..1][..0] == [];
    assert Value(s[..1][..0], 10) == 0;
    assert Value(s[..1], 10) == 3;
  }

  lemma {:induction false} WidePieces(fmt: seq<char>, n: nat, j: nat, args: Args, k: nat)
    requires WideNumbers(fmt, n) && j <= n
    ensures Complete(fmt, 4 * j)
    ensures |Pieces(fmt, 4 * j, args, k)| == n - j
    ensures forall p | p in Pieces(fmt, 4 * j, args, k) :: p.Num? && |p.t| == 31
    decreases n - j
  {
    if j < n {
      hide Directive, Formatted, ConversionAt;
      WideStep(fmt, n, j, args, k);
      WidePieces(fmt, n, j + 1, args, k + 1);
      PiecesOfConversion(fmt, 4 * j, args, k);
      WideText(args.word(k));
    }
  }

  lemma WideStep(fmt: seq<char>, n: nat, j: nat, args: Args, k: nat)
    requires WideNumbers(fmt, n) && j < n
    ensures Directive(fmt, 4 * j + 1) == (31, 4 * j + 3)
    ensures fmt[4 * j] == '%' && fmt[4 * j + 1] != '%'
    ensures ConversionAt(fmt, 4 * j + 1, args, k) == Num(Formatted(args.word(k), 'u', 31, false))
  {
    hide Directive, Formatted;
    WideDirective(fmt, 4 * j);
  }

  lemma WideText(n: Word)
    ensures |Formatted(n, 'u', 31, false)| == 31
  {
    hide Formatted, Core, Numeral;
    FieldWidth(n, 'u', 31, false);
    CoreLength(n, 'u');
  }

  lemma {:induction false} WideOutput(ps: seq<Piece>, left: int)
    requires left >= 32 && forall p | p in ps :: p.Num? && |p.t| == 31
    ensures |Output(ps, left)| == 31 * |ps| && Output(ps, left) == All(ps)
  {
    if ps != [] {
      assert ps[0] in ps;
      WideOutput(ps[1..], left);
    }
  }

  /** Nine numbers of width 31 are stored to 280 bytes of the 256, none of them charged. */
  lemma NumbersOverrun(fmt: seq<char>, args: Args)
    requires WideNumbers(fmt, 9)
    ensures Complete(fmt, 0)
    ensures var ps := Pieces(fmt, 0, args, 0);
      Output(ps, BUFFER) == All(ps) && |Output(ps, BUFFER)| == 279 && Touched(ps, BUFFER) == 280
  {
    WidePieces(fmt, 9, 0, args, 0);
    var ps := Pieces(fmt, 0, args, 0);
    WideOutput(ps, BUFFER);
    TouchedExactly(ps, BUFFER);
    NothingDropped(ps, BUFFER);
    hide Output, All, Touched, Uncharged, RoomAtDrop, WideNumbers;
  }

  lemma {:induction false} NothingDropped(ps: seq<Piece>, left: int)
    requires forall p | p in ps :: p.Num?
    ensures RoomAtDrop(ps, left) == 0
  {
    if ps != [] && left > 1 {
      assert ps[0] in ps;
      NothingDropped(ps[1..], left);
    }
  }
}
