/**
 What a blit does to memory, in the register values alone: no accessor of the blitter is used to say it. Addresses are
 those of the GP2X, upper memory being mapped at host address at.
 */
module Blits {
  import opened Words
  import opened IoOps
  import opened Blitter

  /** What a store to each register holds, in the order of their addresses. */
  datatype Values = Values(
    dstctrl: Word, dstaddr: Word, dststride: Word, srcctrl: Word, srcaddr: Word, srcstride: Word,
    patbackcolor: Word, size: Word, ctrl: Word)
  {
    function File(): Registers {
      Registers(dstctrl, dstaddr, dststride, srcctrl, srcaddr, srcstride, patbackcolor, size, ctrl)
    }

    /** Bit 5 of the destination control register chooses 16 bits per pixel, bit 11 of the last one a key colour. */
    predicate Keyed() { dstctrl as int / 0x20 % 2 == 1 && ctrl as int / 0x800 % 2 == 1 }

    function Bytes(): nat { size as int % 0x800 * if dstctrl as int / 0x20 % 2 == 1 then 2 else 1 }
    function Rows(): nat { size as int / 0x1_0000 % 0x800 }

    /** An address register is rounded down to a word; bits 3 and 4 of the control register choose the byte in it. */
    function ToAddress(): int { dstaddr as int - dstaddr as int % 4 + dstctrl as int / 8 % 4 }
    function FromAddress(): int { srcaddr as int - srcaddr as int % 4 + srcctrl as int / 8 % 4 }
  }

  /** The 32 MB that are mapped at at. */
  predicate IsUpper(a: int) { 0x200_0000 <= a < 0x400_0000 }

  function HostAddress(at: HostBase, a: int): int { at as int + a - 0x200_0000 }

  /** A stride register as a signed number. */
  function Stride(w: Word): int { if w < 0x8000_0000 then w as int else w as int - 0x1_0000_0000 }

  /** Where row y starts; with a key, half-words are copied, from the even address below. */
  function RowStart(at: HostBase, first: int, stride: int, y: nat, even: bool): int {
    var a := HostAddress(at, first) + y * stride;
    if even then a - a % 2 else a
  }

  // ----- what is planned

  lemma Target(v: Values)
    ensures v.File().Target() == v.ToAddress() && v.File().Origin() == v.FromAddress()
    ensures v.File().TargetStride() == Stride(v.dststride) && v.File().OriginStride() == Stride(v.srcstride)
  {
    PlaceIs(v.dstaddr, v.dstctrl);
    PlaceIs(v.srcaddr, v.srcctrl);
  }

  lemma PlaceIs(addr: Word, ctrl: Word)
    ensures Place(addr, ctrl) == addr as int - addr as int % 4 + ctrl as int / 8 % 4
  {
    var q, r := ctrl as int / 0x20, ctrl as int % 0x20;
    DivUnique(ctrl, 8, q * 4 + r / 8, r % 8);
    DivUnique(q * 4 + r / 8, 4, q, r / 8);
  }

  lemma UpperIs(a: Word)
    ensures Upper(a) == if IsUpper(a) then Some(a as int - 0x200_0000) else None
  {
  }

  /** Bit 7 of the source control register asks for a copy, bit 8 says that the source is in memory. */
  predicate Copying(v: Values) { v.srcctrl as int / 0x80 % 2 == 1 }

  predicate Possible(v: Values) {
    && IsUpper(v.ToAddress())
    && (Copying(v) ==> v.srcctrl as int / 0x100 % 2 == 1 && IsUpper(v.FromAddress()))
  }

  /** A side of the rectangle, from the register values. */
  function ToSide(at: HostBase, v: Values, even: bool): Side
    requires Possible(v)
  {
    Side(HostAddress(at, v.ToAddress()), Stride(v.dststride), even)
  }

  function FromSide(at: HostBase, v: Values, even: bool): Side
    requires Possible(v) && Copying(v)
  {
    Side(HostAddress(at, v.FromAddress()), Stride(v.srcstride), even)
  }

  /**
   How many rows one clip leaves, for pointers that do not wrap around: all of them, if the rows end in upper memory,
   and otherwise as many as fit in.
   */
  function RowsLeft(at: HostBase, first: int, stride: int, h: int): int
    requires IsUpper(first)
  {
    var p, end := HostAddress(at, first), HostAddress(at, 0x400_0000);
    if stride <= 0 || p + stride * h <= end then h else (end - p) / stride
  }

  predicate EndsBelow(at: HostBase, first: int, stride: int, h: int) {
    0 <= HostAddress(at, first) + stride * h < 0x1_0000_0000
  }

  lemma ClipIs(at: HostBase, first: int, stride: int, h: nat)
    requires IsUpper(first) && EndsBelow(at, first, stride, h)
    ensures InUpper(at, HostAddress(at, first))
    ensures Clip(at, HostAddress(at, first), stride, h) == RowsLeft(at, first, stride, h) >= 0
  {
    if stride <= 0 {
      LowerProduct(-stride, 0, h);
      assert stride * h == -(-stride * h);
    }
    ClipCases(at, HostAddress(at, first), stride, h, stride * h);
  }

  lemma ClipCases(at: HostBase, p: int, stride: int, h: nat, length: int)
    requires InUpper(at, p) && length == stride * h && 0 <= p + length < 0x1_0000_0000 && (stride <= 0 ==> length <= 0)
    ensures
      var end := at as int + UPPER_SIZE;
      Clip(at, p, stride, h) == (if stride <= 0 || p + length <= end then h else (end - p) / stride) >= 0
  {
    assert Wrap(p + length) == p + length;
    hide Wrap;
  }

  /** No pointer that a clip compares wraps around. */
  predicate Tame(at: HostBase, v: Values)
    requires Possible(v)
  {
    if Copying(v) then
      && EndsBelow(at, v.FromAddress(), Stride(v.srcstride), v.Rows())
      && EndsBelow(at, v.ToAddress(), Stride(v.dststride),
                  RowsLeft(at, v.FromAddress(), Stride(v.srcstride), v.Rows()))
    else EndsBelow(at, v.ToAddress(), Stride(v.dststride), v.Rows())
  }

  /** The rows that are left after both clips. */
  function Height(at: HostBase, v: Values): nat
    requires Possible(v)
  {
    var h := if Copying(v) then RowsLeft(at, v.FromAddress(), Stride(v.srcstride), v.Rows()) else v.Rows();
    Max(RowsLeft(at, v.ToAddress(), Stride(v.dststride), h), 0)
  }

  /** A blit is made exactly if its addresses are in upper memory, and a copy's source is said to be in memory. */
  lemma PlannedExactly(at: HostBase, v: Values)
    ensures Plan(at, v.File()).Some? <==> Possible(v)
  {
    Target(v);
    UpperIs(v.File().Target());
    UpperIs(v.File().Origin());
    hide Place, Upper, Clip, Registers.Target, Registers.Origin, Registers.Key, Registers.RowBytes, Values.ToAddress;
    hide Values.FromAddress;
  }

  lemma CopyIs(at: HostBase, v: Values)
    requires Possible(v) && Tame(at, v) && Copying(v)
    ensures
      var key := if v.Keyed() then Some((v.ctrl as int / 0x1_0000) as Half) else None;
      Plan(at, v.File())
        == Some(Copy(ToSide(at, v, v.Keyed()), FromSide(at, v, v.Keyed()), Height(at, v), v.Bytes(), key))
  {
    var h := RowsLeft(at, v.FromAddress(), Stride(v.srcstride), v.Rows());
    ClipIs(at, v.FromAddress(), Stride(v.srcstride), v.Rows());
    ClipIs(at, v.ToAddress(), Stride(v.dststride), h);
    PlannedCopy(at, v);
    hide *;
  }

  lemma PlannedCopy(at: HostBase, v: Values)
    requires Possible(v) && Copying(v)
    requires InUpper(at, HostAddress(at, v.ToAddress())) && InUpper(at, HostAddress(at, v.FromAddress()))
    ensures
      var key := if v.Keyed() then Some((v.ctrl as int / 0x1_0000) as Half) else None;
      var h := Clip(at, HostAddress(at, v.ToAddress()), Stride(v.dststride),
                    Clip(at, HostAddress(at, v.FromAddress()), Stride(v.srcstride), v.Rows()));
      Plan(at, v.File())
        == Some(Copy(ToSide(at, v, v.Keyed()), FromSide(at, v, v.Keyed()), Max(h, 0), v.Bytes(), key))
  {
    Target(v);
    UpperIs(v.File().Target());
    UpperIs(v.File().Origin());
    hide Place, Upper, Clip, Registers.Target, Registers.Origin, Values.ToAddress, Values.FromAddress;
    hide Registers.TargetStride, Registers.OriginStride, Stride;
  }

  lemma FillIs(at: HostBase, v: Values)
    requires Possible(v) && Tame(at, v) && !Copying(v)
    ensures
      var wide := v.dstctrl as int / 0x20 % 2 == 1;
      Plan(at, v.File())
        == Some(Fill(ToSide(at, v, wide), Height(at, v), v.size as int % 0x800, v.patbackcolor as int % 0x1_0000))
  {
    Target(v);
    UpperIs(v.File().Target());
    ClipIs(at, v.ToAddress(), Stride(v.dststride), v.Rows());
    hide Place, Upper, Clip, RowsLeft, Registers.Target, Registers.Origin, Values.ToAddress, Values.FromAddress;
    hide Registers.TargetStride, Registers.OriginStride, Stride, EndsBelow;
  }

  // ----- what memory holds afterwards

  lemma RowsStart(at: HostBase, v: Values, y: nat, even: bool)
    requires Possible(v)
    ensures ToSide(at, v, even).Row(y) == RowStart(at, v.ToAddress(), Stride(v.dststride), y, even)
    ensures Copying(v) ==>
              FromSide(at, v, even).Row(y) == RowStart(at, v.FromAddress(), Stride(v.srcstride), y, even)
  {
    Floored(ToSide(at, v, even).base + y * Stride(v.dststride));
    if Copying(v) { Floored(FromSide(at, v, even).base + y * Stride(v.srcstride)); }
    hide HostAddress, Values.ToAddress, Values.FromAddress, Stride;
  }

  lemma Floored(a: int)
    ensures a - a % 2 == a / 2 * 2
  {
  }

  /** A blit that can be made, in memory of this size. */
  ghost predicate Makes(at: HostBase, v: Values, size: nat) {
    Possible(v) && Tame(at, v) && Plan(at, v.File()).Some? && Fits(Plan(at, v.File()).value, size)
  }

  /**
   The copy: byte i of row y of the destination is that of the source as it was before the blit; with a key, where the
   source's half-word is the upper half of the last control register, it stays.
   */
  lemma CopiedByte(at: HostBase, v: Values, m: Bytes, y: nat, i: nat)
    requires Makes(at, v, |m|) && Copying(v) && y < Height(at, v) && i < v.Bytes()
    requires Untangled(ToSide(at, v, v.Keyed()), FromSide(at, v, v.Keyed()), Height(at, v), v.Bytes())
    requires v.Bytes() <= Abs(Stride(v.dststride))
    ensures
      var to := RowStart(at, v.ToAddress(), Stride(v.dststride), y, v.Keyed());
      var from := RowStart(at, v.FromAddress(), Stride(v.srcstride), y, v.Keyed());
      var pair := from + i - i % 2;
      && 0 <= to && to + i < |m| && 0 <= from && from + i < |m|
      && (v.Keyed() ==> pair + 1 < |m|)
      && Done(m, Plan(at, v.File()).value)[to + i]
         == if v.Keyed() && m[pair] as int + 0x100 * m[pair + 1] as int == v.ctrl as int / 0x1_0000 then m[to + i]
            else m[from + i]
  {
    hide Untangled, RowsCopied, Tame, Height, Values.Keyed, Values.Bytes, RowStart, Stride, Upper, Side.Row, Plan;
    hide Place, Copying, Possible;
    CopyIs(at, v);
    RowsStart(at, v, y, v.Keyed());
    KeyedIsEven(v);
    Floored(i);
    var to, from := ToSide(at, v, v.Keyed()), FromSide(at, v, v.Keyed());
    var key := if v.Keyed() then Some((v.ctrl as int / 0x1_0000) as Half) else None;
    RowsFromSnapshot(m, to, from, Height(at, v), v.Bytes(), key, y, i);
    assert RowWithin(to, y, v.Bytes(), 0, |m|) && RowWithin(from, y, v.Bytes(), 0, |m|);
  }

  lemma EvenSides(at: HostBase, v: Values)
    requires Possible(v) && Copying(v)
    ensures ToSide(at, v, v.Keyed()).even == v.Keyed() == FromSide(at, v, v.Keyed()).even
  {
  }

  lemma KeyedIsEven(v: Values)
    ensures v.Keyed() ==> v.Bytes() % 2 == 0
  {
  }

  /** The fill: every byte of every row is the colour's, low byte first at 16 bits per pixel. */
  lemma ColouredByte(at: HostBase, v: Values, m: Bytes, y: nat, i: nat)
    requires Makes(at, v, |m|) && !Copying(v) && y < Height(at, v) && i < v.Bytes()
    ensures
      var wide := v.dstctrl as int / 0x20 % 2 == 1;
      var to := RowStart(at, v.ToAddress(), Stride(v.dststride), y, wide);
      && 0 <= to && to + i < |m|
      && Done(m, Plan(at, v.File()).value)[to + i] as int
         == if wide && i % 2 == 1 then v.patbackcolor as int / 0x100 % 0x100 else v.patbackcolor as int % 0x100
  {
    hide RowsFilled, Tame, Height, RowStart, Stride, Upper, Side.Row, Plan, Place, Copying, Possible, FilledRowBytes;
    FillIs(at, v);
    var wide := v.dstctrl as int / 0x20 % 2 == 1;
    var to, w := ToSide(at, v, wide), v.size as int % 0x800;
    RowsStart(at, v, y, wide);
    assert RowWithin(to, y, FillBytes(w, wide), 0, |m|);
    WholeRow(to, y, w);
    ColourBytes(v.patbackcolor);
    RowsFilledAt(m, to, Height(at, v), w, v.patbackcolor as int % 0x1_0000, y, i);
  }

  lemma WholeRow(to: Side, y: nat, w: nat)
    requires w > 0
    ensures FilledRowBytes(to, y, w) == FillBytes(w, to.even) == if to.even then 2 * w else w
  {
  }

  lemma ColourBytes(c: Word)
    ensures c as int % 0x1_0000 / 0x100 == c as int / 0x100 % 0x100 && c as int % 0x1_0000 % 0x100 == c as int % 0x100
  {
  }

  /** Address a lies in row y of the destination. */
  predicate InRow(at: HostBase, v: Values, y: nat, even: bool, a: int)
  {
    var to := RowStart(at, v.ToAddress(), Stride(v.dststride), y, even);
    to <= a < to + v.Bytes()
  }

  lemma UntangledRows(to: Side, from: Side, h: nat, bytes: nat)
    requires Untangled(to, from, h, bytes)
    ensures forall y | 0 <= y < h :: to.Row(y) <= from.Row(y) || from.Row(y) + bytes <= to.Row(y)
  {
    hide Side.Row;
  }

  /** Bytes outside of the destination's rows stay. */
  lemma CopyLeaves(at: HostBase, v: Values, m: Bytes, a: nat)
    requires Makes(at, v, |m|) && Copying(v) && a < |m|
    requires forall y | 0 <= y < Height(at, v) :: !InRow(at, v, y, v.Keyed(), a)
    requires Untangled(ToSide(at, v, v.Keyed()), FromSide(at, v, v.Keyed()), Height(at, v), v.Bytes())
    ensures Done(m, Plan(at, v.File()).value)[a] == m[a]
  {
    hide RowsCopied, Tame, Height, Stride, Upper, Side.Row, Plan, Place, Copying, Possible, RowStart, Values.Keyed;
    hide Values.Bytes, Untangled, RowsWithin, ToSide, FromSide;
    CopyIs(at, v);
    var to, from := ToSide(at, v, v.Keyed()), FromSide(at, v, v.Keyed());
    var key := if v.Keyed() then Some((v.ctrl as int / 0x1_0000) as Half) else None;
    UntangledRows(to, from, Height(at, v), v.Bytes());
    EvenSides(at, v);
    forall y | 0 <= y < Height(at, v) ensures !(to.Row(y) <= a < to.Row(y) + v.Bytes()) {
      RowsStart(at, v, y, v.Keyed());
      assert !InRow(at, v, y, v.Keyed(), a);
    }
    KeyedIsEven(v);
    RowsLeave(m, to, from, Height(at, v), v.Bytes(), key, a);
  }

  lemma FillLeaves(at: HostBase, v: Values, m: Bytes, wide: bool, a: nat)
    requires Makes(at, v, |m|) && !Copying(v) && a < |m| && v.Bytes() > 0 && wide == (v.dstctrl as int / 0x20 % 2 == 1)
    requires forall y | 0 <= y < Height(at, v) :: !InRow(at, v, y, wide, a)
    ensures Done(m, Plan(at, v.File()).value)[a] == m[a]
  {
    hide RowsFilled, Tame, Height, Stride, Upper, Side.Row, Plan, Place, Copying, Possible, RowStart, FilledRowBytes;
    FillIs(at, v);
    var to, w := ToSide(at, v, wide), v.size as int % 0x800;
    forall y | 0 <= y < Height(at, v) ensures !(to.Row(y) <= a < to.Row(y) + FilledRowBytes(to, y, w)) {
      RowsStart(at, v, y, wide);
      assert !InRow(at, v, y, wide, a);
      WholeRow(to, y, w);
    }
    RowsFilledLeave(m, to, Height(at, v), w, v.patbackcolor as int % 0x1_0000, a);
  }

  /** A refresh is asked for after blits of half a screen of pixels or more, to an address on the screen. */
  lemma RefreshExactly(v: Values, screen: Word)
    ensures
      var r := v.File();
      ToScreen(r.Width(), r.Height(), screen, r.Target()) <==>
        && (v.size as int % 0x800) * v.Rows() >= 38400
        && screen <= v.ToAddress() && v.ToAddress() < (screen as int + 153600) % 0x1_0000_0000
  {
    Target(v);
    hide Place, Registers.Target, Values.ToAddress;
  }
}
