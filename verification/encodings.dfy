/**
 What the interpreter does with an instruction written down bit by bit, with no reference to how either it or the
 manual's decoder takes the word apart: the word is a sum of its parts (sections A3.2, A5.2 and A5.3 of ARM DDI 0100).
 */
module Encodings {
  import opened Words
  import opened IoOps

  function B(b: bool): nat { if b then 1 else 0 }

  /** A number with f in the bits from unit up. */
  lemma Pick(op: nat, above: nat, f: nat, below: nat, unit: nat, span: nat)
    requires unit > 0 && f < span && below < unit && op == above * (unit * span) + f * unit + below
    ensures Field(op, unit, span) == f
  {
    DivUnique(op, unit, above * span + f, below) by {
      assert (above * span + f) * unit == above * (unit * span) + f * unit;
    }
    DivUnique(above * span + f, span, above, f);
  }

  lemma PickBit(op: nat, above: nat, b: bool, below: nat, unit: nat)
    requires unit > 0 && below < unit && op == above * (unit * 2) + B(b) * unit + below
    ensures Bit(op, unit) == b
  {
    Pick(op, above, B(b), below, unit, 2);
  }

  // ----- conditions

  /** The flags of a status word are its top four bits, N, Z, C and V from the top down. */
  predicate Negative(cpsr: Word) { cpsr >= 0x8000_0000 }
  predicate Zero(cpsr: Word) { cpsr % 0x8000_0000 >= 0x4000_0000 }
  predicate Carry(cpsr: Word) { cpsr % 0x4000_0000 >= 0x2000_0000 }
  predicate Overflow(cpsr: Word) { cpsr % 0x2000_0000 >= 0x1000_0000 }

  /** EQ to VC and AL. */
  predicate Known(cond: nat) { cond < 8 || cond == 14 }

  predicate Passes(cond: nat, cpsr: Word) {
    match cond
    case 0 => Zero(cpsr)
    case 1 => !Zero(cpsr)
    case 2 => Carry(cpsr)
    case 3 => !Carry(cpsr)
    case 4 => Negative(cpsr)
    case 5 => !Negative(cpsr)
    case 6 => Overflow(cpsr)
    case 7 => !Overflow(cpsr)
    case _ => true
  }

  lemma Flags(cpsr: Word)
    ensures Bit(cpsr, 0x8000_0000) == Negative(cpsr) && Bit(cpsr, 0x4000_0000) == Zero(cpsr)
    ensures Bit(cpsr, 0x2000_0000) == Carry(cpsr) && Bit(cpsr, 0x1000_0000) == Overflow(cpsr)
  {
  }

  /** An instruction with one of these conditions runs or is skipped as its flag says; any other is not taken. */
  lemma Conditions<D>(bus: Bus<D>, cond: nat, rest: nat, frame: Frame, dev: D)
    requires cond < 16 && rest < 0x1000_0000
    ensures
      var op: Word := cond * 0x1000_0000 + rest;
      && (!Known(cond) ==> HandleOp(bus, op, frame, dev) == Abort)
      && (Known(cond) && !Passes(cond, frame[15]) ==> HandleOp(bus, op, frame, dev) == Resumed(frame, dev))
      && (Known(cond) && Passes(cond, frame[15]) ==> HandlerGuard(op, frame[15]) == Run)
      && (Known(cond) ==> (ConditionPassed(cond, frame[15]) <==> Passes(cond, frame[15])))
  {
    var op: Word := cond * 0x1000_0000 + rest;
    Pick(op, 0, cond, rest, 0x1000_0000, 16);
    Flags(frame[15]);
    hide Bit, Field, Negative, Zero, Carry, Overflow, HandleHalf, HandleWord, IsHalfForm, IsWordForm;
  }

  // ----- loads and stores, put together

  /** The parts both forms have: condition, kind, the P, U, B, W and L bits, two registers, and the lower 12 bits. */
  datatype Parts = Parts(cond: nat, kind: nat, pre: bool, up: bool, bit22: bool, writeback: bool, load: bool,
                         rn: nat, rd: nat, low: nat)
  {
    predicate Valid() { cond < 16 && kind < 8 && rn < 16 && rd < 16 && low < 0x1000 }

    function Registers(): nat { rn * 0x1_0000 + rd * 0x1000 + low }

    function Marks(): nat {
      B(pre) * 0x100_0000 + B(up) * 0x80_0000 + B(bit22) * 0x40_0000 + B(writeback) * 0x20_0000 + B(load) * 0x10_0000
    }

    function Op(): (op: Word)
      requires Valid()
    {
      cond * 0x1000_0000 + (kind * 0x200_0000 + Marks() + Registers())
    }
  }

  lemma KindIs(x: Parts)
    requires x.Valid()
    ensures Field(x.Op(), 0x200_0000, 8) == x.kind && Field(x.Op(), 0x400_0000, 4) == x.kind / 2
    ensures Bit(x.Op(), I_BIT) == (x.kind % 2 == 1)
  {
    hide Bit, Field;
    var op, l, k := x.Op(), x.Marks() + x.Registers(), x.kind / 2;
    Pick(op, x.cond, x.kind, l, 0x200_0000, 8);
    Pick(op, x.cond, k, x.kind % 2 * 0x200_0000 + l, 0x400_0000, 4);
    PickBit(op, x.cond * 4 + k, x.kind % 2 == 1, l, 0x200_0000);
  }

  lemma UpperMarks(x: Parts)
    requires x.Valid()
    ensures Bit(x.Op(), P_BIT) == x.pre && Bit(x.Op(), U_BIT) == x.up
  {
    hide Bit;
    var op, top := x.Op(), x.cond * 8 + x.kind;
    var l := B(x.bit22) * 0x40_0000 + B(x.writeback) * 0x20_0000 + B(x.load) * 0x10_0000 + x.Registers();
    PickBit(op, top, x.pre, B(x.up) * 0x80_0000 + l, 0x100_0000);
    PickBit(op, 2 * top + B(x.pre), x.up, l, 0x80_0000);
  }

  lemma LowerMarks(x: Parts)
    requires x.Valid()
    ensures Bit(x.Op(), B_BIT) == x.bit22 && Bit(x.Op(), W_BIT) == x.writeback && Bit(x.Op(), L_BIT) == x.load
  {
    hide Bit;
    var op, r := x.Op(), x.Registers();
    var top := 4 * (x.cond * 8 + x.kind) + 2 * B(x.pre) + B(x.up);
    PickBit(op, top, x.bit22, B(x.writeback) * 0x20_0000 + B(x.load) * 0x10_0000 + r, 0x40_0000);
    PickBit(op, 2 * top + B(x.bit22), x.writeback, B(x.load) * 0x10_0000 + r, 0x20_0000);
    PickBit(op, 4 * top + 2 * B(x.bit22) + B(x.writeback), x.load, r, 0x10_0000);
  }

  lemma RegistersAre(x: Parts)
    requires x.Valid()
    ensures Rn(x.Op()) == x.rn && Rd(x.Op()) == x.rd && Imm12(x.Op()) == x.low && x.Op() as int % 0x1000 == x.low
  {
    hide Field, Parts.Marks;
    var op, top := x.Op(), UpperPart(x);
    Pick(op, top, x.rn, x.rd * 0x1000 + x.low, 0x1_0000, 16);
    Pick(op, 16 * top + x.rn, x.rd, x.low, 0x1000, 16);
    Pick(op, 256 * top + 16 * x.rn + x.rd, x.low, 0, 1, 4096);
  }

  function UpperPart(x: Parts): (top: nat)
    requires x.Valid()
    ensures x.Op() as int == top * 0x10_0000 + x.Registers()
  {
    x.cond * 0x100 + x.kind * 0x20 + B(x.pre) * 16 + B(x.up) * 8 + B(x.bit22) * 4 + B(x.writeback) * 2 + B(x.load)
  }

  // ----- half-words

  /** The lower bits of a half-word transfer: the offset's two digits, and between them the S and H bits. */
  function HalfLow(high: nat, sign: bool, half: bool, low: nat): (n: nat)
    requires high < 16 && low < 16
    ensures n < 0x1000
  {
    high * 0x100 + 0x80 + B(sign) * 0x40 + B(half) * 0x20 + 0x10 + low
  }

  lemma HalfLowFields(op: Word, high: nat, sign: bool, half: bool, low: nat)
    requires high < 16 && low < 16 && op as int % 0x1000 == HalfLow(high, sign, half, low)
    ensures Bit(op, 0x80) && Bit(op, 0x10) && Bit(op, S_BIT) == sign && Bit(op, H_BIT) == half
    ensures Rm(op) == low && Imm8(op) == 16 * high + low
  {
    hide Bit, Field;
    var q := op as int / 0x1000;
    assert op == q * 0x1000 + HalfLow(high, sign, half, low);
    PickBit(op, 16 * q + high, true, B(sign) * 0x40 + B(half) * 0x20 + 0x10 + low, 0x80);
    PickBit(op, 32 * q + 2 * high + 1, sign, B(half) * 0x20 + 0x10 + low, 0x40);
    PickBit(op, 64 * q + 4 * high + 2 + B(sign), half, 0x10 + low, 0x20);
    PickBit(op, 128 * q + 8 * high + 4 + 2 * B(sign) + B(half), true, low, 0x10);
    Pick(op, 256 * q + 16 * high + 8 + 4 * B(sign) + 2 * B(half) + 1, low, 0, 1, 16);
    Pick(op, q, high, 0x80 + B(sign) * 0x40 + B(half) * 0x20 + 0x10 + low, 0x100, 16);
  }

  /** A half-word as a register holds it, with its sign or without. */
  function Extended(sign: bool, h: Half): Word {
    if sign && h >= 0x8000 then h + 0x1_0000_0000 - 0x1_0000 else h
  }

  function Sum(up: bool, base: Word, offset: Word): Word {
    (if up then base as int + offset else base as int - offset) % 0x1_0000_0000
  }

  /** What a half-word transfer does, by its parts. */
  function HalfEffect<D>(bus: Bus<D>, x: Parts, high: nat, sign: bool, half: bool, low: nat, frame: Frame, dev: D)
    : Handled<D>
    requires x.Valid() && high < 16 && low < 16
  {
    var addr := Sum(x.up, frame[x.rn], if x.bit22 then 16 * high + low else frame[low]);
    if !x.pre || x.writeback || !half || (sign && !x.load) then Abort
    else if x.load then
      var (dev', h) := bus.read16(dev, addr);
      Resumed(frame[x.rd := Extended(sign, h)], dev')
    else Resumed(frame, bus.write16(dev, addr, frame[x.rd]))
  }

  /**
   Written down from its parts, a half-word transfer whose condition passes accesses the register named plus or minus
   sixteen times the high digit plus the low one, or another register; and the manual's decoder gives the parts back.
   */
  lemma HalfAccess<D>(bus: Bus<D>, x: Parts, high: nat, sign: bool, half: bool, low: nat, frame: Frame, dev: D)
    requires x.Valid() && high < 16 && low < 16 && x.kind == 0 && x.low == HalfLow(high, sign, half, low)
    requires Known(x.cond) && Passes(x.cond, frame[15])
    ensures HandleOp(bus, x.Op(), frame, dev) == HalfEffect(bus, x, high, sign, half, low, frame, dev)
    ensures DecodeTransfer(x.Op())
         == if !half || (sign && !x.load) then None
            else Some(Transfer(x.load, if sign then SignedHalfSize else HalfSize, x.rd, x.rn, x.up,
                               if x.bit22 then Immediate(16 * high + low) else Register(low), x.pre, x.writeback))
  {
    hide Bit, Field, Parts.Op, Known, Passes, HalfLow, Rn, Rd, Rm, Imm8, Imm12;
    RunsOp(bus, x, frame, dev);
    KindIs(x);
    UpperMarks(x);
    LowerMarks(x);
    RegistersAre(x);
    HalfLowFields(x.Op(), high, sign, half, low);
    NegatedSum(x.up, frame[x.rn], if x.bit22 then 16 * high + low else frame[low]);
  }

  lemma RunsOp<D>(bus: Bus<D>, x: Parts, frame: Frame, dev: D)
    requires x.Valid() && Known(x.cond) && Passes(x.cond, frame[15])
    ensures HandlerGuard(x.Op(), frame[15]) == Run
  {
    hide Known, Passes, HandlerGuard, HandleOp;
    Conditions(bus, x.cond, x.kind * 0x200_0000 + x.Marks() + x.Registers(), frame, dev);
  }

  // ----- words and bytes

  /** The lower bits of a scaled register offset; bit 4 belongs to media instructions. */
  function ScaledLow(amount: nat, shift: nat, media: bool, rm: nat): (n: nat)
    requires amount < 32 && shift < 4 && rm < 16
    ensures n < 0x1000
  {
    amount * 0x80 + shift * 0x20 + B(media) * 0x10 + rm
  }

  lemma ScaledLowFields(op: Word, amount: nat, shift: nat, media: bool, rm: nat)
    requires amount < 32 && shift < 4 && rm < 16 && op as int % 0x1000 == ScaledLow(amount, shift, media, rm)
    ensures AmountField(op) == amount && ShiftField(op) == shift && Bit(op, 0x10) == media && Rm(op) == rm
  {
    hide Bit, Field;
    var q := op as int / 0x1000;
    assert op == q * 0x1000 + ScaledLow(amount, shift, media, rm);
    Pick(op, q, amount, shift * 0x20 + B(media) * 0x10 + rm, 0x80, 32);
    Pick(op, 32 * q + amount, shift, B(media) * 0x10 + rm, 0x20, 4);
    PickBit(op, 128 * q + 4 * amount + shift, media, rm, 0x10);
    Pick(op, 256 * q + 8 * amount + 2 * shift + B(media), rm, 0, 1, 16);
  }

  /** What a word or byte transfer with this offset does, by its parts. */
  function WordEffect<D>(bus: Bus<D>, x: Parts, offset: Word, frame: Frame, dev: D): Handled<D>
    requires x.Valid()
  {
    var base, moved := frame[x.rn], Sum(x.up, frame[x.rn], offset);
    var addr, frame1: Frame := if x.pre then moved else base, if x.pre then frame else frame[x.rn := moved];
    if x.writeback then Abort
    else if x.load && x.bit22 then
      var (dev', b) := bus.read8(dev, addr);
      Resumed(frame1[x.rd := b], dev')
    else if x.load then
      var (dev', w) := bus.read32(dev, addr);
      Resumed(frame1[x.rd := w], dev')
    else Resumed(frame1, if x.bit22 then bus.write8(dev, addr, frame1[x.rd]) else bus.write32(dev, addr, frame1[x.rd]))
  }

  /** With an offset of twelve bits. */
  lemma WordAccess<D>(bus: Bus<D>, x: Parts, frame: Frame, dev: D)
    requires x.Valid() && x.kind == 2 && Known(x.cond) && Passes(x.cond, frame[15])
    ensures HandleOp(bus, x.Op(), frame, dev) == WordEffect(bus, x, x.low, frame, dev)
    ensures DecodeTransfer(x.Op())
         == Some(Transfer(x.load, if x.bit22 then ByteSize else WordSize, x.rd, x.rn, x.up, Immediate(x.low), x.pre,
                          x.writeback))
  {
    hide Bit, Field, Parts.Op, Known, Passes, Rn, Rd, Imm12;
    RunsOp(bus, x, frame, dev);
    KindIs(x);
    UpperMarks(x);
    LowerMarks(x);
    RegistersAre(x);
    NegatedSum(x.up, frame[x.rn], x.low);
  }

  /** The shifts of the handler; the right ones go one place further than they are told. */
  function Shifted(shift: nat, amount: nat, t: Word): Word {
    if shift == 0 then t as int * Pow2(amount) % 0x1_0000_0000
    else if shift == 1 then t as int / Pow2(amount + 1) % 0x1_0000_0000
    else (if t < 0x8000_0000 then t as int else t as int - 0x1_0000_0000) / Pow2(amount + 1) % 0x1_0000_0000
  }

  /** With a register shifted left, right or right with its sign. */
  lemma ScaledAccess<D>(bus: Bus<D>, x: Parts, amount: nat, shift: nat, media: bool, rm: nat, frame: Frame, dev: D)
    requires x.Valid() && amount < 32 && shift < 4 && rm < 16 && x.low == ScaledLow(amount, shift, media, rm)
    requires x.kind == 3 && Known(x.cond) && Passes(x.cond, frame[15])
    ensures HandleOp(bus, x.Op(), frame, dev)
         == if media || shift == 3 then Abort else WordEffect(bus, x, Shifted(shift, amount, frame[rm]), frame, dev)
    ensures DecodeTransfer(x.Op())
         == if media || shift == 3 then None
            else Some(Transfer(x.load, if x.bit22 then ByteSize else WordSize, x.rd, x.rn, x.up,
                               Scaled(rm, if shift == 0 then Lsl else if shift == 1 then Lsr else Asr, amount),
                               x.pre, x.writeback))
  {
    hide Bit, Field, Parts.Op, Known, Passes, ScaledLow, Rn, Rd, Rm, ShiftField, AmountField, Pow2;
    RunsOp(bus, x, frame, dev);
    KindIs(x);
    UpperMarks(x);
    LowerMarks(x);
    RegistersAre(x);
    ScaledLowFields(x.Op(), amount, shift, media, rm);
    if shift < 3 { NegatedSum(x.up, frame[x.rn], Shifted(shift, amount, frame[rm])); }
  }

  /** Everything else is not taken: other kinds of instructions, and of the first kind those without bits 7 and 4. */
  lemma Rejected<D>(bus: Bus<D>, x: Parts, frame: Frame, dev: D)
    requires x.Valid() && Known(x.cond) && Passes(x.cond, frame[15])
    requires x.kind in {1, 4, 5, 6, 7} || (x.kind == 0 && (x.low / 0x80 % 2 == 0 || x.low / 0x10 % 2 == 0))
    ensures HandleOp(bus, x.Op(), frame, dev) == Abort && DecodeTransfer(x.Op()) == None
  {
    hide Bit, Field, Parts.Op, Known, Passes;
    RunsOp(bus, x, frame, dev);
    KindIs(x);
    if x.kind == 0 { MiddleBits(x); }
  }

  lemma MiddleBits(x: Parts)
    requires x.Valid()
    ensures Bit(x.Op(), 0x80) == (x.low / 0x80 % 2 == 1) && Bit(x.Op(), 0x10) == (x.low / 0x10 % 2 == 1)
  {
    hide Bit;
    RegistersAre(x);
    var op := x.Op();
    var q := op as int / 0x1000;
    assert op == q * 0x1000 + x.low by { hide *; }
    LowBit(op, q, x.low, 0x80, 16);
    LowBit(op, q, x.low, 0x10, 128);
  }

  lemma LowBit(op: nat, q: nat, low: nat, unit: nat, n: nat)
    requires unit > 0 && n > 0 && op == q * 0x1000 + low && low < 0x1000 && unit * n * 2 == 0x1000
    ensures Bit(op, unit) == (low / unit % 2 == 1)
  {
    var v := low / unit;
    assert low == v / 2 * (unit * 2) + v % 2 * unit + low % unit;
    assert q * 0x1000 == q * n * (unit * 2);
    assert op == (q * n + v / 2) * (unit * 2) + v % 2 * unit + low % unit;
    PickBit(op, q * n + v / 2, v % 2 == 1, low % unit, unit);
  }

  /** The store with which programs commit the screen address: a half-word at 0x14 behind r1. */
  lemma AddressStore<D>(bus: Bus<D>, frame: Frame, dev: D)
    requires frame[1] == 0x7f00_2900
    ensures HandleOp(bus, 0xe1c1_01b4, frame, dev) == Resumed(frame, bus.write16(dev, 0x7f00_2914, frame[0]))
  {
    var x := Parts(14, 0, true, true, true, false, false, 1, 0, HalfLow(1, false, true, 4));
    assert x.Op() == 0xe1c1_01b4;
    HalfAccess(bus, x, 1, false, true, 4, frame, dev);
    hide HandleOp;
  }
}
