/**
 The interpreter for trapped device instructions, `emu_handle_op`, and the load/store semantics
 of the ARM Architecture Reference Manual (ARM DDI 0100, sections A3.2, A5.2 and A5.3) it stands for.
 The device is a parameter, so every result here holds whatever the registers do.
 */
module IoOps {
  import opened Words

  datatype Option<+T> = None | Some(value: T)

  /** The `xread*` and `xwrite*` entry points over a device state D. Stores receive the whole register. */
  datatype Bus<!D> = Bus(
    read8: (D, Word) -> (D, Byte),
    read16: (D, Word) -> (D, Half),
    read32: (D, Word) -> (D, Word),
    write8: (D, Word, Word) -> D,
    write16: (D, Word, Word) -> D,
    write32: (D, Word, Word) -> D)

  /** The stack frame handed to the interpreter: r0-r14, and in slot 15 the flags register, not the pc. */
  type Frame = f: seq<Word> | |f| == 16 witness seq(16, _ => 0)

  const FLAGS := 15

  // The condition flags in the program status register.
  const N_FLAG: nat := 0x8000_0000
  const Z_FLAG: nat := 0x4000_0000
  const C_FLAG: nat := 0x2000_0000
  const V_FLAG: nat := 0x1000_0000

  // Instruction bits 25 to 20, 6 and 5 of the load and store encodings, under the manual's letters.
  const I_BIT: nat := 0x200_0000
  const P_BIT: nat := 0x100_0000
  const U_BIT: nat := 0x80_0000
  const B_BIT: nat := 0x40_0000
  const W_BIT: nat := 0x20_0000
  const L_BIT: nat := 0x10_0000
  const S_BIT: nat := 0x40
  const H_BIT: nat := 0x20

  datatype Handled<+D> = Abort | Resumed(frame: Frame, dev: D)

  function RegField(op: Word, unit: nat): (r: nat)
    requires unit > 0
    ensures r < 16
  {
    Field(op, unit, 16)
  }

  function Rn(op: Word): nat { RegField(op, 0x1_0000) }
  function Rd(op: Word): nat { RegField(op, 0x1000) }
  function Rm(op: Word): nat { RegField(op, 1) }
  function Imm12(op: Word): Word { Field(op, 0x1, 4096) }
  function Imm8(op: Word): Word { Field(op, 0x100, 16) * 16 + Field(op, 0x1, 16) }
  function ShiftField(op: Word): (k: nat) ensures k < 4 { Field(op, 0x20, 4) }
  function AmountField(op: Word): (k: nat) ensures k < 32 { Field(op, 0x80, 32) }

  // ----- the interpreter

  datatype Guard = Run | Skip | Unhandled

  function RunIf(b: bool): Guard {
    if b then Run else Skip
  }

  function HandlerGuard(op: Word, cpsr: Word): Guard {
    match Field(op, 0x1000_0000, 16)
    case 0 => RunIf(Bit(cpsr, Z_FLAG))
    case 1 => RunIf(!Bit(cpsr, Z_FLAG))
    case 2 => RunIf(Bit(cpsr, C_FLAG))
    case 3 => RunIf(!Bit(cpsr, C_FLAG))
    case 4 => RunIf(Bit(cpsr, N_FLAG))
    case 5 => RunIf(!Bit(cpsr, N_FLAG))
    case 6 => RunIf(Bit(cpsr, V_FLAG))
    case 7 => RunIf(!Bit(cpsr, V_FLAG))
    case 14 => Run
    case _ => Unhandled
  }

  function Negated(up: bool, t: Word): Word {
    if up then t else Wrap(0 - t)
  }

  predicate IsHalfForm(op: Word) {
    Field(op, 0x200_0000, 8) == 0 && Bit(op, P_BIT) && !Bit(op, W_BIT) && Bit(op, 0x80) && Bit(op, 0x10)
  }

  predicate IsWordForm(op: Word) {
    Field(op, 0x400_0000, 4) == 1
  }

  function SignExtendHalf(h: Half): Word {
    if h < 0x8000 then h else h + 0xffff_0000
  }

  function HandleHalf<D>(bus: Bus<D>, op: Word, frame: Frame, dev: D): Handled<D> {
    if !Bit(op, H_BIT) || (Bit(op, S_BIT) && !Bit(op, L_BIT)) then Abort
    else
      var offset := if Bit(op, B_BIT) then Imm8(op) else frame[Rm(op)];
      var addr := Wrap(frame[Rn(op)] + Negated(Bit(op, U_BIT), offset));
      if Bit(op, L_BIT) then
        var (dev', h) := bus.read16(dev, addr);
        Resumed(frame[Rd(op) := if Bit(op, S_BIT) then SignExtendHalf(h) else h], dev')
      else
        Resumed(frame, bus.write16(dev, addr, frame[Rd(op)]))
  }

  /** The handler's own shifter: right shifts go one place further than the encoded amount. */
  function HandlerShift(kind: nat, amount: nat, t: Word): Option<Word>
    requires kind < 4 && amount < 32
  {
    match kind
    case 0 => Some(Wrap(t * Pow2(amount)))
    case 1 => Some(Wrap(t / Pow2(amount + 1)))
    case 2 => Some(Wrap(Signed(t) / Pow2(amount + 1)))
    case _ => None
  }

  function HandlerOffset(op: Word, frame: Frame): Option<Word> {
    if !Bit(op, I_BIT) then Some(Imm12(op))
    else if Bit(op, 0x10) then None
    else HandlerShift(ShiftField(op), AmountField(op), frame[Rm(op)])
  }

  function HandleWord<D>(bus: Bus<D>, op: Word, frame: Frame, dev: D): Handled<D> {
    var offset := HandlerOffset(op, frame);
    if Bit(op, W_BIT) || offset.None? then Abort
    else
      var base := frame[Rn(op)];
      var moved := Wrap(base + Negated(Bit(op, U_BIT), offset.value));
      var addr := if Bit(op, P_BIT) then moved else base;
      var frame1: Frame := if Bit(op, P_BIT) then frame else frame[Rn(op) := moved];
      if Bit(op, L_BIT) then
        if Bit(op, B_BIT) then
          var (dev', b) := bus.read8(dev, addr);
          Resumed(frame1[Rd(op) := b], dev')
        else
          var (dev', w) := bus.read32(dev, addr);
          Resumed(frame1[Rd(op) := w], dev')
      else if Bit(op, B_BIT) then Resumed(frame1, bus.write8(dev, addr, frame1[Rd(op)]))
      else Resumed(frame1, bus.write32(dev, addr, frame1[Rd(op)]))
  }

  /** What `emu_handle_op` leaves in the frame and the device; Abort is its `unhandled` exit. */
  function HandleOp<D>(bus: Bus<D>, op: Word, frame: Frame, dev: D): Handled<D> {
    match HandlerGuard(op, frame[FLAGS])
    case Unhandled => Abort
    case Skip => Resumed(frame, dev)
    case Run =>
      if IsHalfForm(op) then HandleHalf(bus, op, frame, dev)
      else if IsWordForm(op) then HandleWord(bus, op, frame, dev)
      else Abort
  }

  /** The interpreter as the source writes it: it updates the caller's frame in place. */
  method EmuHandleOp<D>(bus: Bus<D>, op: Word, frame: array<Word>, dev: D) returns (ok: bool, dev': D)
    requires frame.Length == 16
    modifies frame
    ensures ok == HandleOp(bus, op, old(frame[..]), dev).Resumed?
    ensures ok ==> HandleOp(bus, op, old(frame[..]), dev) == Resumed(frame[..], dev')
    ensures !ok ==> frame[..] == old(frame[..])
  {
    hide HandleHalf, HandleWord, IsHalfForm, IsWordForm, HandlerGuard;
    var guard := HandlerGuard(op, frame[FLAGS]);
    if guard == Skip {
      ok, dev' := true, dev;
    } else if guard == Run && IsHalfForm(op) {
      ok, dev' := EmuHandleHalf(bus, op, frame, dev);
    } else if guard == Run && IsWordForm(op) {
      ok, dev' := EmuHandleWord(bus, op, frame, dev);
    } else {
      ok, dev' := false, dev;
    }
  }

  /** The addressing mode 3 branch. */
  method EmuHandleHalf<D>(bus: Bus<D>, op: Word, frame: array<Word>, dev: D) returns (ok: bool, dev': D)
    requires frame.Length == 16
    modifies frame
    ensures ok == HandleHalf(bus, op, old(frame[..]), dev).Resumed?
    ensures ok ==> HandleHalf(bus, op, old(frame[..]), dev) == Resumed(frame[..], dev')
    ensures !ok ==> frame[..] == old(frame[..])
  {
    hide Bit, Field, Pow2;
    ok, dev' := true, dev;
    if !Bit(op, H_BIT) || (Bit(op, S_BIT) && !Bit(op, L_BIT)) { return false, dev; }
    var t: Word := if Bit(op, B_BIT) then Imm8(op) else frame[Rm(op)];
    if !Bit(op, U_BIT) { t := Wrap(0 - t); }
    var addr := Wrap(frame[Rn(op)] + t);
    if Bit(op, L_BIT) {
      var access := bus.read16(dev, addr);
      dev' := access.0;
      frame[Rd(op)] := if Bit(op, S_BIT) then SignExtendHalf(access.1) else access.1;
    } else {
      dev' := bus.write16(dev, addr, frame[Rd(op)]);
    }
  }

  /** The word and byte branch. */
  method EmuHandleWord<D>(bus: Bus<D>, op: Word, frame: array<Word>, dev: D) returns (ok: bool, dev': D)
    requires frame.Length == 16
    modifies frame
    ensures ok == HandleWord(bus, op, old(frame[..]), dev).Resumed?
    ensures ok ==> HandleWord(bus, op, old(frame[..]), dev) == Resumed(frame[..], dev')
    ensures !ok ==> frame[..] == old(frame[..])
  {
    hide Bit, Field, Pow2, HandlerShift;
    ok, dev' := true, dev;
    var t: Word := Imm12(op);
    if Bit(op, W_BIT) { return false, dev; }
    if Bit(op, I_BIT) {
      if Bit(op, 0x10) { return false, dev; }
      var shifted := HandlerShift(ShiftField(op), AmountField(op), frame[Rm(op)]);
      if shifted.None? { return false, dev; }
      t := shifted.value;
    }
    assert HandlerOffset(op, frame[..]) == Some(t);
    if !Bit(op, U_BIT) { t := Wrap(0 - t); }
    var addr := frame[Rn(op)];
    if Bit(op, P_BIT) { addr := Wrap(addr + t); } else { frame[Rn(op)] := Wrap(addr + t); }
    if Bit(op, L_BIT) {
      if Bit(op, B_BIT) {
        var access := bus.read8(dev, addr);
        dev' := access.0;
        frame[Rd(op)] := access.1;
      } else {
        var access := bus.read32(dev, addr);
        dev' := access.0;
        frame[Rd(op)] := access.1;
      }
    } else if Bit(op, B_BIT) {
      dev' := bus.write8(dev, addr, frame[Rd(op)]);
    } else {
      dev' := bus.write32(dev, addr, frame[Rd(op)]);
    }
  }

  // ----- the manual's semantics

  datatype ShiftKind = Lsl | Lsr | Asr

  datatype Offset = Immediate(n: Word) | Register(rm: nat) | Scaled(rm: nat, kind: ShiftKind, amount: nat)

  datatype Size = ByteSize | HalfSize | SignedHalfSize | WordSize

  datatype Transfer = Transfer(
    load: bool, size: Size, rd: nat, rn: nat, add: bool, offset: Offset, preIndexed: bool, writeback: bool)
  {
    predicate Valid() {
      && rd < 16 && rn < 16
      && (offset.Immediate? || offset.rm < 16)
      && (offset.Scaled? ==> offset.amount < 32)
    }
  }

  /** Section A3.2.1: which flag settings let an instruction with this condition execute. */
  predicate ConditionPassed(cond: nat, cpsr: Word) {
    var n, z, c, v := Bit(cpsr, N_FLAG), Bit(cpsr, Z_FLAG), Bit(cpsr, C_FLAG), Bit(cpsr, V_FLAG);
    match cond / 2
    case 0 => z == (cond % 2 == 0)
    case 1 => c == (cond % 2 == 0)
    case 2 => n == (cond % 2 == 0)
    case 3 => v == (cond % 2 == 0)
    case 4 => (c && !z) == (cond % 2 == 0)
    case 5 => (n == v) == (cond % 2 == 0)
    case 6 => (!z && n == v) == (cond % 2 == 0)
    case _ => true
  }

  /** Sections A5.2 and A5.3, without rotated offsets, LDRSB and the doubleword transfers. */
  function DecodeTransfer(op: Word): (x: Option<Transfer>)
    ensures x.Some? ==> x.value.Valid()
  {
    if Field(op, 0x400_0000, 4) == 1 then
      if Bit(op, I_BIT) && (Bit(op, 0x10) || ShiftField(op) == 3) then None
      else
        var offset :=
          if !Bit(op, I_BIT) then Immediate(Imm12(op))
          else Scaled(Rm(op), [Lsl, Lsr, Asr][ShiftField(op)], AmountField(op));
        Some(Transfer(Bit(op, L_BIT), if Bit(op, B_BIT) then ByteSize else WordSize, Rd(op), Rn(op),
                      Bit(op, U_BIT), offset, Bit(op, P_BIT), Bit(op, W_BIT)))
    else if Field(op, 0x200_0000, 8) == 0 && Bit(op, 0x80) && Bit(op, 0x10) && Bit(op, H_BIT)
         && (Bit(op, S_BIT) ==> Bit(op, L_BIT)) then
      var offset := if Bit(op, B_BIT) then Immediate(Imm8(op)) else Register(Rm(op));
      Some(Transfer(Bit(op, L_BIT), if Bit(op, S_BIT) then SignedHalfSize else HalfSize, Rd(op), Rn(op),
                    Bit(op, U_BIT), offset, Bit(op, P_BIT), Bit(op, W_BIT)))
    else None
  }

  /** The shifter operand of section A5.2.4; a right shift by an encoded zero means a shift by 32. */
  function ManualShift(kind: ShiftKind, amount: nat, t: Word): Word
    requires amount < 32
  {
    match kind
    case Lsl => Wrap(t * Pow2(amount))
    case Lsr => if amount == 0 then 0 else Wrap(t / Pow2(amount))
    case Asr => if amount == 0 then (if Bit(t, 0x8000_0000) then 0xffff_ffff else 0) else Wrap(Signed(t) / Pow2(amount))
  }

  function OffsetValue(x: Transfer, r: Frame): Word
    requires x.Valid()
  {
    match x.offset
    case Immediate(n) => n
    case Register(rm) => r[rm]
    case Scaled(rm, kind, amount) => ManualShift(kind, amount, r[rm])
  }

  function Indexed(x: Transfer, r: Frame): Word
    requires x.Valid()
  {
    if x.add then Wrap(r[x.rn] + OffsetValue(x, r)) else Wrap(r[x.rn] - OffsetValue(x, r))
  }

  function TransferAddress(x: Transfer, r: Frame): Word
    requires x.Valid()
  {
    if x.preIndexed then Indexed(x, r) else r[x.rn]
  }

  function Load<D>(bus: Bus<D>, size: Size, dev: D, addr: Word): (D, Word) {
    match size
    case ByteSize => var (dev', b) := bus.read8(dev, addr); (dev', b)
    case HalfSize => var (dev', h) := bus.read16(dev, addr); (dev', h)
    case SignedHalfSize => var (dev', h) := bus.read16(dev, addr); (dev', SignExtendHalf(h))
    case WordSize => bus.read32(dev, addr)
  }

  /** A store puts only as many low bits of the register on the bus as its size. */
  function Store<D>(bus: Bus<D>, size: Size, dev: D, addr: Word, value: Word): D {
    match size
    case ByteSize => bus.write8(dev, addr, value % 0x100)
    case WordSize => bus.write32(dev, addr, value)
    case _ => bus.write16(dev, addr, value % 0x1_0000)
  }

  /** The effect of a transfer whose condition passed. */
  function Perform<D>(bus: Bus<D>, x: Transfer, r: Frame, dev: D): Handled<D>
    requires x.Valid()
  {
    var addr := TransferAddress(x, r);
    var moved: Frame := if x.writeback || !x.preIndexed then r[x.rn := Indexed(x, r)] else r;
    if x.load then
      var (dev', value) := Load(bus, x.size, dev, addr);
      Resumed(moved[x.rd := value], dev')
    else
      Resumed(moved, Store(bus, x.size, dev, addr, r[x.rd]))
  }

  // ----- refinement

  /** A post-indexed store of the base register, which the manual leaves UNPREDICTABLE. */
  predicate Clash(x: Transfer) {
    !x.load && x.rd == x.rn && (x.writeback || !x.preIndexed)
  }

  /** The device does not see register bits that a narrow store should not have sent. */
  ghost predicate NarrowAt<D>(bus: Bus<D>, x: Transfer, r: Frame, dev: D)
    requires x.Valid()
  {
    var addr, value := TransferAddress(x, r), r[x.rd];
    !x.load ==>
      && (x.size == ByteSize ==> bus.write8(dev, addr, value) == bus.write8(dev, addr, value % 0x100))
      && (x.size == HalfSize ==> bus.write16(dev, addr, value) == bus.write16(dev, addr, value % 0x1_0000))
  }

  /** The transfer the handler really performs: right-shifted offsets move by one more place. */
  function OneMore(x: Transfer): (y: Transfer)
    ensures x.Valid() ==> y.Valid()
  {
    match x.offset
    case Scaled(rm, kind, amount) =>
      if kind == Lsl then x else x.(offset := Scaled(rm, kind, (amount + 1) % 32))
    case _ => x
  }

  predicate RightShifted(x: Transfer) {
    x.offset.Scaled? && x.offset.kind != Lsl
  }

  /** The handler's conditions are the manual's, for the ones it does not reject. */
  lemma GuardMeetsManual(op: Word, cpsr: Word)
    ensures HandlerGuard(op, cpsr) == Unhandled <==> Field(op, 0x1000_0000, 16) in {8, 9, 10, 11, 12, 13, 15}
    ensures HandlerGuard(op, cpsr) != Unhandled ==>
              (HandlerGuard(op, cpsr) == Run <==> ConditionPassed(Field(op, 0x1000_0000, 16), cpsr))
  {
  }

  lemma ShiftIsOneMore(kind: nat, amount: nat, t: Word)
    requires kind < 3 && amount < 32
    ensures HandlerShift(kind, amount, t)
         == Some(ManualShift([Lsl, Lsr, Asr][kind], if kind == 0 then amount else (amount + 1) % 32, t))
  {
    if amount == 31 {
      Pow2Values();
    }
  }

  /** Section A5.2: load and store word or unsigned byte; with bits 25 and 4 set it is a media instruction. */
  predicate WordEncoding(op: Word) {
    Field(op, 0x400_0000, 4) == 1 && !(Bit(op, I_BIT) && Bit(op, 0x10))
  }

  /** Section A5.3: miscellaneous loads and stores; without S and H the same bits are a multiply or a swap. */
  predicate ExtraEncoding(op: Word) {
    Field(op, 0x200_0000, 8) == 0 && Bit(op, 0x80) && Bit(op, 0x10) && (Bit(op, S_BIT) || Bit(op, H_BIT))
  }

  /** The manual's transfers that are not decoded: ROR and RRX offsets, LDRSB, and LDRD and STRD. */
  predicate Undecoded(op: Word) {
    || (WordEncoding(op) && Bit(op, I_BIT) && ShiftField(op) == 3)
    || (ExtraEncoding(op) && Bit(op, S_BIT) && !(Bit(op, H_BIT) && Bit(op, L_BIT)))
  }

  /** The decoder gives exactly the manual's single transfers, but for those. */
  lemma DecodedTransfers(op: Word)
    ensures DecodeTransfer(op).Some? <==> (WordEncoding(op) || ExtraEncoding(op)) && !Undecoded(op)
  {
    FormFields(op);
    hide Field, Bit;
  }

  /** Which words the handler takes once the condition passed, in the manual's terms. */
  lemma AcceptedTransfers<D>(bus: Bus<D>, op: Word, frame: Frame, dev: D)
    requires HandlerGuard(op, frame[FLAGS]) == Run
    ensures HandleOp(bus, op, frame, dev).Resumed? <==>
            var x := DecodeTransfer(op);
            && x.Some? && !x.value.writeback
            && (x.value.size in {HalfSize, SignedHalfSize} ==> x.value.preIndexed)
  {
    FormFields(op);
  }

  lemma FormFields(op: Word)
    ensures Field(op, 0x200_0000, 8) == 0 ==> Field(op, 0x400_0000, 4) == 0
  {
  }

  lemma HalfPerforms<D>(bus: Bus<D>, op: Word, frame: Frame, dev: D)
    requires IsHalfForm(op) && HandleHalf(bus, op, frame, dev).Resumed? && DecodeTransfer(op).Some?
    requires var x := OneMore(DecodeTransfer(op).value); !Clash(x) && NarrowAt(bus, x, frame, dev)
    ensures HandleHalf(bus, op, frame, dev) == Perform(bus, OneMore(DecodeTransfer(op).value), frame, dev)
  {
    hide Bit, Field, Pow2, Wrap, SignExtendHalf, Negated;
    FormFields(op);
    NegatedSum(Bit(op, U_BIT), frame[Rn(op)], if Bit(op, B_BIT) then Imm8(op) else frame[Rm(op)]);
  }

  lemma NegatedSum(up: bool, a: Word, t: Word)
    ensures Wrap(a + Negated(up, t)) == if up then Wrap(a + t) else Wrap(a - t)
  {
  }

  lemma WordOffsets<D>(op: Word, frame: Frame)
    requires IsWordForm(op) && HandlerOffset(op, frame).Some? && DecodeTransfer(op).Some?
    ensures var x := OneMore(DecodeTransfer(op).value);
            && x == Transfer(Bit(op, L_BIT), if Bit(op, B_BIT) then ByteSize else WordSize, Rd(op), Rn(op),
                             Bit(op, U_BIT),
                             x.offset, Bit(op, P_BIT), Bit(op, W_BIT))
            && Indexed(x, frame) == Wrap(frame[Rn(op)] + Negated(Bit(op, U_BIT), HandlerOffset(op, frame).value))
  {
    hide Bit, Field, Pow2, ManualShift, HandlerShift, Wrap, Negated;
    FormFields(op);
    NegatedSum(Bit(op, U_BIT), frame[Rn(op)], HandlerOffset(op, frame).value);
    if Bit(op, I_BIT) {
      ShiftIsOneMore(ShiftField(op), AmountField(op), frame[Rm(op)]);
    }
  }

  lemma WordPerforms<D>(bus: Bus<D>, op: Word, frame: Frame, dev: D)
    requires IsWordForm(op) && HandleWord(bus, op, frame, dev).Resumed? && DecodeTransfer(op).Some?
    requires var x := OneMore(DecodeTransfer(op).value); !Clash(x) && NarrowAt(bus, x, frame, dev)
    ensures HandleWord(bus, op, frame, dev) == Perform(bus, OneMore(DecodeTransfer(op).value), frame, dev)
  {
    hide Bit, Field, Pow2, HandlerOffset, DecodeTransfer, Negated, OneMore, Indexed, OffsetValue, IsWordForm;
    WordOffsets<D>(op, frame);
  }

  /** For every word it takes, the handler performs the decoded transfer, but for right shifts by one more. */
  lemma HandlerPerforms<D>(bus: Bus<D>, op: Word, frame: Frame, dev: D)
    requires HandlerGuard(op, frame[FLAGS]) == Run && HandleOp(bus, op, frame, dev).Resumed?
    requires DecodeTransfer(op).Some? ==>
               var x := OneMore(DecodeTransfer(op).value); !Clash(x) && NarrowAt(bus, x, frame, dev)
    ensures DecodeTransfer(op).Some?
    ensures HandleOp(bus, op, frame, dev) == Perform(bus, OneMore(DecodeTransfer(op).value), frame, dev)
  {
    hide Bit, Field, Pow2, Perform, Clash, NarrowAt, HandlerGuard;
    AcceptedTransfers(bus, op, frame, dev);
    FormFields(op);
    if IsHalfForm(op) {
      HalfPerforms(bus, op, frame, dev);
    } else {
      WordPerforms(bus, op, frame, dev);
    }
  }

  /** Storing the base register after moving it, the handler stores the moved one. */
  lemma ClashStoresNewBase<D>(bus: Bus<D>, op: Word, frame: Frame, dev: D)
    requires HandlerGuard(op, frame[FLAGS]) == Run && HandleOp(bus, op, frame, dev).Resumed?
    requires DecodeTransfer(op).Some? && Clash(OneMore(DecodeTransfer(op).value))
    ensures var x := OneMore(DecodeTransfer(op).value);
      var moved: Frame := frame[x.rn := Indexed(x, frame)];
      && x.size in {ByteSize, WordSize}
      && HandleOp(bus, op, frame, dev)
         == Resumed(moved, if x.size == ByteSize then bus.write8(dev, frame[x.rn], moved[x.rd])
                           else bus.write32(dev, frame[x.rn], moved[x.rd]))
  {
    AcceptedTransfers(bus, op, frame, dev);
    FormFields(op);
    hide Bit, Field, Pow2, HandlerOffset, Negated, OneMore, Indexed, OffsetValue, HandlerGuard, DecodeTransfer;
    if IsWordForm(op) {
      WordOffsets<D>(op, frame);
    } else {
      HalvesPreIndexed(op);
    }
  }

  lemma HalvesPreIndexed(op: Word)
    requires IsHalfForm(op) && DecodeTransfer(op).Some?
    ensures !Clash(OneMore(DecodeTransfer(op).value))
  {
    FormFields(op);
    hide Bit, Field;
  }

  /** The whole interpreter against the manual: skipped, or performed as decoded. */
  lemma HandlerMeetsManual<D>(bus: Bus<D>, op: Word, frame: Frame, dev: D)
    requires HandleOp(bus, op, frame, dev).Resumed?
    requires DecodeTransfer(op).Some? ==>
               && !Clash(DecodeTransfer(op).value) && !RightShifted(DecodeTransfer(op).value)
               && NarrowAt(bus, DecodeTransfer(op).value, frame, dev)
    ensures !ConditionPassed(Field(op, 0x1000_0000, 16), frame[FLAGS]) ==>
              HandleOp(bus, op, frame, dev) == Resumed(frame, dev)
    ensures ConditionPassed(Field(op, 0x1000_0000, 16), frame[FLAGS]) ==>
              && DecodeTransfer(op).Some?
              && HandleOp(bus, op, frame, dev) == Perform(bus, DecodeTransfer(op).value, frame, dev)
  {
    GuardMeetsManual(op, frame[FLAGS]);
    if HandlerGuard(op, frame[FLAGS]) == Run {
      HandlerPerforms(bus, op, frame, dev);
    }
  }

  // ----- register 15

  /** The manual's view of the registers: r15 reads as the instruction's address plus 8, and is no status word. */
  function WithPc(frame: Frame, pc: Word): Frame {
    frame[FLAGS := Plus(pc, 8)]
  }

  predicate UsesPc(x: Transfer) {
    x.rd == FLAGS || x.rn == FLAGS || (!x.offset.Immediate? && x.offset.rm == FLAGS)
  }

  /** A transfer without r15 is the same on both views, and leaves the status word alone. */
  lemma PcNotSeen<D>(bus: Bus<D>, x: Transfer, frame: Frame, dev: D, pc: Word)
    requires x.Valid() && !UsesPc(x)
    ensures var a, b := Perform(bus, x, frame, dev), Perform(bus, x, WithPc(frame, pc), dev);
      a.Resumed? && b.Resumed? && a.dev == b.dev && a.frame[..15] == b.frame[..15] && a.frame[FLAGS] == frame[FLAGS]
  {
    hide Plus, ManualShift;
    assert OffsetValue(x, frame) == OffsetValue(x, WithPc(frame, pc));
    hide OffsetValue;
  }

  /** With r15 as the base the frame gives another address, unless the status word happens to be the pc's value. */
  lemma PcAsBase(x: Transfer, frame: Frame, pc: Word)
    requires x.Valid() && x.rn == FLAGS && (x.offset.Immediate? || x.offset.rm != FLAGS)
    ensures TransferAddress(x, frame) == TransferAddress(x, WithPc(frame, pc)) <==> frame[FLAGS] == Plus(pc, 8)
  {
    hide ManualShift, Plus;
    var n := OffsetValue(x, frame);
    assert n == OffsetValue(x, WithPc(frame, pc));
    hide OffsetValue;
    SameShift(frame[FLAGS], Plus(pc, 8), n);
    SameShift(frame[FLAGS], Plus(pc, 8), 0 - n as int);
  }

  lemma SameShift(a: Word, b: Word, n: int)
    ensures Wrap(a as int + n) == Wrap(b as int + n) <==> a == b
  {
    if Wrap(a as int + n) == Wrap(b as int + n) {
      var k := (a as int + n) / 0x1_0000_0000 - (b as int + n) / 0x1_0000_0000;
      assert a as int - b as int == k * 0x1_0000_0000;
    }
  }

  /** A load into r15 that the handler takes replaces the status word by what was loaded, and branches nowhere. */
  lemma PcLoaded<D>(bus: Bus<D>, op: Word, frame: Frame, dev: D)
    requires HandlerGuard(op, frame[FLAGS]) == Run && HandleOp(bus, op, frame, dev).Resumed?
    requires DecodeTransfer(op).Some? ==>
               var x := OneMore(DecodeTransfer(op).value); x.load && x.rd == FLAGS && !Clash(x)
    ensures DecodeTransfer(op).Some?
    ensures
      var x := OneMore(DecodeTransfer(op).value);
      HandleOp(bus, op, frame, dev).frame[FLAGS] == Load(bus, x.size, dev, TransferAddress(x, frame)).1
  {
    hide HandlerGuard, HandleOp, DecodeTransfer, TransferAddress, Indexed, Load, Clash;
    HandlerPerforms(bus, op, frame, dev);
  }

  /** The same against the manual's registers, for transfers without r15. */
  lemma HandlerMeetsManualAt<D>(bus: Bus<D>, op: Word, frame: Frame, dev: D, pc: Word)
    requires HandleOp(bus, op, frame, dev).Resumed? && ConditionPassed(Field(op, 0x1000_0000, 16), frame[FLAGS])
    requires DecodeTransfer(op).Some? ==>
               && !Clash(DecodeTransfer(op).value) && !RightShifted(DecodeTransfer(op).value)
               && !UsesPc(DecodeTransfer(op).value) && NarrowAt(bus, DecodeTransfer(op).value, frame, dev)
    ensures DecodeTransfer(op).Some?
    ensures var manual := Perform(bus, DecodeTransfer(op).value, WithPc(frame, pc), dev);
      var handled := HandleOp(bus, op, frame, dev);
      && manual.Resumed? && handled.dev == manual.dev && handled.frame[..15] == manual.frame[..15]
      && handled.frame[FLAGS] == frame[FLAGS]
  {
    hide HandleOp, Perform, ConditionPassed, Field, DecodeTransfer, Clash, RightShifted, UsesPc, NarrowAt, WithPc;
    HandlerMeetsManual(bus, op, frame, dev);
    PcNotSeen(bus, DecodeTransfer(op).value, frame, dev, pc);
  }

  // ----- right shifts

  /** A logical right-shifted offset comes out as the manual says exactly for values that shift to nothing. */
  lemma LsrAgrees(amount: nat, t: Word)
    requires amount < 32
    ensures HandlerShift(1, amount, t) == Some(ManualShift(Lsr, amount, t)) <==>
            t < Pow2(if amount == 0 then 1 else amount)
  {
    HalvedAgain(t, amount);
    QuotientRange(t, amount);
    QuotientIsSign(t, amount);
    SignBit(t);
    hide Bit, Pow2;
  }

  /** The same for arithmetic shifts: exactly the values that shift to nothing but their sign. */
  lemma AsrAgrees(amount: nat, t: Word)
    requires amount < 32
    ensures HandlerShift(2, amount, t) == Some(ManualShift(Asr, amount, t)) <==>
            var p := Pow2(if amount == 0 then 1 else amount); 0 - p <= Signed(t) < p
  {
    var v, n := Signed(t), if amount == 0 then 1 else amount;
    SignBit(t);
    QuotientRange(v, n);
    QuotientIsSign(v, n);
    HalvedAgain(v, amount);
    hide Bit, Pow2, Wrap, Signed;
    if amount == 0 {
      SameWord(v / 2, if v < 0 then -1 else 0);
    } else {
      SameWord(v / Pow2(n) / 2, v / Pow2(n));
    }
  }

  lemma SameWord(a: int, b: int)
    requires -0x8000_0000 <= a < 0x8000_0000 && -0x8000_0000 <= b < 0x8000_0000
    ensures Wrap(a) == Wrap(b) <==> a == b
    ensures Wrap(-1) == 0xffff_ffff && Wrap(0) == 0
  {
  }

  lemma SignBit(t: Word)
    ensures Bit(t, 0x8000_0000) <==> Signed(t) < 0
    ensures -0x8000_0000 <= Signed(t) < 0x8000_0000
    ensures Pow2(0) == 1 && Pow2(1) == 2
  {
    Pow2Values();
  }

  lemma {:induction false} QuotientRange(v: int, n: nat)
    ensures if v >= 0 then 0 <= v / Pow2(n) <= v else v <= v / Pow2(n) < 0
  {
    if n > 0 {
      QuotientRange(v, n - 1);
      HalvedAgain(v, n - 1);
    }
  }

  lemma HalvedAgain(v: int, n: nat)
    ensures v / Pow2(n + 1) == v / Pow2(n) / 2
  {
    QuotientHalved(v, Pow2(n));
  }

  lemma QuotientHalved(v: int, p: int)
    requires p > 0
    ensures v / (2 * p) == v / p / 2
  {
    var q, r := v / p, v % p;
    var h, b := q / 2, q % 2;
    assert v == q * p + r;
    assert q * p == h * (2 * p) + b * p by { assert q == 2 * h + b; }
    assert 0 <= b * p <= p by { if b == 0 { assert b * p == 0; } else { assert b * p == p; } }
    DivUnique(v, 2 * p, h, b * p + r);
  }

  lemma QuotientIsSign(v: int, n: nat)
    ensures v / Pow2(n) == 0 <==> 0 <= v < Pow2(n)
    ensures v / Pow2(n) == -1 <==> 0 - Pow2(n) <= v < 0
  {
    var p := Pow2(n);
    assert v == (v / p) * p + v % p;
    if 0 <= v < p { DivUnique(v, p, 0, v); }
    if 0 - p <= v < 0 { DivUnique(v, p, -1, v + p); }
  }
}
