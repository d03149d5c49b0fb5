/**
 A small ARM machine: the registers, the status word, word memory, and a decoder for exactly the instruction
 forms that the patcher generates or that `emu_call_handle_op` is written in. Anything else stops the machine.
 */
module Arm {
  import opened Words
  import opened IoOps

  /** Word memory by byte address. Only aligned addresses are ever used, so words do not overlap. */
  type Mem = imap<int, Word>

  predicate Aligned(a: int) {
    a % 4 == 0
  }

  lemma AlignedStep(a: int, words: int)
    requires Aligned(a)
    ensures Aligned(a + 4 * words)
  {
  }

  function At(m: Mem, a: int): Word {
    if a in m then m[a] else 0
  }

  /** r0-r14. */
  type Regs = r: seq<Word> | |r| == 15 witness seq(15, _ => 0)

  const SP := 13
  const LR := 14
  const PC := 15

  /** The machine: pc is the address of the instruction about to run. */
  datatype Cpu<+D> = Cpu(r: Regs, pc: Word, cpsr: Word, mem: Mem, dev: D)

  datatype Instr =
    | StoreWord(rd: nat, rn: nat, offset: int)
    | LoadWord(rd: nat, rn: nat, offset: int)
    | AddImmediate(rd: nat, rn: nat, delta: int)
    | Move(rd: nat, rm: nat)
    | Branch(link: bool, offset: int)
    | StoreMany(rn: nat, first: nat, last: nat)
    | LoadMany(rn: nat, first: nat, last: nat)
    | ReadStatus(rd: nat)
    | WriteFlags(rm: nat)
    | BranchTo(rm: nat)
    | Undefined

  /** A data-processing immediate is eight bits rotated right by twice the rotate field: here by 0 or by 24. */
  function AddForm(w: Word, sign: int): Instr {
    var value := Field(w, 1, 0x100);
    match Field(w, 0x100, 16)
    case 0 => AddImmediate(Rd(w), Rn(w), sign * value)
    case 12 => AddImmediate(Rd(w), Rn(w), sign * (value * 0x100))
    case _ => Undefined
  }

  function SignExtend24(v: nat): int {
    if v < 0x80_0000 then v else v - 0x100_0000
  }

  function Decode(w: Word): Instr {
    var rd, rn, rm, middle := Rd(w), Rn(w), Rm(w), Field(w, 0x10, 0x100);
    if Field(w, 0x1000_0000, 16) != 14 then Undefined
    else if Field(w, 0x100_0000, 16) == 0xa then Branch(false, 4 * SignExtend24(Field(w, 1, 0x100_0000)))
    else if Field(w, 0x100_0000, 16) == 0xb then Branch(true, 4 * SignExtend24(Field(w, 1, 0x100_0000)))
    else match Field(w, 0x10_0000, 0x100)
      case 0x50 => StoreWord(rd, rn, 0 - Imm12(w))
      case 0x58 => StoreWord(rd, rn, Imm12(w))
      case 0x51 => LoadWord(rd, rn, 0 - Imm12(w))
      case 0x59 => LoadWord(rd, rn, Imm12(w))
      case 0x24 => AddForm(w, -1)
      case 0x28 => AddForm(w, 1)
      case 0x1a => if rn == 0 && middle == 0 then Move(rd, rm) else Undefined
      case 0x88 => if Field(w, 1, 0x1_0000) == 0x1ffe then StoreMany(rn, 1, 12) else Undefined
      case 0x89 => if Field(w, 1, 0x1_0000) == 0x3fff then LoadMany(rn, 0, 13) else Undefined
      case 0x10 => if rn == 15 && Imm12(w) == 0 then ReadStatus(rd) else Undefined
      case 0x12 =>
        if rn == 8 && rd == 15 && middle == 0 then WriteFlags(rm)
        else if rn == 15 && rd == 15 && middle == 0xf1 then BranchTo(rm)
        else Undefined
      case _ => Undefined
  }

  /** Reading r15 as an operand gives the instruction's address plus 8. */
  function Operand<D>(s: Cpu<D>, i: nat): Word
    requires i < 16
  {
    if i == PC then Plus(s.pc, 8) else s.r[i]
  }

  function Advance<D>(s: Cpu<D>): Cpu<D> {
    s.(pc := Plus(s.pc, 4))
  }

  function WithFlags(cpsr: Word, source: Word): Word {
    source / 0x100_0000 * 0x100_0000 + cpsr % 0x100_0000
  }

  /** Memory after storing registers first..last at consecutive words from base. */
  ghost function StoredMany(m: Mem, base: int, r: Regs, first: nat, last: nat): Mem
    requires first <= last < 15
  {
    imap a: int :: if base <= a < base + 4 * (last - first + 1) && (a - base) % 4 == 0
                   then r[first + (a - base) / 4] else At(m, a)
  }

  ghost function LoadedMany(m: Mem, base: int, r: Regs, first: nat, last: nat): Regs
    requires first <= last < 15
  {
    seq(15, i requires 0 <= i < 15 => LoadedOne(m, base, r, first, last, i))
  }

  ghost function LoadedOne(m: Mem, base: int, r: Regs, first: nat, last: nat, i: nat): Word
    requires i < 15
  {
    if first <= i <= last then At(m, base + 4 * (i - first)) else r[i]
  }

  /** One instruction. The machine stops on an undefined word, a misaligned address or a block that wraps around. */
  ghost function Execute<D>(i: Instr, s: Cpu<D>): Option<Cpu<D>> {
    match i
    case StoreWord(rd, rn, offset) =>
      if rd >= 16 || rn >= 16 then None else
      var a := Plus(Operand(s, rn), offset);
      if !Aligned(a) then None else Some(Advance(s).(mem := s.mem[a as int := Operand(s, rd)]))
    case LoadWord(rd, rn, offset) =>
      if rd >= 16 || rn >= 16 then None else
      var a := Plus(Operand(s, rn), offset);
      if !Aligned(a) then None
      else if rd == PC then Some(s.(pc := At(s.mem, a)))
      else Some(Advance(s).(r := s.r[rd := At(s.mem, a)]))
    case AddImmediate(rd, rn, delta) =>
      if rd >= 15 || rn >= 16 then None
      else Some(Advance(s).(r := s.r[rd := Plus(Operand(s, rn), delta)]))
    case Move(rd, rm) =>
      if rd >= 15 || rm >= 16 then None
      else Some(Advance(s).(r := s.r[rd := Operand(s, rm)]))
    case Branch(link, offset) =>
      Some(s.(r := if link then s.r[LR := Plus(s.pc, 4)] else s.r, pc := Plus(s.pc, 8 + offset)))
    case StoreMany(rn, first, last) =>
      if rn >= 15 || !(first <= last < 15) || !Aligned(s.r[rn]) || s.r[rn] > 0xffff_ff00 then None
      else Some(Advance(s).(mem := StoredMany(s.mem, s.r[rn], s.r, first, last)))
    case LoadMany(rn, first, last) =>
      if rn >= 15 || !(first <= last < 15) || !Aligned(s.r[rn]) || s.r[rn] > 0xffff_ff00 then None
      else Some(Advance(s).(r := LoadedMany(s.mem, s.r[rn], s.r, first, last)))
    case ReadStatus(rd) =>
      if rd >= 15 then None else Some(Advance(s).(r := s.r[rd := s.cpsr]))
    case WriteFlags(rm) =>
      if rm >= 15 then None else Some(Advance(s).(cpsr := WithFlags(s.cpsr, s.r[rm])))
    case BranchTo(rm) =>
      if rm >= 15 then None else Some(s.(pc := s.r[rm]))
    case Undefined => None
  }

  // ----- code addresses and encodings

  /** Distance in words between two word pointers, as 32-bit pointer subtraction gives it. */
  function PtrDiff(a: Word, b: Word): int {
    Signed(Wrap(a - b)) / 4
  }

  /** `make_jmp`: the word that jumps from pc to target; None is its `abort`. */
  function MakeJmp(pc: Word, target: Word, link: bool): Option<Word> {
    var value := PtrDiff(target, pc) - 2;
    if value < -0x80_0000 || value > 0x7f_ffff then None
    else Some(JmpWord(link, value % 0x100_0000))
  }

  function JmpWord(link: bool, low: nat): (w: Word)
    requires low < 0x100_0000
    ensures w == (if link then 0xeb00_0000 else 0xea00_0000) + low
  {
    OpcodeBits(if link then 0xeb else 0xea, low);
    Or(Or(0xea00_0000, if link then 0x100_0000 else 0), low)
  }

  lemma OpcodeBits(high: nat, low: nat)
    requires low < 0x100_0000
    ensures Or(0xea00_0000, 0) == 0xea00_0000 && Or(0xea00_0000, 0x100_0000) == 0xeb00_0000
    ensures Or(high * 0x100_0000, low) == high * 0x100_0000 + low
  {
    Pow2Values();
    hide Or, Pow2;
    ZeroOr(0xea00_0000);
    OrDisjoint(0x75, 0x100_0000, 25);
    OrDisjoint(high, low, 24);
  }

  /** `make_offset12`: the offset bits of a pc-relative load; None is its `abort`. */
  function MakeOffset12(pc: Word, target: Word): (o: Option<nat>)
  {
    var distance := Signed(Wrap(target - pc)) - 8;
    var size := if distance < 0 then -distance else distance;
    if size >= 0x1000 then None
    else Some(Or(if distance < 0 then 0 else 0x80_0000, size))
  }

  lemma JmpWordDecodes(link: bool, low: nat)
    requires low < 0x100_0000
    ensures Decode(JmpWord(link, low)) == Branch(link, 4 * SignExtend24(low))
  {
    var w := JmpWord(link, low);
    assert w / 0x100_0000 == if link then 0xeb else 0xea;
    assert w / 0x1000_0000 == 14;
    assert w / 1 % 0x100_0000 == low;
    hide JmpWord, AddForm, SignExtend24, Or, Pow2;
  }

  lemma SignExtends(value: int)
    requires -0x80_0000 <= value < 0x80_0000
    ensures SignExtend24(value % 0x100_0000) == value
  {
  }

  /** A jump decodes to a branch that lands on its target. */
  lemma JmpDecodes(pc: Word, target: Word, link: bool)
    requires Aligned(pc) && Aligned(target) && MakeJmp(pc, target, link).Some?
    ensures var b := Decode(MakeJmp(pc, target, link).value);
            b == Branch(link, Signed(Wrap(target - pc)) - 8) && Plus(pc, 8 + b.offset) == target
  {
    hide Decode, Wrap, Signed, Plus, JmpWord, SignExtend24, Or, Pow2;
    var value := PtrDiff(target, pc) - 2;
    JmpWordDecodes(link, value % 0x100_0000);
    SignExtends(value);
    PlusDistance(pc, target);
    AlignedDistance(pc, target);
  }

  lemma AlignedDistance(a: Word, b: Word)
    requires Aligned(a) && Aligned(b)
    ensures Signed(Wrap(b - a)) % 4 == 0
  {
  }

  /** `make_jmp` gives up exactly on the targets no 24-bit word offset reaches. */
  lemma JmpReach(pc: Word, target: Word, link: bool)
    requires Aligned(pc) && Aligned(target)
    ensures MakeJmp(pc, target, link).Some? <==>
            exists k :: -0x80_0000 <= k < 0x80_0000 && Plus(pc, 8 + 4 * k) == target
  {
    var value := PtrDiff(target, pc) - 2;
    PlusDistance(pc, target);
    AlignedDistance(pc, target);
    hide Plus, Wrap, Signed;
    assert Plus(pc, 8 + 4 * value) == target;
    forall k | -0x80_0000 <= k < 0x80_0000 && Plus(pc, 8 + 4 * k) == target ensures k == value {
      DistanceOfPlus(pc, 8 + 4 * k);
    }
  }

  /** The offset bits put into a pc-relative load address the target exactly. */
  lemma OffsetDecodes(pc: Word, target: Word)
    requires MakeOffset12(pc, target).Some?
    ensures Or(0xe51f_f000, MakeOffset12(pc, target).value) < 0x1_0000_0000
    ensures Decode(Or(0xe51f_f000, MakeOffset12(pc, target).value))
         == LoadWord(PC, PC, Signed(Wrap(target - pc)) - 8)
  {
    var distance := Signed(Wrap(target - pc)) - 8;
    var size := if distance < 0 then -distance else distance;
    OffsetBits(size);
    BackwardLoad(size);
    ForwardLoad(size);
    hide Decode, Wrap, Signed, Or;
  }

  lemma OffsetBits(size: nat)
    requires size < 0x1000
    ensures Or(0, size) == size && Or(0x80_0000, size) == 0x80_0000 + size
    ensures Or(0xe51f_f000, size) == 0xe51f_f000 + size
    ensures Or(0xe51f_f000, 0x80_0000 + size) == 0xe59f_f000 + size
  {
    Pow2Values();
    hide Or, Pow2;
    ZeroOr(size);
    OrDisjoint(0x800, size, 12);
    OrDisjoint(0xe51ff, size, 12);
    ShiftedOpcodes();
    OrShifted(0xe51ff, 0x800, size, 12);
  }

  lemma ShiftedOpcodes()
    ensures ShiftUp(0xe51ff, 12) == 0xe51f_f000 && ShiftUp(0x800, 12) == 0x80_0000
    ensures ShiftUp(Or(0xe51ff, 0x800), 12) == 0xe59f_f000
  {
    Pow2Values();
    ShiftUpIsProduct(0xe51ff, 12);
    ShiftUpIsProduct(0x800, 12);
    ShiftUpIsProduct(0xe59ff, 12);
    assert Or(0xe51ff, 0x800) == 0xe59ff by { LoadBits(); }
    hide Or, ShiftUp, Pow2;
  }

  lemma LoadBits()
    ensures Or(0xe51ff, 0x800) == 0xe59ff
  {
    ShiftUpIsProduct(0x1ca, 11);
    ShiftUpIsProduct(1, 11);
    ShiftUpIsProduct(0x1cb, 11);
    assert Pow2(11) == 0x800;
    assert Or(1, 0x1ca) == 0x1cb by { OneOr(0xe5); }
    hide Or, ShiftUp, Pow2;
    OrShifted(1, 0x1ca, 0x1ff, 11);
    OrCommutes(0xe51ff, 0x800);
  }

  /** Setting the lowest bit of an even number. */
  lemma OneOr(half: nat)
    ensures Or(1, 2 * half) == 2 * half + 1
  {
    if half > 0 {
      assert Or(1, 2 * half) == 2 * Or(0, half) + 1;
      ZeroOr(half);
    }
  }

  lemma BackwardLoad(size: nat)
    requires size < 0x1000
    ensures Decode(0xe51f_f000 + size) == LoadWord(PC, PC, 0 - size)
  {
    assert (0xe51f_f000 + size) / 0x1000 == 0xe51ff;
  }

  lemma ForwardLoad(size: nat)
    requires size < 0x1000
    ensures Decode(0xe59f_f000 + size) == LoadWord(PC, PC, size)
  {
    assert (0xe59f_f000 + size) / 0x1000 == 0xe59ff;
  }
}
