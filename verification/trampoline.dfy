/**
 The generated code around one trapped instruction, run on the ARM machine: the branch at the fault site, the
 seven words after its `op_context`, the fifteen words of `emu_call_handle_op`, and the C call in between.
 */
module Trampoline {
  import opened Words
  import opened IoOps
  import opened Arm

  /** Where the linker put `emu_call_handle_op` and `emu_handle_op`. */
  datatype Host = Host(stub: Word, entry: Word)

  /** What a C function may leave behind: scratch registers, flags, and depth bytes of its own stack. */
  datatype Clobber = Clobber(r: Regs, flags: Word, stack: Mem, depth: nat)

  const FRAME_GAP := 0xf00

  function StubWords(call: Word): seq<Word> {
    [ 0xe50d_decc,  // sp into its slot of the frame
      0xe24d_dc0f,  // make room for the frame
      0xe28d_d004,  // on to slot 1
      0xe88d_1ffe,  // r1 to r12 into theirs
      0xe24d_d004,  // back to slot 0
      0xe10f_2000,  // fetch the flags
      0xe1a0_100d,  // the frame is the second argument
      0xe58d_203c,  // flags into slot 15
      0xe1a0_400e,  // keep the way back where C code preserves it
      call,
      0xe59d_103c,  // the flags as C left them in the frame
      0xe1a0_e004,  // the way back
      0xe128_f001,  // set the flags
      0xe89d_3fff,  // everything else, sp last
      0xe12f_ff1e ] // and return
  }

  /** The words `segv_sigaction` emits at context + 8, given the handler load and the jump back. */
  function TrampolineWords(load: Word, back: Word): seq<Word> {
    [ 0xe50d_0000 + 0xf00 - 4 * 0,   // r0 into slot 0
      0xe50d_e000 + 0xf00 - 4 * 14,  // lr into slot 14
      0xe24f_0000 + (4 + 2) * 4,     // the context is the first argument
      0xe1a0_e00f,                   // return to the sixth word
      load,                          // off to the page's handler
      0xe51d_e000 + 0xf00 - 4 * 14,  // lr from slot 14
      back ]
  }

  ghost predicate WordsAt(m: Mem, base: int, words: seq<Word>) {
    Aligned(base) && forall i | 0 <= i < |words| :: At(m, base + 4 * i) == words[i]
  }

  const TOP := 0xffff_0000

  ghost predicate StubAt(m: Mem, host: Host) {
    && Aligned(host.stub) && host.stub < TOP && Aligned(host.entry)
    && !(host.stub <= host.entry < host.stub + 60)
    && MakeJmp(Plus(host.stub, 36), host.entry, true).Some?
    && WordsAt(m, host.stub, StubWords(MakeJmp(Plus(host.stub, 36), host.entry, true).value))
  }

  /** A trampoline's place: its linkpage, its context in there, and the address and word of the trapped instruction. */
  datatype Place = Place(page: Word, c: Word, site: Word, op: Word)
  {
    predicate Valid() {
      && Aligned(page) && Aligned(c) && Aligned(site)
      && page + 8 <= c <= page + (0x1000 - 36) && page < TOP && site < TOP
    }

    function Code(): Word { Plus(c, 8) }
    function Back(): Option<Word> { MakeJmp(Plus(c, 32), Plus(site, 4), false) }
    function Load(): Option<nat> { MakeOffset12(Plus(c, 24), Plus(page, 4)) }
    function Out(): Option<Word> { MakeJmp(site, Code(), false) }

    /** ldr pc, [pc, #-n] with the offset bits put in. */
    function LoadWord(): Word
      requires Load().Some?
    {
      OffsetDecodes(Plus(c, 24), Plus(page, 4));
      Or(0xe51f_f000, Load().value)
    }
  }

  /** A complete trampoline, and the branch that leads to it. */
  ghost predicate TrampolineAt(m: Mem, host: Host, p: Place) {
    && p.Valid() && p.Load().Some? && p.Back().Some? && p.Out().Some?
    && At(m, p.page + 4) == host.stub && At(m, p.site) == p.Out().value
    && At(m, p.c) == p.site && At(m, p.c + 4) == p.op
    && WordsAt(m, p.c + 8, TrampolineWords(p.LoadWord(), p.Back().value))
  }

  // ----- running

  ghost function FrameAt(m: Mem, base: int): Frame {
    seq(16, i requires 0 <= i < 16 => At(m, base + 4 * i))
  }

  ghost function AfterCall(m: Mem, base: int, frame: Frame, k: Clobber): Mem {
    imap a: int :: if base <= a < base + 64 && (a - base) % 4 == 0 then frame[(a - base) / 4]
                   else if base - k.depth <= a < base then At(k.stack, a) else At(m, a)
  }

  /** The registers a C function leaves behind when it returns. */
  function Returned(r: Regs, k: Clobber): Regs {
    k.r[..4] + r[4..12] + [k.r[12], r[SP], k.r[14]]
  }

  /** `emu_handle_op(r0, r1)` under the calling convention: r4-r11 and sp are kept, the return goes to lr. */
  ghost function CallHandler<D>(bus: Bus<D>, k: Clobber, s: Cpu<D>): Option<Cpu<D>> {
    var context: int, base: int := s.r[0], s.r[1];
    if base != s.r[SP] || !Aligned(base) || !Aligned(context) then None
    else match HandleOp(bus, At(s.mem, context + 4), FrameAt(s.mem, base), s.dev)
      case Abort => None
      case Resumed(frame, dev') =>
        Some(Cpu(Returned(s.r, k), s.r[LR], WithFlags(s.cpsr, k.flags), AfterCall(s.mem, base, frame, k), dev'))
  }

  ghost function Next<D>(bus: Bus<D>, host: Host, k: Clobber, s: Cpu<D>): Option<Cpu<D>> {
    if s.pc == host.entry then CallHandler(bus, k, s)
    else if !Aligned(s.pc) then None
    else Execute(Decode(At(s.mem, s.pc)), s)
  }

  ghost function RunFor<D>(bus: Bus<D>, host: Host, k: Clobber, s: Cpu<D>, n: nat): Option<Cpu<D>>
    decreases n
  {
    if n == 0 then Some(s)
    else match Next(bus, host, k, s)
      case None => None
      case Some(s') => RunFor(bus, host, k, s', n - 1)
  }

  lemma {:induction false} RunSplit<D>(bus: Bus<D>, host: Host, k: Clobber, s: Cpu<D>, a: nat, b: nat)
    requires RunFor(bus, host, k, s, a).Some?
    ensures RunFor(bus, host, k, s, a + b) == RunFor(bus, host, k, RunFor(bus, host, k, s, a).value, b)
    decreases a
  {
    hide Next;
    if a > 0 {
      RunSplit(bus, host, k, Next(bus, host, k, s).value, a - 1, b);
    }
  }

  lemma EntryDecodes()
    ensures Decode(0xe50d_0f00) == StoreWord(0, 13, -0xf00)
    ensures Decode(0xe50d_eec8) == StoreWord(14, 13, -0xec8)
    ensures Decode(0xe1a0_e00f) == Move(14, 15)
    ensures Decode(0xe51d_eec8) == LoadWord(14, 13, -0xec8)
  {
    hide AddForm, SignExtend24;
  }

  lemma StubDecodes1()
    ensures Decode(0xe50d_decc) == StoreWord(13, 13, -0xecc)
    ensures Decode(0xe88d_1ffe) == StoreMany(13, 1, 12)
    ensures Decode(0xe10f_2000) == ReadStatus(2)
  {
    hide AddForm, SignExtend24;
  }

  lemma StubDecodes3()
    ensures Decode(0xe1a0_100d) == Move(1, 13)
    ensures Decode(0xe58d_203c) == StoreWord(2, 13, 60)
    ensures Decode(0xe1a0_400e) == Move(4, 14)
  {
    hide AddForm, SignExtend24;
  }

  lemma StubDecodes2()
    ensures Decode(0xe59d_103c) == LoadWord(1, 13, 60)
    ensures Decode(0xe1a0_e004) == Move(14, 4)
    ensures Decode(0xe128_f001) == WriteFlags(1)
  {
    hide AddForm, SignExtend24;
  }

  lemma StubDecodes4()
    ensures Decode(0xe89d_3fff) == LoadMany(13, 0, 13)
    ensures Decode(0xe12f_ff1e) == BranchTo(14)
  {
    hide AddForm, SignExtend24;
  }

  lemma AdderDecodes()
    ensures Decode(0xe24f_0018) == AddImmediate(0, 15, -24)
    ensures Decode(0xe24d_dc0f) == AddImmediate(13, 13, -0xf00)
    ensures Decode(0xe28d_d004) == AddImmediate(13, 13, 4)
    ensures Decode(0xe24d_d004) == AddImmediate(13, 13, -4)
  {
    hide SignExtend24;
  }

  // ----- single instructions, on addresses that do not wrap

  predicate Clear(low: int, high: int, at: int, size: int) {
    at + size <= low || high <= at
  }

  /** The instruction at address at, once decoded. */
  ghost predicate Instruction(m: Mem, at: int, i: Instr) {
    Decode(At(m, at)) == i
  }

  ghost predicate JumpAt(m: Mem, at: Word, target: Word, link: bool) {
    var distance := Signed(Wrap(target - at));
    Instruction(m, at, Branch(link, distance - 8)) && Plus(at, distance) == target
  }

  /** The machine is about to run instruction i, and not at the C function's entry. */
  ghost predicate AtInstruction<D>(s: Cpu<D>, host: Host, i: Instr) {
    Instruction(s.mem, s.pc, i) && s.pc != host.entry && Aligned(s.pc) && s.pc < 0xffff_ff00
  }

  lemma Jumping<D>(bus: Bus<D>, host: Host, k: Clobber, s: Cpu<D>, target: Word, link: bool)
    requires JumpAt(s.mem, s.pc, target, link) && s.pc != host.entry && Aligned(s.pc) && s.pc < 0xffff_ff00
    ensures Next(bus, host, k, s)
         == Some(s.(r := if link then s.r[LR := s.pc + 4] else s.r, pc := target))
  {
    hide CallHandler, StoredMany, LoadedMany, Decode, Signed;
  }

  lemma Storing<D>(bus: Bus<D>, host: Host, k: Clobber, s: Cpu<D>, rd: nat, rn: nat, offset: int, a: int)
    requires AtInstruction(s, host, StoreWord(rd, rn, offset)) && rd < 15 && rn < 15
    requires a == s.r[rn] + offset && 0 <= a < 0x1_0000_0000 && Aligned(a)
    ensures Next(bus, host, k, s) == Some(s.(mem := s.mem[a := s.r[rd]], pc := s.pc + 4))
  {
    hide CallHandler, StoredMany, LoadedMany, Decode;
  }

  lemma Loading<D>(bus: Bus<D>, host: Host, k: Clobber, s: Cpu<D>, rd: nat, rn: nat, offset: int, a: int)
    requires AtInstruction(s, host, LoadWord(rd, rn, offset)) && rd < 15 && rn < 15
    requires a == s.r[rn] + offset && 0 <= a < 0x1_0000_0000 && Aligned(a)
    ensures Next(bus, host, k, s) == Some(s.(r := s.r[rd := At(s.mem, a)], pc := s.pc + 4))
  {
    hide CallHandler, StoredMany, LoadedMany, Decode;
  }

  /** ldr pc, [pc, #offset] */
  lemma LoadingPc<D>(bus: Bus<D>, host: Host, k: Clobber, s: Cpu<D>, offset: int, a: int)
    requires AtInstruction(s, host, LoadWord(PC, PC, offset))
    requires a == s.pc + 8 + offset && 0 <= a < 0x1_0000_0000 && Aligned(a) && Aligned(At(s.mem, a))
    ensures Next(bus, host, k, s) == Some(s.(pc := At(s.mem, a)))
  {
    hide CallHandler, StoredMany, LoadedMany, Decode;
  }

  lemma Adding<D>(bus: Bus<D>, host: Host, k: Clobber, s: Cpu<D>, rd: nat, rn: nat, delta: int, value: Word)
    requires AtInstruction(s, host, AddImmediate(rd, rn, delta)) && rd < 15 && rn < 16
    requires value == (if rn == PC then s.pc + 8 else s.r[rn]) as int + delta
    ensures Next(bus, host, k, s) == Some(s.(r := s.r[rd := value], pc := s.pc + 4))
  {
    hide CallHandler, StoredMany, LoadedMany, Decode;
  }

  lemma Moving<D>(bus: Bus<D>, host: Host, k: Clobber, s: Cpu<D>, rd: nat, rm: nat, value: Word)
    requires AtInstruction(s, host, Move(rd, rm)) && rd < 15 && rm < 16
    requires value == if rm == PC then s.pc + 8 else s.r[rm]
    ensures Next(bus, host, k, s) == Some(s.(r := s.r[rd := value], pc := s.pc + 4))
  {
    hide CallHandler, StoredMany, LoadedMany, Decode;
  }

  lemma AtPut(m: Mem, a: int, v: Word, b: int)
    ensures At(m[a := v], b) == if a == b then v else At(m, b)
  {
  }

  // ----- the phases of one trapped instruction

  /** The stack leaves room for the frame and the handler, and no code lies in that room. */
  predicate Safe(sp: Word, depth: nat, host: Host, p: Place) {
    var base := sp as int - FRAME_GAP;
    && Aligned(base) && depth <= base && sp < TOP
    && Clear(base - depth, base + 64, p.page + 4, 4)
    && Clear(base - depth, base + 64, p.c, 36)
    && Clear(base - depth, base + 64, p.site, 4)
    && Clear(base - depth, base + 64, host.stub, 60)
    && host.entry != p.site && Clear(p.c, p.c + 36, host.entry, 4)
  }

  /** The addresses from at, taken for size bytes, are aligned, do not wrap and avoid the C function's entry. */
  predicate Runnable(at: int, size: int, host: Host) {
    && 0 <= at && at + size < 0xffff_ff00 && Aligned(at)
    && Clear(at, at + size, host.entry, 4)
  }

  /** The generated code before the C call, as the machine decodes it. */
  ghost predicate EntryCode(m: Mem, host: Host, p: Place) {
    var c := p.c as int;
    && Runnable(c + 8, 20, host)
    && Instruction(m, c + 8, StoreWord(0, 13, -0xf00))
    && Instruction(m, c + 12, StoreWord(14, 13, -0xec8))
    && Instruction(m, c + 16, AddImmediate(0, 15, -24))
    && Instruction(m, c + 20, Move(14, 15))
    && Instruction(m, c + 24, LoadWord(15, 15, p.page as int + 4 - (c + 24) - 8))
  }

  lemma EntryKept(m: Mem, m': Mem, host: Host, p: Place)
    requires EntryCode(m, host, p) && forall a | p.c <= a < p.c as int + 36 :: At(m', a) == At(m, a)
    ensures EntryCode(m', host, p)
  {
    hide Decode, Runnable;
  }

  lemma AlignedSteps(at: int)
    requires Aligned(at)
    ensures Aligned(at + 4) && Aligned(at + 8) && Aligned(at + 12) && Aligned(at + 16) && Aligned(at + 20)
    ensures Aligned(at + 24) && Aligned(at + 28) && Aligned(at + 52) && Aligned(at + 56) && Aligned(at + 60)
  {
  }

  lemma PlaceAligned(p: Place)
    requires p.Valid()
    ensures Plus(p.c, 8) == p.c as int + 8 && Plus(p.c, 24) == p.c as int + 24 && Plus(p.c, 28) == p.c as int + 28
    ensures Plus(p.c, 32) == p.c as int + 32 && Plus(p.site, 4) == p.site as int + 4
    ensures Plus(p.page, 4) == p.page as int + 4
    ensures Aligned(p.c as int + 8) && Aligned(p.c as int + 24) && Aligned(p.c as int + 28) && Aligned(p.c as int + 32)
    ensures Aligned(p.site as int + 4) && Aligned(p.page as int + 4)
  {
  }

  /** The first five generated words put r0 and lr into the frame and lead to the stub, with the context in r0. */
  lemma Enter<D>(bus: Bus<D>, host: Host, k: Clobber, s: Cpu<D>, p: Place, base: int)
    requires EntryCode(s.mem, host, p) && s.pc == p.c as int + 8
    requires Aligned(p.page as int + 4) && p.page < TOP && Aligned(host.stub)
    requires At(s.mem, p.page as int + 4) == host.stub && Clear(base, base + 64, p.page as int + 4, 4)
    requires base == s.r[SP] as int - 0xf00 && 0 <= base && Aligned(base)
    requires Clear(base, base + 64, p.c, 36)
    ensures RunFor(bus, host, k, s, 5)
         == Some(s.(r := s.r[0 := p.c][LR := Plus(p.c, 28)], pc := host.stub,
                    mem := s.mem[base := s.r[0]][base + 56 := s.r[LR]]))
  {
    hide Decode, Next, Aligned, At, RunFor;
    var c := p.c as int;
    AlignedSteps(base);
    AlignedSteps(c + 8);
    var s1 := s.(pc := c + 12, mem := s.mem[base := s.r[0]]);
    var s2 := s1.(pc := c + 16, mem := s1.mem[base + 56 := s.r[LR]]);
    var s3 := s2.(pc := c + 20, r := s.r[0 := p.c]);
    var s4 := s3.(pc := c + 24, r := s3.r[LR := c + 28]);
    TwoPuts(s.mem, base, s.r[0], s.r[LR]);
    EntryKept(s.mem, s1.mem, host, p);
    EntryKept(s.mem, s2.mem, host, p);
    Storing(bus, host, k, s, 0, 13, -0xf00, base);
    Storing(bus, host, k, s1, 14, 13, -0xec8, base + 56);
    Adding(bus, host, k, s2, 0, 15, -24, p.c);
    Moving(bus, host, k, s3, 14, 15, c + 28);
    LoadingPc(bus, host, k, s4, p.page as int + 4 - (c + 24) - 8, p.page as int + 4);
    RunFive(bus, host, k, s, s1, s2, s3, s4, s4.(pc := host.stub));
  }

  lemma TwoPuts(m: Mem, base: int, v: Word, w: Word)
    ensures var m1 := m[base := v]; var m2 := m1[base + 56 := w];
      forall a | a != base && a != base + 56 :: At(m2, a) == At(m, a) == At(m1, a)
  {
  }

  lemma RunFive<D>(bus: Bus<D>, host: Host, k: Clobber,
                   s: Cpu<D>, s1: Cpu<D>, s2: Cpu<D>, s3: Cpu<D>, s4: Cpu<D>, s5: Cpu<D>)
    requires Next(bus, host, k, s) == Some(s1) && Next(bus, host, k, s1) == Some(s2)
    requires Next(bus, host, k, s2) == Some(s3) && Next(bus, host, k, s3) == Some(s4)
    requires Next(bus, host, k, s4) == Some(s5)
    ensures RunFor(bus, host, k, s, 5) == Some(s5)
  {
    hide Next;
    assert RunFor(bus, host, k, s4, 1) == Some(s5);
    assert RunFor(bus, host, k, s3, 2) == Some(s5);
    assert RunFor(bus, host, k, s2, 3) == Some(s5);
  }

  /** `emu_call_handle_op` up to the call. */
  ghost predicate SaveCode(m: Mem, host: Host) {
    var at := host.stub as int;
    && Runnable(at, 40, host)
    && Instruction(m, at, StoreWord(13, 13, -0xecc))
    && Instruction(m, at + 4, AddImmediate(13, 13, -0xf00))
    && Instruction(m, at + 8, AddImmediate(13, 13, 4))
    && Instruction(m, at + 12, StoreMany(13, 1, 12))
    && Instruction(m, at + 16, AddImmediate(13, 13, -4))
    && Instruction(m, at + 20, ReadStatus(2))
    && Instruction(m, at + 24, Move(1, 13))
    && Instruction(m, at + 28, StoreWord(2, 13, 60))
    && Instruction(m, at + 32, Move(4, 14))
    && JumpAt(m, Plus(host.stub, 36), host.entry, true)
  }

  lemma SaveKept(m: Mem, m': Mem, host: Host)
    requires SaveCode(m, host) && forall a | host.stub <= a < host.stub as int + 40 :: At(m', a) == At(m, a)
    ensures SaveCode(m', host)
  {
    hide Decode, Signed, Wrap;
    assert Plus(host.stub, 36) == host.stub as int + 36 by { PlusSmall(host.stub, 36); }
    hide Plus;
  }

  lemma StoringMany<D>(bus: Bus<D>, host: Host, k: Clobber, s: Cpu<D>, first: nat, last: nat)
    requires AtInstruction(s, host, StoreMany(SP, first, last)) && first <= last < 15
    requires Aligned(s.r[SP]) && s.r[SP] < 0xffff_ff00
    ensures Next(bus, host, k, s)
         == Some(s.(mem := StoredMany(s.mem, s.r[SP], s.r, first, last), pc := s.pc + 4))
  {
    hide Decode, StoredMany, CallHandler;
  }

  lemma ReadingStatus<D>(bus: Bus<D>, host: Host, k: Clobber, s: Cpu<D>, rd: nat)
    requires AtInstruction(s, host, ReadStatus(rd)) && rd < 15
    ensures Next(bus, host, k, s) == Some(s.(r := s.r[rd := s.cpsr], pc := s.pc + 4))
  {
    hide CallHandler, StoredMany, LoadedMany, Decode;
  }

  /** The frame being built: sp and r1-r12 are in place, the status word is not. */
  ghost function SavedMem<D>(s: Cpu<D>, base: int): Mem {
    StoredMany(s.mem[base + 52 := s.r[SP]], base + 4, s.r, 1, 12)
  }

  lemma SavedElsewhere<D>(s: Cpu<D>, base: int, a: int)
    requires a < base || base + 64 <= a
    ensures At(SavedMem(s, base), a) == At(s.mem, a) == At(s.mem[base + 52 := s.r[SP]], a)
    ensures At(SavedMem(s, base)[base + 60 := s.cpsr], a) == At(s.mem, a)
  {
  }

  lemma SaveRegisters<D>(bus: Bus<D>, host: Host, k: Clobber, s: Cpu<D>, base: int)
    requires SaveCode(s.mem, host) && s.pc == host.stub
    requires base == s.r[SP] as int - 0xf00 && 0 <= base && Aligned(base) && s.r[SP] < TOP
    requires Clear(base, base + 64, host.stub, 60)
    ensures RunFor(bus, host, k, s, 5)
         == Some(s.(r := s.r[SP := base], pc := host.stub as int + 20, mem := SavedMem(s, base)))
  {
    hide Decode, Next, Aligned, At, RunFor, StoredMany;
    AlignedSteps(base);
    AlignedSteps(host.stub);
    var s1 := s.(pc := host.stub as int + 4, mem := s.mem[base + 52 := s.r[SP]]);
    var s2 := s1.(pc := host.stub as int + 8, r := s.r[SP := base]);
    var s3 := s2.(pc := host.stub as int + 12, r := s.r[SP := base + 4]);
    var s4 := s3.(pc := host.stub as int + 16, mem := SavedMem(s, base));
    var s5 := s4.(pc := host.stub as int + 20, r := s.r[SP := base]);
    forall a | host.stub <= a < host.stub as int + 40
      ensures At(s1.mem, a) == At(s.mem, a) == At(s4.mem, a)
    {
      SavedElsewhere(s, base, a);
    }
    SaveKept(s.mem, s1.mem, host);
    SaveKept(s.mem, s4.mem, host);
    Storing(bus, host, k, s, 13, 13, -0xecc, base + 52);
    Adding(bus, host, k, s1, 13, 13, -0xf00, base);
    Adding(bus, host, k, s2, 13, 13, 4, base + 4);
    assert s3.r == s2.r[SP := base + 4];
    StoringMany(bus, host, k, s3, 1, 12);
    SameStore(s1.mem, base + 4, s3.r, s.r);
    Adding(bus, host, k, s4, 13, 13, -4, base);
    assert s5.r == s4.r[SP := base];
    RunFive(bus, host, k, s, s1, s2, s3, s4, s5);
  }

  lemma SameStore(m: Mem, base: int, r: Regs, r': Regs)
    requires forall i | 1 <= i <= 12 :: r[i] == r'[i]
    ensures StoredMany(m, base, r, 1, 12) == StoredMany(m, base, r', 1, 12)
  {
  }

  lemma SaveStatus<D>(bus: Bus<D>, host: Host, k: Clobber, s: Cpu<D>, base: int)
    requires SaveCode(s.mem, host) && s.pc == host.stub as int + 20
    requires base == s.r[SP] && Aligned(base) && base < TOP - 64
    requires Clear(base, base + 64, host.stub, 60)
    ensures RunFor(bus, host, k, s, 5)
         == Some(s.(r := s.r[2 := s.cpsr][1 := base][4 := s.r[LR]][LR := host.stub as int + 40], pc := host.entry,
                    mem := s.mem[base + 60 := s.cpsr]))
  {
    hide Decode, Next, Aligned, At, RunFor, Signed, Wrap;
    AlignedSteps(base);
    AlignedSteps(host.stub as int);
    AlignedSteps(host.stub as int + 20);
    assert Plus(host.stub, 36) == host.stub as int + 36 by { PlusSmall(host.stub, 36); }
    hide Plus;
    var s1 := s.(pc := host.stub as int + 24, r := s.r[2 := s.cpsr]);
    var s2 := s1.(pc := host.stub as int + 28, r := s1.r[1 := base]);
    var s3 := s2.(pc := host.stub as int + 32, mem := s.mem[base + 60 := s.cpsr]);
    var s4 := s3.(pc := host.stub as int + 36, r := s3.r[4 := s.r[LR]]);
    forall a | host.stub <= a < host.stub as int + 40 ensures At(s3.mem, a) == At(s.mem, a) {
      AtPut(s.mem, base + 60, s.cpsr, a);
    }
    SaveKept(s.mem, s3.mem, host);
    ReadingStatus(bus, host, k, s, 2);
    Moving(bus, host, k, s1, 1, 13, base);
    Storing(bus, host, k, s2, 2, 13, 60, base + 60);
    Moving(bus, host, k, s3, 4, 14, s.r[LR]);
    Jumping(bus, host, k, s4, host.entry, true);
    RunFive(bus, host, k, s, s1, s2, s3, s4, s4.(r := s4.r[LR := host.stub as int + 40], pc := host.entry));
  }

  // ----- the call and the way back

  ghost function SavedFrame<D>(s: Cpu<D>): Frame {
    s.r + [s.cpsr]
  }

  /** Memory when the C function is entered: the whole frame of state s is in place. */
  ghost function FrameMem<D>(s: Cpu<D>, c: Word, lr: Word, base: int): Mem {
    var m := s.mem[base := s.r[0]][base + 56 := s.r[LR]];
    SavedMem(s.(mem := m, r := s.r[0 := c][LR := lr]), base)[base + 60 := s.cpsr]
  }

  lemma FrameSaved<D>(s: Cpu<D>, c: Word, lr: Word, base: int)
    ensures FrameAt(FrameMem(s, c, lr, base), base) == SavedFrame(s)
    ensures forall a | a < base || base + 64 <= a :: At(FrameMem(s, c, lr, base), a) == At(s.mem, a)
  {
    forall i | 0 <= i < 16 ensures At(FrameMem(s, c, lr, base), base + 4 * i) == SavedFrame(s)[i] {
      FrameSlot(s, c, lr, base, i);
    }
    forall a | a < base || base + 64 <= a ensures At(FrameMem(s, c, lr, base), a) == At(s.mem, a) {
      FrameElsewhere(s, c, lr, base, a);
    }
    hide FrameMem, At;
  }

  lemma FrameElsewhere<D>(s: Cpu<D>, c: Word, lr: Word, base: int, a: int)
    requires a < base || base + 64 <= a
    ensures At(FrameMem(s, c, lr, base), a) == At(s.mem, a)
  {
    var m := s.mem[base := s.r[0]][base + 56 := s.r[LR]];
    SavedElsewhere(s.(mem := m, r := s.r[0 := c][LR := lr]), base, a);
    hide SavedMem;
  }

  lemma FrameSlot<D>(s: Cpu<D>, c: Word, lr: Word, base: int, i: nat)
    requires i < 16
    ensures At(FrameMem(s, c, lr, base), base + 4 * i) == SavedFrame(s)[i]
  {
    var m, r := s.mem[base := s.r[0]][base + 56 := s.r[LR]], s.r[0 := c][LR := lr];
    StoredSlot(m[base + 52 := r[SP]], base + 4, r, 1, 12, base + 4 * i, i - 1);
    hide StoredMany;
  }

  lemma StoredSlot(m: Mem, base: int, r: Regs, first: nat, last: nat, a: int, j: int)
    requires first <= last < 15 && a == base + 4 * j
    ensures At(StoredMany(m, base, r, first, last), a) == if 0 <= j <= last - first then r[first + j] else At(m, a)
  {
    assert (a - base) / 4 == j && (a - base) % 4 == 0;
  }

  /** The rest of `emu_call_handle_op`. */
  ghost predicate RestoreCode(m: Mem, host: Host) {
    var at := host.stub as int + 40;
    && Runnable(at, 20, host)
    && Instruction(m, at, LoadWord(1, 13, 60))
    && Instruction(m, at + 4, Move(14, 4))
    && Instruction(m, at + 8, WriteFlags(1))
    && Instruction(m, at + 12, LoadMany(13, 0, 13))
    && Instruction(m, at + 16, BranchTo(14))
  }

  lemma WritingFlags<D>(bus: Bus<D>, host: Host, k: Clobber, s: Cpu<D>, rm: nat)
    requires AtInstruction(s, host, WriteFlags(rm)) && rm < 15
    ensures Next(bus, host, k, s) == Some(s.(cpsr := WithFlags(s.cpsr, s.r[rm]), pc := s.pc + 4))
  {
    hide CallHandler, StoredMany, LoadedMany, Decode;
  }

  lemma LoadingMany<D>(bus: Bus<D>, host: Host, k: Clobber, s: Cpu<D>, first: nat, last: nat)
    requires AtInstruction(s, host, LoadMany(SP, first, last)) && first <= last < 15
    requires Aligned(s.r[SP]) && s.r[SP] < 0xffff_ff00
    ensures Next(bus, host, k, s)
         == Some(s.(r := LoadedMany(s.mem, s.r[SP], s.r, first, last), pc := s.pc + 4))
  {
    hide Decode;
  }

  lemma BranchingTo<D>(bus: Bus<D>, host: Host, k: Clobber, s: Cpu<D>, rm: nat)
    requires AtInstruction(s, host, BranchTo(rm)) && rm < 15
    ensures Next(bus, host, k, s) == Some(s.(pc := s.r[rm]))
  {
    hide CallHandler, StoredMany, LoadedMany, Decode;
  }

  lemma Restore<D>(bus: Bus<D>, host: Host, k: Clobber, s: Cpu<D>, frame: Frame)
    requires RestoreCode(s.mem, host) && s.pc == host.stub as int + 40
    requires Aligned(s.r[SP]) && s.r[SP] < TOP && FrameAt(s.mem, s.r[SP]) == frame
    ensures RunFor(bus, host, k, s, 5)
         == Some(s.(r := frame[..14] + [s.r[4]], pc := s.r[4], cpsr := WithFlags(s.cpsr, frame[FLAGS])))
  {
    hide Decode, Next, Aligned, At, RunFor, WithFlags;
    var base := s.r[SP] as int;
    AlignedSteps(base);
    AlignedSteps(host.stub as int + 40);
    assert At(s.mem, base + 4 * 15) == frame[15];
    var s1 := s.(pc := host.stub as int + 44, r := s.r[1 := frame[15]]);
    var s2 := s1.(pc := host.stub as int + 48, r := s1.r[LR := s.r[4]]);
    var s3 := s2.(pc := host.stub as int + 52, cpsr := WithFlags(s.cpsr, frame[FLAGS]));
    var s4 := s3.(pc := host.stub as int + 56, r := frame[..14] + [s.r[4]]);
    Loading(bus, host, k, s, 1, 13, 60, base + 60);
    Moving(bus, host, k, s1, 14, 4, s.r[4]);
    WritingFlags(bus, host, k, s2, 1);
    LoadingMany(bus, host, k, s3, 0, 13);
    FrameLoaded(s.mem, base, s3.r, frame);
    BranchingTo(bus, host, k, s4, 14);
    RunFive(bus, host, k, s, s1, s2, s3, s4, s4.(pc := s.r[4]));
  }

  lemma FrameLoaded(m: Mem, base: int, r: Regs, frame: Frame)
    requires FrameAt(m, base) == frame
    ensures LoadedMany(m, base, r, 0, 13) == frame[..14] + [r[14]]
  {
    var loaded := LoadedMany(m, base, r, 0, 13);
    forall i | 0 <= i < 14 ensures loaded[i] == frame[i] {
      assert FrameAt(m, base)[i] == At(m, base + 4 * i);
    }
  }

  /** The last two generated words. */
  ghost predicate LeaveCode(m: Mem, host: Host, p: Place) {
    var c := p.c as int;
    && Runnable(c + 28, 8, host) && p.c < 0xffff_ff00
    && Instruction(m, c + 28, LoadWord(14, 13, -0xec8))
    && JumpAt(m, Plus(p.c, 32), Plus(p.site, 4), false)
  }

  lemma Leave<D>(bus: Bus<D>, host: Host, k: Clobber, s: Cpu<D>, p: Place, a: int)
    requires LeaveCode(s.mem, host, p) && s.pc == p.c as int + 28
    requires a == s.r[SP] as int - 0xec8 && 0 <= a && Aligned(a)
    ensures RunFor(bus, host, k, s, 2) == Some(s.(r := s.r[LR := At(s.mem, a)], pc := Plus(p.site, 4)))
  {
    hide Decode, Next, Aligned, At, Signed, Wrap, Plus, RunFor;
    PlusSmall(p.c, 32);
    AlignedSteps(p.c as int + 28);
    var s1 := s.(r := s.r[LR := At(s.mem, a)], pc := p.c as int + 32);
    Loading(bus, host, k, s, 14, 13, -0xec8, a);
    Jumping(bus, host, k, s1, Plus(p.site, 4), false);
    JumpOnce(bus, host, k, s, s1);
    JumpOnce(bus, host, k, s1, s1.(pc := Plus(p.site, 4)));
    RunThen(bus, host, k, s, 1, s1, 1, s1.(pc := Plus(p.site, 4)));
  }

  // ----- the whole trip

  ghost predicate Ready(m: Mem, host: Host, p: Place) {
    && p.Valid() && Aligned(host.stub) && host.stub < TOP
    && At(m, p.page as int + 4) == host.stub && At(m, p.c as int + 4) == p.op
    && JumpAt(m, p.site, p.Code(), false)
    && EntryCode(m, host, p) && LeaveCode(m, host, p) && SaveCode(m, host) && RestoreCode(m, host)
  }

  /** The two memories hold the same code for this trampoline. */
  ghost predicate SameCode(m: Mem, m': Mem, host: Host, p: Place) {
    && (forall a | p.c <= a < p.c as int + 36 :: At(m', a) == At(m, a))
    && (forall a | host.stub <= a < host.stub as int + 60 :: At(m', a) == At(m, a))
    && At(m', p.page as int + 4) == At(m, p.page as int + 4)
  }

  lemma ReadyKept(m: Mem, m': Mem, host: Host, p: Place)
    requires Ready(m, host, p) && SameCode(m, m', host, p)
    ensures EntryCode(m', host, p) && LeaveCode(m', host, p) && SaveCode(m', host) && RestoreCode(m', host)
    ensures At(m', p.c as int + 4) == p.op
  {
    hide Decode, Plus, Signed, Wrap, Runnable, EntryCode, SaveCode;
    EntryKept(m, m', host, p);
    SaveKept(m, m', host);
    PlusSmall(p.c, 32);
  }

  /** A memory that changed only in the dead room below the stack pointer holds the same code. */
  lemma SafeKeepsCode(m: Mem, m': Mem, sp: Word, depth: nat, host: Host, p: Place)
    requires Safe(sp, depth, host, p)
    requires forall a | a < sp as int - FRAME_GAP - depth || sp as int - FRAME_GAP + 64 <= a :: At(m', a) == At(m, a)
    ensures SameCode(m, m', host, p)
  {
    hide At;
  }

  lemma RunThen<D>(bus: Bus<D>, host: Host, k: Clobber, s: Cpu<D>, a: nat, s': Cpu<D>, b: nat, s'': Cpu<D>)
    requires RunFor(bus, host, k, s, a) == Some(s') && RunFor(bus, host, k, s', b) == Some(s'')
    ensures RunFor(bus, host, k, s, a + b) == Some(s'')
  {
    RunSplit(bus, host, k, s, a, b);
  }

  /** From the fault site to the C function's entry. */
  ghost function Called<D>(s: Cpu<D>, host: Host, p: Place): Cpu<D> {
    var base := Plus(s.r[SP], -FRAME_GAP);
    var entered := s.r[0 := p.c][LR := Plus(p.c, 28)][SP := base];
    Cpu(entered[2 := s.cpsr][1 := base][4 := Plus(p.c, 28)][LR := Plus(host.stub, 40)], host.entry, s.cpsr,
        FrameMem(s, p.c, Plus(p.c, 28), base), s.dev)
  }

  lemma ReachCall<D>(bus: Bus<D>, host: Host, k: Clobber, s: Cpu<D>, p: Place)
    requires Ready(s.mem, host, p) && s.pc == p.site && Safe(s.r[SP], k.depth, host, p)
    ensures RunFor(bus, host, k, s, 16) == Some(Called(s, host, p))
  {
    hide Decode, RunFor, Next, Instruction, Signed, Wrap, Plus, SavedMem, Ready, EntryCode, SaveCode, JumpAt, Safe, At;
    var base := s.r[SP] as int - FRAME_GAP;
    ReadyPlaces(s.mem, host, p);
    assert base == Plus(s.r[SP], -FRAME_GAP) && Aligned(base) && 0 <= base && Clear(base, base + 64, p.c, 36)
      && Clear(base, base + 64, host.stub, 60) && Clear(base, base + 64, p.page as int + 4, 4)
      && s.r[SP] < TOP && s.pc != host.entry by {
      SafeBase(s.r[SP], k.depth, host, p);
    }
    var s1 := s.(pc := p.Code());
    var m2 := s.mem[base := s.r[0]][base + 56 := s.r[LR]];
    var s2 := s1.(r := s.r[0 := p.c][LR := Plus(p.c, 28)], pc := host.stub, mem := m2);
    var s3 := s2.(r := s2.r[SP := base], pc := host.stub as int + 20, mem := SavedMem(s2, base));
    var s4 := Called(s, host, p);
    Jumping(bus, host, k, s, p.Code(), false);
    JumpOnce(bus, host, k, s, s1);
    Enter(bus, host, k, s1, p, base);
    assert SaveCode(m2, host) && SaveCode(s3.mem, host) by {
      SavingKeepsCode(s, s2, base, host, p, k.depth);
    }
    SaveRegisters(bus, host, k, s2, base);
    SaveStatus(bus, host, k, s3, base);
    assert s3.mem[base + 60 := s.cpsr] == s4.mem by { SavedSame(s.(mem := m2, r := s2.r), s2, base); }
    RunThen(bus, host, k, s, 1, s1, 5, s2);
    RunThen(bus, host, k, s, 6, s2, 5, s3);
    RunThen(bus, host, k, s, 11, s3, 5, s4);
  }

  lemma SavingKeepsCode<D>(s: Cpu<D>, s2: Cpu<D>, base: int, host: Host, p: Place, depth: nat)
    requires SaveCode(s.mem, host) && Clear(base, base + 64, host.stub, 60)
    requires s2.mem == s.mem[base := s.r[0]][base + 56 := s.r[LR]]
    ensures SaveCode(s2.mem, host) && SaveCode(SavedMem(s2, base), host)
  {
    hide SaveCode, SavedMem;
    forall a | a < base || base + 64 <= a ensures At(SavedMem(s2, base), a) == At(s2.mem, a) == At(s.mem, a) {
      SavedElsewhere(s2, base, a);
    }
    SaveKept(s.mem, s2.mem, host);
    SaveKept(s.mem, SavedMem(s2, base), host);
  }

  lemma JumpOnce<D>(bus: Bus<D>, host: Host, k: Clobber, s: Cpu<D>, s': Cpu<D>)
    requires Next(bus, host, k, s) == Some(s')
    ensures RunFor(bus, host, k, s, 1) == Some(s')
  {
    hide Next;
    assert RunFor(bus, host, k, s', 0) == Some(s');
  }

  lemma SavedSame<D>(s: Cpu<D>, s': Cpu<D>, base: int)
    requires s.mem == s'.mem && s.r == s'.r
    ensures SavedMem(s, base) == SavedMem(s', base)
  {
  }

  /** What the machine looks like after the trip, given what the interpreter left in the frame. */
  ghost function Trapped<D>(s: Cpu<D>, k: Clobber, p: Place, frame: Frame, dev: D): Cpu<D> {
    var base := Plus(s.r[SP], -FRAME_GAP);
    var m := AfterCall(FrameMem(s, p.c, Plus(p.c, 28), base), base, frame, k);
    Cpu(frame[..14] + [At(m, frame[SP] as int - FRAME_GAP + 4 * LR)], Plus(p.site, 4),
        WithFlags(WithFlags(s.cpsr, k.flags), frame[FLAGS]), m, dev)
  }

  /** The machine when the C function has returned. */
  ghost function AfterHandler<D>(s: Cpu<D>, host: Host, k: Clobber, p: Place, frame: Frame, dev: D): Cpu<D> {
    var base := Plus(s.r[SP], -FRAME_GAP);
    Cpu(Returned(Called(s, host, p).r, k), Plus(host.stub, 40), WithFlags(s.cpsr, k.flags),
        AfterCall(FrameMem(s, p.c, Plus(p.c, 28), base), base, frame, k), dev)
  }

  lemma Calling<D>(bus: Bus<D>, host: Host, k: Clobber, s: Cpu<D>, frame: Frame, dev: D)
    requires s.pc == host.entry && s.r[1] == s.r[SP] && Aligned(s.r[1]) && Aligned(s.r[0])
    requires HandleOp(bus, At(s.mem, s.r[0] as int + 4), FrameAt(s.mem, s.r[1]), s.dev) == Resumed(frame, dev)
    ensures Next(bus, host, k, s)
         == Some(Cpu(Returned(s.r, k), s.r[LR], WithFlags(s.cpsr, k.flags), AfterCall(s.mem, s.r[1], frame, k), dev))
  {
    hide HandleOp, FrameAt, AfterCall, WithFlags, Returned, At;
  }

  lemma CalledRegisters<D>(s: Cpu<D>, host: Host, p: Place)
    ensures var called := Called(s, host, p);
      && called.r[0] == p.c && called.r[1] == called.r[SP] == Plus(s.r[SP], -FRAME_GAP)
      && called.r[4] == Plus(p.c, 28) && called.r[LR] == Plus(host.stub, 40)
  {
    hide Plus, FrameMem;
  }

  /** What the C function is called with: the trapped word and the interrupted program's registers. */
  lemma TrappedContext<D>(s: Cpu<D>, host: Host, depth: nat, p: Place)
    requires At(s.mem, p.c as int + 4) == p.op && Safe(s.r[SP], depth, host, p)
    ensures var called := Called(s, host, p);
      && At(called.mem, p.c as int + 4) == p.op && FrameAt(called.mem, Plus(s.r[SP], -FRAME_GAP)) == SavedFrame(s)
  {
    hide Plus, Safe, FrameMem, Aligned, FrameAt, SavedFrame, At;
    SafeBase(s.r[SP], depth, host, p);
    FrameSaved(s, p.c, Plus(p.c, 28), Plus(s.r[SP], -FRAME_GAP));
  }

  lemma RunCall<D>(bus: Bus<D>, host: Host, k: Clobber, s: Cpu<D>, p: Place, frame: Frame, dev: D)
    requires Aligned(p.c) && At(s.mem, p.c as int + 4) == p.op && Safe(s.r[SP], k.depth, host, p)
    requires HandleOp(bus, p.op, SavedFrame(s), s.dev) == Resumed(frame, dev)
    ensures Next(bus, host, k, Called(s, host, p)) == Some(AfterHandler(s, host, k, p, frame, dev))
  {
    hide Plus, Safe, FrameMem, HandleOp, Aligned, WithFlags, AfterCall, FrameAt, SavedFrame, Next, Returned, At, Clear;
    SafeBase(s.r[SP], k.depth, host, p);
    TrappedContext(s, host, k.depth, p);
    CalledRegisters(s, host, p);
    Calling(bus, host, k, Called(s, host, p), frame, dev);
  }

  lemma SafeBase(sp: Word, depth: nat, host: Host, p: Place)
    requires Safe(sp, depth, host, p)
    ensures Plus(sp, -FRAME_GAP) == sp as int - FRAME_GAP && Aligned(Plus(sp, -FRAME_GAP))
    ensures var base := sp as int - FRAME_GAP;
      && Clear(base, base + 64, p.c, 36) && Clear(base, base + 64, host.stub, 60)
      && Clear(base, base + 64, p.page as int + 4, 4)
    ensures FRAME_GAP <= sp < TOP && p.site != host.entry
  {
    PlusSmall(sp, -FRAME_GAP);
  }

  lemma CodeAfterHandler<D>(s: Cpu<D>, host: Host, k: Clobber, p: Place, frame: Frame, dev: D)
    requires Ready(s.mem, host, p) && Safe(s.r[SP], k.depth, host, p)
    ensures var m := AfterHandler(s, host, k, p, frame, dev).mem;
      LeaveCode(m, host, p) && RestoreCode(m, host) && FrameAt(m, Plus(s.r[SP], -FRAME_GAP)) == frame
  {
    hide Plus, FrameMem, AfterCall, FrameAt, At, Ready, SavedFrame, SameCode, Safe, AfterHandler;
    hide EntryCode, SaveCode, LeaveCode, RestoreCode, Clear, Aligned;
    var base := Plus(s.r[SP], -FRAME_GAP);
    SafeBase(s.r[SP], k.depth, host, p);
    var m0 := FrameMem(s, p.c, Plus(p.c, 28), base);
    FrameSaved(s, p.c, Plus(p.c, 28), base);
    CallKeeps(m0, base, frame, k);
    assert AfterHandler(s, host, k, p, frame, dev).mem == AfterCall(m0, base, frame, k) by {
      HandlerMemory(s, host, k, p, frame, dev);
    }
    SafeKeepsCode(s.mem, AfterCall(m0, base, frame, k), s.r[SP], k.depth, host, p);
    ReadyKept(s.mem, AfterCall(m0, base, frame, k), host, p);
  }

  lemma HandlerMemory<D>(s: Cpu<D>, host: Host, k: Clobber, p: Place, frame: Frame, dev: D)
    ensures var base := Plus(s.r[SP], -FRAME_GAP);
      AfterHandler(s, host, k, p, frame, dev).mem == AfterCall(FrameMem(s, p.c, Plus(p.c, 28), base), base, frame, k)
  {
  }

  /** The C call and everything after it. */
  lemma ReturnFromCall<D>(bus: Bus<D>, host: Host, k: Clobber, s: Cpu<D>, p: Place, frame: Frame, dev: D)
    requires Ready(s.mem, host, p) && Safe(s.r[SP], k.depth, host, p)
    requires HandleOp(bus, p.op, SavedFrame(s), s.dev) == Resumed(frame, dev)
    requires Aligned(frame[SP] as int - FRAME_GAP + 4 * LR) && frame[SP] >= FRAME_GAP
    ensures RunFor(bus, host, k, Called(s, host, p), 8) == Some(Trapped(s, k, p, frame, dev))
  {
    hide *;
    assert Aligned(p.c) && At(s.mem, p.c as int + 4) == p.op by { ReadyPlaces(s.mem, host, p); }
    RunCall(bus, host, k, s, p, frame, dev);
    JumpOnce(bus, host, k, Called(s, host, p), AfterHandler(s, host, k, p, frame, dev));
    AfterReturn(bus, host, k, s, p, frame, dev);
    RunThen(bus, host, k, Called(s, host, p), 1, AfterHandler(s, host, k, p, frame, dev), 7,
            Trapped(s, k, p, frame, dev));
  }

  lemma AfterReturn<D>(bus: Bus<D>, host: Host, k: Clobber, s: Cpu<D>, p: Place, frame: Frame, dev: D)
    requires Ready(s.mem, host, p) && Safe(s.r[SP], k.depth, host, p)
    requires Aligned(frame[SP] as int - FRAME_GAP + 4 * LR) && frame[SP] >= FRAME_GAP
    ensures RunFor(bus, host, k, AfterHandler(s, host, k, p, frame, dev), 7) == Some(Trapped(s, k, p, frame, dev))
  {
    hide RunFor, Next, FrameMem, Plus, Wrap, Safe, AfterCall, LeaveCode, RestoreCode, FrameAt, WithFlags, At, Ready;
    hide Called;
    var a := frame[SP] as int - FRAME_GAP + 4 * LR;
    var s5 := AfterHandler(s, host, k, p, frame, dev);
    assert s5.pc == host.stub as int + 40 && s5.r[4] == p.c as int + 28 == Plus(p.c, 28) by {
      ReadyPlaces(s.mem, host, p);
      CalledRegisters(s, host, p);
      ReturnedKeeps(Called(s, host, p).r, k);
    }
    var base := s5.r[SP];
    assert base == Plus(s.r[SP], -FRAME_GAP) && Aligned(base) && base < TOP by {
      SafeBase(s.r[SP], k.depth, host, p);
      CalledRegisters(s, host, p);
      ReturnedKeeps(Called(s, host, p).r, k);
    }
    hide Returned;
    var s6 := s5.(r := frame[..14] + [s5.r[4]], pc := s5.r[4], cpsr := WithFlags(s5.cpsr, frame[FLAGS]));
    CodeAfterHandler(s, host, k, p, frame, dev);
    Restore(bus, host, k, s5, frame);
    Leave(bus, host, k, s6, p, a);
    assert s6.r[LR := At(s6.mem, a)] == Trapped(s, k, p, frame, dev).r;
    RunThen(bus, host, k, s5, 5, s6, 2, Trapped(s, k, p, frame, dev));
  }

  lemma ReadyPlaces(m: Mem, host: Host, p: Place)
    requires Ready(m, host, p)
    ensures p.Valid() && Aligned(p.c) && At(m, p.c as int + 4) == p.op && JumpAt(m, p.site, p.Code(), false)
    ensures EntryCode(m, host, p) && SaveCode(m, host) && At(m, p.page as int + 4) == host.stub
    ensures Aligned(p.page as int + 4) && p.page < TOP && Aligned(host.stub) && p.Code() == p.c as int + 8
    ensures Plus(host.stub, 40) == host.stub as int + 40 && Plus(p.c, 28) == p.c as int + 28
    ensures Aligned(p.site) && p.site < TOP
  {
    hide Plus, EntryCode, SaveCode, LeaveCode, RestoreCode, JumpAt, At;
    PlaceAligned(p);
    PlusSmall(host.stub, 40);
  }

  lemma ReturnedKeeps(r: Regs, k: Clobber)
    ensures Returned(r, k)[4] == r[4] && Returned(r, k)[SP] == r[SP]
  {
  }

  /** The call leaves the handled frame, and nothing else outside the stack it used. */
  lemma CallKeeps(m: Mem, base: int, frame: Frame, k: Clobber)
    ensures FrameAt(AfterCall(m, base, frame, k), base) == frame
    ensures forall a | a < base - k.depth || base + 64 <= a :: At(AfterCall(m, base, frame, k), a) == At(m, a)
  {
    forall i | 0 <= i < 16 ensures FrameAt(AfterCall(m, base, frame, k), base)[i] == frame[i] {
      CallLeaves(m, base, frame, k, i);
    }
  }

  lemma CallLeaves(m: Mem, base: int, frame: Frame, k: Clobber, i: nat)
    requires i < 16
    ensures At(AfterCall(m, base, frame, k), base + 4 * i) == frame[i]
  {
    assert (base + 4 * i - base) % 4 == 0 && (base + 4 * i - base) / 4 == i;
  }

  // ----- the emitted words are that code

  lemma WordAt(m: Mem, base: int, words: seq<Word>, i: nat)
    requires WordsAt(m, base, words) && i < |words|
    ensures At(m, base + 4 * i) == words[i]
  {
    hide At;
  }

  lemma EmittedWords(m: Mem, p: Place, load: Word, back: Word)
    requires WordsAt(m, p.c as int + 8, TrampolineWords(load, back))
    ensures var c := p.c as int;
      && At(m, c + 8) == 0xe50d_0f00 && At(m, c + 12) == 0xe50d_eec8 && At(m, c + 16) == 0xe24f_0018
      && At(m, c + 20) == 0xe1a0_e00f && At(m, c + 24) == load && At(m, c + 28) == 0xe51d_eec8 && At(m, c + 32) == back
  {
    hide At, WordsAt;
    var words := TrampolineWords(load, back);
    WordAt(m, p.c as int + 8, words, 0);
    WordAt(m, p.c as int + 8, words, 1);
    WordAt(m, p.c as int + 8, words, 2);
    WordAt(m, p.c as int + 8, words, 3);
    WordAt(m, p.c as int + 8, words, 4);
    WordAt(m, p.c as int + 8, words, 5);
    WordAt(m, p.c as int + 8, words, 6);
  }

  lemma LoadsHandler(p: Place)
    requires p.Valid() && p.Load().Some?
    ensures Decode(p.LoadWord()) == LoadWord(PC, PC, p.page as int + 4 - (p.c as int + 24) - 8)
  {
    hide Decode, MakeOffset12, Or, Signed, Wrap;
    PlaceAligned(p);
    OffsetDecodes(Plus(p.c, 24), Plus(p.page, 4));
    var n := p.page as int + 4 - (p.c as int + 24);
    PlusSmall(Plus(p.c, 24), n);
    DistanceOfPlus(Plus(p.c, 24), n);
  }

  lemma PlaceRunnable(host: Host, p: Place)
    requires p.Valid() && Clear(p.c, p.c as int + 36, host.entry, 4)
    ensures Runnable(p.c as int + 8, 20, host) && Runnable(p.c as int + 28, 8, host) && p.c < 0xffff_ff00
  {
  }

  lemma DecodeTrampoline(m: Mem, host: Host, p: Place)
    requires TrampolineAt(m, host, p) && Clear(p.c, p.c as int + 36, host.entry, 4)
    ensures EntryCode(m, host, p) && LeaveCode(m, host, p) && JumpAt(m, p.site, p.Code(), false)
  {
    hide Decode, MakeJmp, MakeOffset12, Or, Signed, Wrap, WordsAt, At, Plus, Aligned, Runnable;
    EmittedWords(m, p, p.LoadWord(), p.Back().value);
    EntryDecodes();
    AdderDecodes();
    LoadsHandler(p);
    PlaceAligned(p);
    PlaceRunnable(host, p);
    JmpDecodes(p.site, p.Code(), false);
    JmpDecodes(Plus(p.c, 32), Plus(p.site, 4), false);
  }

  lemma SaveWords(m: Mem, host: Host, call: Word)
    requires WordsAt(m, host.stub, StubWords(call))
    ensures var at := host.stub as int;
      && At(m, at) == 0xe50d_decc && At(m, at + 4) == 0xe24d_dc0f && At(m, at + 8) == 0xe28d_d004
      && At(m, at + 12) == 0xe88d_1ffe && At(m, at + 16) == 0xe24d_d004 && At(m, at + 20) == 0xe10f_2000
      && At(m, at + 24) == 0xe1a0_100d && At(m, at + 28) == 0xe58d_203c && At(m, at + 32) == 0xe1a0_400e
      && At(m, at + 36) == call
  {
    hide At, WordsAt;
    var words := StubWords(call);
    WordAt(m, host.stub, words, 0);
    WordAt(m, host.stub, words, 1);
    WordAt(m, host.stub, words, 2);
    WordAt(m, host.stub, words, 3);
    WordAt(m, host.stub, words, 4);
    WordAt(m, host.stub, words, 5);
    WordAt(m, host.stub, words, 6);
    WordAt(m, host.stub, words, 7);
    WordAt(m, host.stub, words, 8);
    WordAt(m, host.stub, words, 9);
  }

  lemma RestoreWords(m: Mem, host: Host, call: Word)
    requires WordsAt(m, host.stub, StubWords(call))
    ensures var at := host.stub as int + 40;
      && At(m, at) == 0xe59d_103c && At(m, at + 4) == 0xe1a0_e004 && At(m, at + 8) == 0xe128_f001
      && At(m, at + 12) == 0xe89d_3fff && At(m, at + 16) == 0xe12f_ff1e
  {
    hide At, WordsAt;
    var words := StubWords(call);
    WordAt(m, host.stub, words, 10);
    WordAt(m, host.stub, words, 11);
    WordAt(m, host.stub, words, 12);
    WordAt(m, host.stub, words, 13);
    WordAt(m, host.stub, words, 14);
  }

  function StubCall(host: Host): Option<Word> {
    MakeJmp(Plus(host.stub, 36), host.entry, true)
  }

  lemma StubFacts(m: Mem, host: Host)
    requires StubAt(m, host)
    ensures StubCall(host).Some? && WordsAt(m, host.stub, StubWords(StubCall(host).value))
    ensures Runnable(host.stub, 40, host) && Runnable(host.stub as int + 40, 20, host)
    ensures Plus(host.stub, 36) == host.stub as int + 36 && Aligned(host.stub as int + 36) && Aligned(host.entry)
  {
    hide MakeJmp, StubWords, WordsAt;
  }

  lemma DecodeStub(m: Mem, host: Host)
    requires StubAt(m, host)
    ensures SaveCode(m, host) && RestoreCode(m, host)
  {
    hide StubAt, SaveCode, RestoreCode, Decode, MakeJmp, WordsAt, At, Plus;
    DecodeSave(m, host);
    DecodeRestore(m, host);
  }

  lemma DecodeSave(m: Mem, host: Host)
    requires StubAt(m, host)
    ensures SaveCode(m, host)
  {
    hide StubAt, StubWords, Decode, MakeJmp, Or, Signed, Wrap, WordsAt, At, Plus, Aligned, Runnable;
    StubFacts(m, host);
    SaveWords(m, host, StubCall(host).value);
    StubDecodes1();
    StubDecodes3();
    AdderDecodes();
    JmpDecodes(Plus(host.stub, 36), host.entry, true);
  }

  lemma DecodeRestore(m: Mem, host: Host)
    requires StubAt(m, host)
    ensures RestoreCode(m, host)
  {
    hide StubAt, StubWords, Decode, MakeJmp, Or, Signed, Wrap, WordsAt, At, Plus, Aligned, Runnable;
    StubFacts(m, host);
    RestoreWords(m, host, StubCall(host).value);
    StubDecodes2();
    StubDecodes4();
  }

  lemma TrampolineReady(m: Mem, host: Host, p: Place)
    requires TrampolineAt(m, host, p) && StubAt(m, host) && Clear(p.c, p.c as int + 36, host.entry, 4)
    ensures Ready(m, host, p)
  {
    hide Decode, MakeJmp, MakeOffset12, WordsAt, At, EntryCode, LeaveCode, SaveCode, RestoreCode, JumpAt, Clear;
    DecodeTrampoline(m, host, p);
    DecodeStub(m, host);
  }

  /**
   Running the patched instruction: whatever the C code clobbers, after 24 instructions control is behind the
   fault site with the registers and flags that the interpreter left in the frame, except that lr is read back
   relative to the stack pointer just restored; memory differs only in the dead room below the old one.
   */
  lemma TrappedRun<D>(bus: Bus<D>, host: Host, k: Clobber, s: Cpu<D>, p: Place, frame: Frame, dev: D)
    requires TrampolineAt(s.mem, host, p) && StubAt(s.mem, host) && s.pc == p.site
    requires Safe(s.r[SP], k.depth, host, p)
    requires HandleOp(bus, p.op, SavedFrame(s), s.dev) == Resumed(frame, dev)
    requires Aligned(frame[SP] as int - FRAME_GAP + 4 * LR) && frame[SP] >= FRAME_GAP
    ensures RunFor(bus, host, k, s, 24) == Some(Trapped(s, k, p, frame, dev))
  {
    hide RunFor, Next, Ready, TrampolineAt, StubAt, Safe, SavedFrame, HandleOp, Aligned, Trapped, Called, Clear;
    assert Ready(s.mem, host, p) by {
      SafeEntry(s.r[SP], k.depth, host, p);
      TrampolineReady(s.mem, host, p);
    }
    ReachCall(bus, host, k, s, p);
    ReturnFromCall(bus, host, k, s, p, frame, dev);
    RunThen(bus, host, k, s, 16, Called(s, host, p), 8, Trapped(s, k, p, frame, dev));
  }

  lemma SafeEntry(sp: Word, depth: nat, host: Host, p: Place)
    requires Safe(sp, depth, host, p)
    ensures Clear(p.c, p.c as int + 36, host.entry, 4)
  {
  }

  // ----- runs that the interpreter ends

  lemma CallingAborts<D>(bus: Bus<D>, host: Host, k: Clobber, s: Cpu<D>)
    requires s.pc == host.entry
    requires HandleOp(bus, At(s.mem, s.r[0] as int + 4), FrameAt(s.mem, s.r[1]), s.dev).Abort?
    ensures Next(bus, host, k, s).None?
  {
    hide HandleOp, FrameAt, At;
  }

  /** The patched instruction only gets through if the interpreter takes the word it stands for. */
  lemma RanMeansHandled<D>(bus: Bus<D>, host: Host, k: Clobber, s: Cpu<D>, p: Place)
    requires TrampolineAt(s.mem, host, p) && StubAt(s.mem, host) && s.pc == p.site
    requires Safe(s.r[SP], k.depth, host, p) && RunFor(bus, host, k, s, 24).Some?
    ensures HandleOp(bus, p.op, SavedFrame(s), s.dev).Resumed?
  {
    hide RunFor, Next, Ready, TrampolineAt, StubAt, Safe, SavedFrame, HandleOp, Aligned, Clear, FrameMem, FrameAt, At;
    hide Plus;
    SafeEntry(s.r[SP], k.depth, host, p);
    TrampolineReady(s.mem, host, p);
    ReachCall(bus, host, k, s, p);
    RunSplit(bus, host, k, s, 16, 8);
    var called := Called(s, host, p);
    if HandleOp(bus, p.op, SavedFrame(s), s.dev).Abort? {
      CalledContext(s, host, k.depth, p);
      CallingAborts(bus, host, k, called);
      RunStops(bus, host, k, called, 8);
    }
  }

  lemma RunStops<D>(bus: Bus<D>, host: Host, k: Clobber, s: Cpu<D>, n: nat)
    requires n > 0 && Next(bus, host, k, s).None?
    ensures RunFor(bus, host, k, s, n).None?
  {
    hide Next;
  }

  lemma CalledContext<D>(s: Cpu<D>, host: Host, depth: nat, p: Place)
    requires Ready(s.mem, host, p) && Safe(s.r[SP], depth, host, p)
    ensures var called := Called(s, host, p);
      && At(called.mem, called.r[0] as int + 4) == p.op && FrameAt(called.mem, called.r[1]) == SavedFrame(s)
  {
    hide Plus, Safe, Ready, FrameMem, FrameAt, SavedFrame, At, Called;
    assert At(s.mem, p.c as int + 4) == p.op by { ReadyPlaces(s.mem, host, p); }
    TrappedContext(s, host, depth, p);
    CalledRegisters(s, host, p);
  }
}
